// How the operations of core/modification.py cut a path into segments: the getter
// and the setter split at the dots, the deleter goes through dot_to_dpath of
// core/pattern_utils.py.

module JsonPathText {
  import opened Options

  // str.split with a one-character separator.
  function Split(s: string, sep: char): (parts: seq<string>)
    ensures parts != []
  {
    if s == "" then [""]
    else
      var rest := Split(s[1..], sep);
      if s[0] == sep then [""] + rest else [[s[0]] + rest[0]] + rest[1..]
  }

  // The segments a set or get walks; None when the path names none.
  function SetParts(path: string): Option<seq<string>> {
    var clean := if "$." <= path then path[2..] else path;
    if clean == "" || clean == "$" then None else Some(Split(clean, '.'))
  }

  // lstrip("$").
  function StripDollars(s: string): string {
    if s != "" && s[0] == '$' then StripDollars(s[1..]) else s
  }

  // dot_to_dpath after the strip: dots and opening brackets become slashes, closing
  // brackets go.
  function Slashed(s: string): string {
    if s == "" then ""
    else if s[0] == ']' then Slashed(s[1..])
    else [if s[0] == '.' || s[0] == '[' then '/' else s[0]] + Slashed(s[1..])
  }

  function NonEmpty(parts: seq<string>): seq<string> {
    if parts == [] then []
    else (if parts[0] == "" then [] else [parts[0]]) + NonEmpty(parts[1..])
  }

  // The segments a delete walks.
  function DeleteParts(path: string): seq<string> {
    NonEmpty(Split(Slashed(StripDollars(path)), '/'))
  }

  // No brackets and no slashes.
  ghost predicate Plain(path: string) {
    forall c :: c in path ==> c != '[' && c != ']' && c != '/'
  }

  lemma {:induction false} SlashedSplits(s: string)
    requires Plain(s)
    ensures Split(Slashed(s), '/') == Split(s, '.')
  {
    if s != "" {
      assert s[0] in s && forall c :: c in s[1..] ==> c in s;
      SlashedSplits(s[1..]);
      assert Slashed(s)[1..] == Slashed(s[1..]);
    }
  }

  ghost predicate NoEmpty(parts: seq<string>) {
    forall i :: 0 <= i < |parts| ==> parts[i] != ""
  }

  lemma {:induction false} NonEmptyKeepsAll(parts: seq<string>)
    ensures |NonEmpty(parts)| <= |parts|
    ensures NonEmpty(parts) == parts <==> NoEmpty(parts)
    ensures |NonEmpty(parts)| == |parts| ==> NonEmpty(parts) == parts
  {
    if parts != [] {
      NonEmptyKeepsAll(parts[1..]);
      assert parts == [parts[0]] + parts[1..];
      if NoEmpty(parts) {
        assert NoEmpty(parts[1..]);
      }
    }
  }

  // The characters in all segments.
  ghost function Size(parts: seq<string>): nat {
    if parts == [] then 0 else |parts[0]| + Size(parts[1..])
  }

  lemma {:induction false} NonEmptySize(parts: seq<string>)
    ensures Size(NonEmpty(parts)) == Size(parts)
  {
    if parts != [] {
      NonEmptySize(parts[1..]);
      assert ([parts[0]] + NonEmpty(parts[1..]))[1..] == NonEmpty(parts[1..]);
      assert [] + NonEmpty(parts[1..]) == NonEmpty(parts[1..]);
    }
  }

  lemma {:induction false} SplitTail(s: string)
    ensures s != "" && s[0] != '.' ==> Size(Split(s, '.')) == Size(Split(s[1..], '.')) + 1
  {
    if s != "" && s[0] != '.' {
      var rest := Split(s[1..], '.');
      assert rest == [rest[0]] + rest[1..];
    }
  }

  lemma {:induction false} StripShrinks(s: string)
    ensures Size(Split(StripDollars(s), '.')) <= Size(Split(s, '.'))
    ensures s != "" && s[0] == '$' ==> Size(Split(StripDollars(s), '.')) < Size(Split(s, '.'))
  {
    if s != "" && s[0] == '$' {
      StripShrinks(s[1..]);
      SplitTail(s);
    }
  }

  lemma {:induction false} StripPlain(s: string)
    requires Plain(s)
    ensures Plain(StripDollars(s))
  {
    if s != "" && s[0] == '$' {
      assert forall c :: c in s[1..] ==> c in s;
      StripPlain(s[1..]);
    }
  }

  // Without brackets and slashes, setter and deleter walk the same segments exactly
  // when none is empty and a leading dollar is followed by a dot.
  lemma SegmentsAgreeExactly(path: string)
    requires Plain(path) && SetParts(path).Some?
    ensures DeleteParts(path) == SetParts(path).value <==>
            NoEmpty(SetParts(path).value) && (path[0] == '$' ==> "$." <= path)
  {
    var parts := SetParts(path).value;
    var stripped := StripDollars(path);
    StripPlain(path);
    SlashedSplits(stripped);
    NonEmptyKeepsAll(parts);
    if "$." <= path {
      assert path[1..][0] == '.';
      assert StripDollars(path[1..]) == path[1..];
      assert path[1..][1..] == path[2..];
      assert Split(stripped, '.') == [""] + parts;
      assert ([""] + parts)[1..] == parts;
    } else if path[0] == '$' {
      StripShrinks(path);
      NonEmptySize(Split(stripped, '.'));
    } else {
      assert stripped == path;
    }
  }

  // A dollar without a dot: the setter writes to the key "$a", the deleter removes
  // the key "a".
  lemma DollarDiffers()
    ensures SetParts("$a") == Some(["$a"]) && DeleteParts("$a") == ["a"]
  {
    OneSegment("$a", '.');
    OneSegment("a", '/');
    assert StripDollars("$a") == StripDollars("a") == "a";
    assert Slashed("a") == "a";
    assert NonEmpty(["a"]) == ["a"] + NonEmpty([]);
  }

  lemma SplitTwice()
    ensures Split("a..b", '.') == ["a", "", "b"]
  {
    OneSegment("b", '.');
    assert ".b"[1..] == "b" && "..b"[1..] == ".b" && "a..b"[1..] == "..b";
    assert Split(".b", '.') == ["", "b"];
    var rest := Split("..b", '.');
    assert rest == ["", "", "b"] && rest[1..] == ["", "b"] && ['a'] + rest[0] == "a";
  }

  // An empty segment: only the setter looks for it.
  lemma EmptySegmentDiffers()
    ensures SetParts("a..b") == Some(["a", "", "b"]) && DeleteParts("a..b") == ["a", "b"]
  {
    SplitTwice();
    assert forall c :: c in "a..b" ==> c == 'a' || c == '.' || c == 'b';
    SlashedSplits("a..b");
    assert NonEmpty(["b"]) == ["b"] + NonEmpty([]);
    assert ["a", "", "b"][1..] == ["", "b"] && ["", "b"][1..] == ["b"];
  }

  lemma {:induction false} OneSegment(s: string, sep: char)
    requires sep !in s
    ensures Split(s, sep) == [s]
  {
    if s != "" {
      assert s[0] in s && forall c :: c in s[1..] ==> c in s;
      OneSegment(s[1..], sep);
      assert [s[0]] + s[1..] == s;
    }
  }

  // --- Splitting ----------------------------------------------------------

  function Join(parts: seq<string>, sep: char): string
    requires parts != []
  {
    if |parts| == 1 then parts[0] else parts[0] + [sep] + Join(parts[1..], sep)
  }

  lemma {:induction false} SplitJoins(s: string, sep: char)
    ensures Join(Split(s, sep), sep) == s
    ensures forall p :: p in Split(s, sep) ==> sep !in p
  {
    if s != "" {
      SplitJoins(s[1..], sep);
      var rest := Split(s[1..], sep);
      assert s == [s[0]] + s[1..];
      if s[0] == sep {
        assert ([""] + rest)[1..] == rest;
      } else {
        assert ([[s[0]] + rest[0]] + rest[1..])[1..] == rest[1..];
        assert forall p :: p in rest[1..] ==> p in rest;
      }
    }
  }

  lemma {:induction false} JoinSplits(parts: seq<string>, sep: char)
    requires parts != [] && forall p :: p in parts ==> sep !in p
    ensures Split(Join(parts, sep), sep) == parts
    decreases |parts|, |parts[0]|
  {
    var s := Join(parts, sep);
    if |parts| == 1 {
      OneSegment(s, sep);
    } else if parts[0] == "" {
      JoinSplits(parts[1..], sep);
      assert s == [sep] + Join(parts[1..], sep) && s[1..] == Join(parts[1..], sep);
      assert parts == [""] + parts[1..];
    } else {
      var c, first := parts[0][0], parts[0][1..];
      var less := [first] + parts[1..];
      assert c in parts[0] && parts[0] in parts;
      assert less[1..] == parts[1..] && s == [c] + Join(less, sep) && s[1..] == Join(less, sep);
      JoinSplits(less, sep);
      assert parts[0] == [c] + first && parts == [[c] + less[0]] + less[1..];
    }
  }

  // The segments are the only way to cut the path at its separators.
  lemma SplitExactly(s: string, sep: char, parts: seq<string>)
    ensures Split(s, sep) == parts <==>
            parts != [] && (forall p :: p in parts ==> sep !in p) && Join(parts, sep) == s
  {
    SplitJoins(s, sep);
    if parts != [] && (forall p :: p in parts ==> sep !in p) && Join(parts, sep) == s {
      JoinSplits(parts, sep);
    }
  }

  // --- Brackets -----------------------------------------------------------

  lemma {:induction false} SlashedConcat(a: string, b: string)
    ensures Slashed(a + b) == Slashed(a) + Slashed(b)
  {
    if a == "" {
      assert a + b == b;
    } else {
      assert (a + b)[1..] == a[1..] + b;
      SlashedConcat(a[1..], b);
    }
  }

  lemma {:induction false} StripConcat(a: string, b: string)
    requires b != "" && b[0] != '$'
    ensures StripDollars(a + b) == StripDollars(a) + b
  {
    if a == "" {
      assert a + b == b;
    } else {
      assert (a + b)[1..] == a[1..] + b;
      StripConcat(a[1..], b);
    }
  }

  // To the deleter, an index in brackets is a segment behind a dot.
  lemma BracketsAreDots(a: string, i: string, b: string)
    ensures DeleteParts(a + ("[" + i + "]" + b)) == DeleteParts(a + ("." + i + b))
  {
    var x, y := "[" + i + "]" + b, "." + i + b;
    StripConcat(a, x);
    StripConcat(a, y);
    SlashedConcat(StripDollars(a), x);
    SlashedConcat(StripDollars(a), y);
    assert x == "[" + (i + ("]" + b)) && y == "." + (i + b);
    assert x[1..] == i + ("]" + b) && y[1..] == i + b && ("]" + b)[1..] == b;
    SlashedConcat(i, "]" + b);
    SlashedConcat(i, b);
  }
}
