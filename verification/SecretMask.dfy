// mask_secrets and restore_masked_secrets of core/config.py.

module SecretMask {
  // A config dump. Scalars that are not strings are opaque.
  datatype Tree =
    | Null
    | Scalar(n: int)
    | Text(s: string)
    | List(items: seq<Tree>)
    | Dict(fields: map<string, Tree>)

  const SECRET_MASK := "********"

  const SECRET_NAMES := {"password", "passwd", "pass", "mqttpass", "secret", "token"}

  const SECRET_SUFFIXES :=
    ["password", "passwd", "secret", "token", "apikey", "privatekey", "credential", "credentials"]

  // lower(), then everything but a-z and 0-9 removed (ASCII letters).
  function Normalized(name: string): string {
    if name == "" then ""
    else
      var c := name[0];
      var rest := Normalized(name[1..]);
      if 'a' <= c <= 'z' || '0' <= c <= '9' then [c] + rest
      else if 'A' <= c <= 'Z' then [(c as int + 32) as char] + rest
      else rest
  }

  predicate EndsWith(s: string, suffix: string) {
    |suffix| <= |s| && s[|s| - |suffix|..] == suffix
  }

  predicate IsSecretKey(name: string) {
    var norm := Normalized(name);
    norm in SECRET_NAMES || exists i :: 0 <= i < |SECRET_SUFFIXES| && EndsWith(norm, SECRET_SUFFIXES[i])
  }

  predicate IsEnvReference(s: string) {
    "${" <= s && EndsWith(s, "}")
  }

  // A value that mask_secrets hides when it is stored under `key`.
  predicate IsSecret(key: string, value: Tree) {
    IsSecretKey(key) && value.Text? && value.s != "" && !IsEnvReference(value.s)
  }

  function Mask(t: Tree): Tree {
    match t
    case Dict(fields) =>
      Dict(map k | k in fields :: if IsSecret(k, fields[k]) then Text(SECRET_MASK) else Mask(fields[k]))
    case List(items) => List(seq(|items|, i requires 0 <= i < |items| => Mask(items[i])))
    case _ => t
  }

  // `current` is Null where the source passes None.
  function Restore(incoming: Tree, current: Tree): Tree
    decreases incoming
  {
    match incoming
    case Text(s) => if s == SECRET_MASK then (if current != Null then current else Text("")) else incoming
    case Dict(fields) =>
      Dict(map k | k in fields ::
        Restore(fields[k], if current.Dict? && k in current.fields then current.fields[k] else Null))
    case List(items) =>
      List(seq(|items|, i requires 0 <= i < |items| =>
        Restore(items[i], if current.List? && i < |current.items| then current.items[i] else Null)))
    case _ => incoming
  }

  // Saving a masked config unchanged gives the config back, whatever it holds.
  lemma {:induction false} RoundTrip(t: Tree)
    ensures Restore(Mask(t), t) == t
  {
    match t {
      case Dict(fields) =>
        forall k | k in fields
          ensures Restore(Mask(t).fields[k], fields[k]) == fields[k]
        {
          if !IsSecret(k, fields[k]) {
            RoundTrip(fields[k]);
          }
        }
        assert Restore(Mask(t), t).fields == fields;
      case List(items) =>
        forall i | 0 <= i < |items|
          ensures Restore(Mask(items[i]), items[i]) == items[i]
        {
          RoundTrip(items[i]);
        }
        assert Restore(Mask(t), t).items == items;
      case _ =>
    }
  }

  lemma {:induction false} MaskTwice(t: Tree)
    ensures Mask(Mask(t)) == Mask(t)
  {
    match t {
      case Dict(fields) =>
        forall k | k in fields
          ensures Mask(Mask(t)).fields[k] == Mask(t).fields[k]
        {
          if !IsSecret(k, fields[k]) {
            MaskTwice(fields[k]);
          }
        }
        assert Mask(Mask(t)).fields == Mask(t).fields;
      case List(items) =>
        forall i | 0 <= i < |items|
          ensures Mask(Mask(items[i])) == Mask(items[i])
        {
          MaskTwice(items[i]);
        }
        assert Mask(Mask(t)).items == Mask(t).items;
      case _ =>
    }
  }

  // Two configs that differ at most in secrets: the same keys and items everywhere,
  // and different values only where both are secret.
  ghost predicate SameButSecrets(a: Tree, b: Tree) {
    match a
    case Dict(fields) =>
      && b.Dict? && b.fields.Keys == fields.Keys
      && forall k :: k in fields ==>
           (IsSecret(k, fields[k]) && IsSecret(k, b.fields[k]))
           || (!IsSecret(k, fields[k]) && !IsSecret(k, b.fields[k]) && SameButSecrets(fields[k], b.fields[k]))
    case List(items) =>
      b.List? && |b.items| == |items| && forall i :: 0 <= i < |items| ==> SameButSecrets(items[i], b.items[i])
    case _ => a == b
  }

  // The masked dump tells nothing about a secret but that there is one.
  lemma {:induction false} MaskHidesSecrets(a: Tree, b: Tree)
    requires SameButSecrets(a, b)
    ensures Mask(a) == Mask(b)
  {
    match a {
      case Dict(fields) =>
        forall k | k in fields
          ensures Mask(a).fields[k] == Mask(b).fields[k]
        {
          if !IsSecret(k, fields[k]) {
            MaskHidesSecrets(fields[k], b.fields[k]);
          }
        }
        assert Mask(a).fields == Mask(b).fields;
      case List(items) =>
        forall i | 0 <= i < |items|
          ensures Mask(items[i]) == Mask(b.items[i])
        {
          MaskHidesSecrets(items[i], b.items[i]);
        }
        assert Mask(a).items == Mask(b).items;
      case _ =>
    }
  }

  // --- Editing a masked config --------------------------------------------

  // A step down: into a dictionary or into a list.
  datatype Step = Key(k: string) | Index(i: nat)

  // What is one step down; Null when there is nothing.
  function Below(t: Tree, step: Step): Tree {
    match step
    case Key(k) => if t.Dict? && k in t.fields then t.fields[k] else Null
    case Index(i) => if t.List? && i < |t.items| then t.items[i] else Null
  }

  function At(t: Tree, path: seq<Step>): Tree
    decreases |path|
  {
    if path == [] then t else At(Below(t, path[0]), path[1..])
  }

  lemma {:induction false} NothingBelow(path: seq<Step>)
    ensures At(Null, path) == Null
  {
    if path != [] {
      NothingBelow(path[1..]);
    }
  }

  // One node of a tree, without what is below it.
  datatype Shape = Keys(keys: set<string>) | Length(n: nat) | Leaf(t: Tree)

  function ShapeOf(t: Tree): Shape {
    match t
    case Dict(fields) => Keys(fields.Keys)
    case List(items) => Length(|items|)
    case _ => Leaf(t)
  }

  // After an edit, every string anywhere that is still the mask has its stored value
  // back and every other one is the one sent.
  lemma {:induction false} EditsSurvive(incoming: Tree, current: Tree, path: seq<Step>)
    requires At(incoming, path).Text?
    ensures At(Restore(incoming, current), path) ==
            if At(incoming, path) != Text(SECRET_MASK) then At(incoming, path)
            else if At(current, path) != Null then At(current, path)
            else Text("")
    decreases |path|
  {
    if path != [] {
      if Below(incoming, path[0]) == Null {
        NothingBelow(path[1..]);
      } else {
        EditsSurvive(Below(incoming, path[0]), Below(current, path[0]), path[1..]);
      }
    }
  }

  // Nothing else about the edited config changes: every dictionary has the keys sent,
  // every list the length sent, and every other value is the one sent.
  lemma {:induction false} RestoreKeepsShape(incoming: Tree, current: Tree, path: seq<Step>)
    requires At(incoming, path) != Null && !At(incoming, path).Text?
    ensures ShapeOf(At(Restore(incoming, current), path)) == ShapeOf(At(incoming, path))
    decreases |path|
  {
    if path != [] {
      if Below(incoming, path[0]) == Null {
        NothingBelow(path[1..]);
      } else {
        RestoreKeepsShape(Below(incoming, path[0]), Below(current, path[0]), path[1..]);
      }
    }
  }

  // --- What the mask looks like -------------------------------------------

  // The path ends at a secret.
  predicate SecretAt(t: Tree, path: seq<Step>) {
    path != [] && path[|path| - 1].Key? && IsSecret(path[|path| - 1].k, At(t, path))
  }

  // Everywhere in the tree the mask shows what is there, and at secrets itself.
  lemma {:induction false} MaskAt(t: Tree, path: seq<Step>)
    ensures ShapeOf(At(Mask(t), path)) == if SecretAt(t, path) then Leaf(Text(SECRET_MASK)) else ShapeOf(At(t, path))
    decreases |path|
  {
    if path != [] {
      var step, rest := path[0], path[1..];
      var below := Below(t, step);
      NothingBelow(rest);
      if step.Key? && IsSecret(step.k, below) {
        assert Below(Mask(t), step) == Text(SECRET_MASK);
        assert At(Mask(t), path) == At(Text(SECRET_MASK), rest) && At(t, path) == At(below, rest);
        if rest == [] {
          assert path[|path| - 1] == step;
        } else {
          assert Below(Text(SECRET_MASK), rest[0]) == Null && Below(below, rest[0]) == Null;
          NothingBelow(rest[1..]);
        }
      } else {
        MaskAt(below, rest);
        assert rest != [] ==> rest[|rest| - 1] == path[|path| - 1];
      }
    }
  }

  // Trees that look alike everywhere are the same.
  lemma {:induction false} SameEverywhere(a: Tree, b: Tree)
    requires forall path :: ShapeOf(At(a, path)) == ShapeOf(At(b, path))
    ensures a == b
  {
    assert ShapeOf(At(a, [])) == ShapeOf(At(b, []));
    match a {
      case Dict(fields) =>
        forall k | k in fields
          ensures fields[k] == b.fields[k]
        {
          SameBelow(a, b, Key(k));
          assert Below(a, Key(k)) == fields[k] && Below(b, Key(k)) == b.fields[k];
          SameEverywhere(fields[k], b.fields[k]);
        }
        assert fields == b.fields;
      case List(items) =>
        forall i | 0 <= i < |items|
          ensures items[i] == b.items[i]
        {
          SameBelow(a, b, Index(i));
          assert Below(a, Index(i)) == items[i] && Below(b, Index(i)) == b.items[i];
          SameEverywhere(items[i], b.items[i]);
        }
        assert items == b.items;
      case _ =>
    }
  }

  lemma SameBelow(a: Tree, b: Tree, step: Step)
    requires forall path :: ShapeOf(At(a, path)) == ShapeOf(At(b, path))
    ensures forall path :: ShapeOf(At(Below(a, step), path)) == ShapeOf(At(Below(b, step), path))
  {
    forall path
      ensures ShapeOf(At(Below(a, step), path)) == ShapeOf(At(Below(b, step), path))
    {
      assert ([step] + path)[1..] == path;
      assert ShapeOf(At(a, [step] + path)) == ShapeOf(At(b, [step] + path));
    }
  }

  // A tree is the mask of another exactly when it looks like it everywhere, with the
  // mask at every secret.
  lemma MaskExactly(t: Tree, masked: Tree)
    ensures masked == Mask(t) <==>
            forall path :: ShapeOf(At(masked, path)) ==
              if SecretAt(t, path) then Leaf(Text(SECRET_MASK)) else ShapeOf(At(t, path))
  {
    forall path
      ensures ShapeOf(At(Mask(t), path)) == if SecretAt(t, path) then Leaf(Text(SECRET_MASK)) else ShapeOf(At(t, path))
    {
      MaskAt(t, path);
    }
    if forall path :: ShapeOf(At(masked, path)) ==
         if SecretAt(t, path) then Leaf(Text(SECRET_MASK)) else ShapeOf(At(t, path)) {
      SameEverywhere(masked, Mask(t));
    }
  }

  // --- What counts as a secret --------------------------------------------

  lemma {:induction false} NormalizedConcat(a: string, b: string)
    ensures Normalized(a + b) == Normalized(a) + Normalized(b)
  {
    if a == "" {
      assert a + b == b;
    } else {
      assert (a + b)[1..] == a[1..] + b;
      NormalizedConcat(a[1..], b);
    }
  }

  // Of each character: small letters and digits stay, capitals become small, all others go.
  lemma NormalizedChar(c: char)
    ensures Normalized([c]) ==
            if 'a' <= c <= 'z' || '0' <= c <= '9' then [c]
            else if 'A' <= c <= 'Z' then [(c as int - 'A' as int + 'a' as int) as char]
            else ""
  {
    assert [c][1..] == "";
  }

  predicate IsWord(word: string) {
    || word == "password" || word == "passwd" || word == "secret" || word == "token"
    || word == "apikey" || word == "privatekey" || word == "credential" || word == "credentials"
  }

  // The key ends in one of these words, or is one of two short ones.
  ghost predicate SpellsSecret(norm: string) {
    norm == "pass" || norm == "mqttpass" || exists prefix, word :: IsWord(word) && norm == prefix + word
  }

  lemma EndsWithIs(s: string, prefix: string, suffix: string)
    ensures s == prefix + suffix ==> EndsWith(s, suffix)
    ensures EndsWith(s, suffix) ==> s == s[..|s| - |suffix|] + suffix
  {
  }

  lemma SuffixOf(word: string) returns (i: nat)
    requires IsWord(word)
    ensures i < |SECRET_SUFFIXES| && SECRET_SUFFIXES[i] == word
  {
    i := if word == "password" then 0 else if word == "passwd" then 1 else if word == "secret" then 2
         else if word == "token" then 3 else if word == "apikey" then 4 else if word == "privatekey" then 5
         else if word == "credential" then 6 else 7;
  }

  lemma SuffixIsWord(i: nat)
    requires i < |SECRET_SUFFIXES|
    ensures IsWord(SECRET_SUFFIXES[i])
  {
  }

  lemma NameSpells(norm: string)
    requires norm in SECRET_NAMES
    ensures SpellsSecret(norm)
  {
    if norm != "pass" && norm != "mqttpass" {
      assert IsWord(norm) && norm == "" + norm;
    }
  }

  lemma SecretKeyExactly(name: string)
    ensures IsSecretKey(name) <==> SpellsSecret(Normalized(name))
  {
    var norm := Normalized(name);
    if norm in SECRET_NAMES {
      NameSpells(norm);
    } else if i :| 0 <= i < |SECRET_SUFFIXES| && EndsWith(norm, SECRET_SUFFIXES[i]) {
      SuffixIsWord(i);
      EndsWithIs(norm, "", SECRET_SUFFIXES[i]);
    } else if prefix, word :| IsWord(word) && norm == prefix + word {
      var i := SuffixOf(word);
      EndsWithIs(norm, prefix, word);
      assert false;
    }
  }

  lemma EnvReferenceExactly(s: string)
    ensures IsEnvReference(s) <==> |s| >= 3 && s[0] == '$' && s[1] == '{' && s[|s| - 1] == '}'
  {
    if |s| >= 2 && s[0] == '$' && s[1] == '{' {
      assert s[..2] == "${";
    }
    if |s| >= 1 {
      assert s[|s| - 1..] == [s[|s| - 1]];
    }
  }

  // A string in a dictionary is masked exactly when its key spells a secret, whatever its
  // case and separators, and it is neither empty nor a reference to the environment.
  lemma MaskedExactly(fields: map<string, Tree>, k: string)
    requires k in fields && fields[k].Text?
    ensures var s, shown := fields[k].s, Mask(Dict(fields)).fields[k];
            shown == if SpellsSecret(Normalized(k)) && s != ""
                        && !(|s| >= 3 && s[0] == '$' && s[1] == '{' && s[|s| - 1] == '}')
                     then Text("********") else Text(s)
  {
    SecretKeyExactly(k);
    EnvReferenceExactly(fields[k].s);
  }
}
