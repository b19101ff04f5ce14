// The JSON path operations of core/modification.py (ModificationRule._get_json_path,
// _set_json_path, _delete_json_path) on paths without brackets.

module JsonPath {
  import opened Options

  datatype Json =
    | Null
    | Bool(b: bool)
    | Number(n: int)
    | String(s: string)
    | Array(items: seq<Json>)
    | Object(fields: map<string, Json>)

  const EMPTY_OBJECT := Object(map[])

  // Python truth.
  predicate Truthy(j: Json) {
    match j
    case Null => false
    case Bool(b) => b
    case Number(n) => n != 0
    case String(s) => s != ""
    case Array(items) => items != []
    case Object(fields) => fields != map[]
  }

  // isdigit() and int(), for ASCII digits.
  predicate IsDigits(p: string) {
    p != "" && forall i :: 0 <= i < |p| ==> '0' <= p[i] <= '9'
  }

  function Value(p: string): nat
    requires forall i :: 0 <= i < |p| ==> '0' <= p[i] <= '9'
  {
    if p == "" then 0 else Value(p[..|p| - 1]) * 10 + (p[|p| - 1] as int - '0' as int)
  }

  predicate IsContainer(j: Json) {
    j.Object? || j.Array?
  }

  // Whether a segment names a place in a container.
  predicate CanHold(j: Json, p: string) {
    j.Object? || (j.Array? && IsDigits(p) && Value(p) < |j.items|)
  }

  // What is at that place, if anything.
  function Child(j: Json, p: string): Option<Json> {
    if j.Object? then (if p in j.fields then Some(j.fields[p]) else None)
    else if CanHold(j, p) then Some(j.items[Value(p)])
    else None
  }

  function WithChild(j: Json, p: string, c: Json): Json
    requires CanHold(j, p)
  {
    if j.Object? then Object(j.fields[p := c]) else Array(j.items[Value(p) := c])
  }

  function WithoutChild(j: Json, p: string): Json
    requires Child(j, p).Some?
  {
    if j.Object? then Object(j.fields - {p})
    else Array(j.items[..Value(p)] + j.items[Value(p) + 1..])
  }

  // --- Reading ------------------------------------------------------------

  function At(j: Json, parts: seq<string>): Json {
    if parts == [] then j
    else
      match Child(j, parts[0])
      case None => Null
      case Some(c) => At(c, parts[1..])
  }

  // What is at the end of a path, if anything: a null that is there is not nothing.
  function Look(j: Json, parts: seq<string>): Option<Json> {
    if parts == [] then Some(j)
    else
      match Child(j, parts[0])
      case None => None
      case Some(c) => Look(c, parts[1..])
  }

  // The getter reads null where there is nothing.
  lemma {:induction false} LookedAt(j: Json, parts: seq<string>)
    ensures At(j, parts) == if Look(j, parts).Some? then Look(j, parts).value else Null
    decreases |parts|
  {
    if parts != [] && Child(j, parts[0]).Some? {
      LookedAt(Child(j, parts[0]).value, parts[1..]);
    }
  }

  method GetJsonPath(obj: Json, parts: seq<string>) returns (value: Json)
    requires parts != []
    ensures value == At(obj, parts)
  {
    if !Truthy(obj) {
      return Null;
    }
    var curr := obj;
    var i := 0;
    while i < |parts|
      invariant 0 <= i <= |parts|
      invariant At(curr, parts[i..]) == At(obj, parts)
    {
      var p := parts[i];
      assert parts[i..][1..] == parts[i + 1..];
      if curr.Object? {
        if p in curr.fields {
          curr := curr.fields[p];
        } else {
          curr := Null;
          NothingBelow(parts[i + 1..]);
        }
      } else if curr.Array? && IsDigits(p) {
        if Value(p) < |curr.items| {
          curr := curr.items[Value(p)];
        } else {
          curr := Null;
          NothingBelow(parts[i + 1..]);
        }
      } else {
        return Null;
      }
      i := i + 1;
    }
    value := curr;
  }

  lemma NothingBelow(parts: seq<string>)
    ensures At(Null, parts) == Null
  {
  }

  // --- Writing ------------------------------------------------------------

  // The tree after the walk has made its writes, whether it succeeds or not.
  function SetFrom(target: Json, parts: seq<string>, value: Json): (Json, bool)
    requires parts != []
    decreases |parts|
  {
    var p := parts[0];
    if !CanHold(target, p) then (target, false)
    else if |parts| == 1 then (WithChild(target, p, value), true)
    else
      var c := Child(target, p);
      if target.Object? && (c == None || c == Some(Null)) then
        var (sub, ok) := SetFrom(EMPTY_OBJECT, parts[1..], value);
        (WithChild(target, p, sub), ok)
      else if target.Object? && !IsContainer(c.value) then (target, false)
      else
        var (sub, ok) := SetFrom(c.value, parts[1..], value);
        (WithChild(target, p, sub), ok)
  }

  function Set(obj: Json, parts: seq<string>, value: Json): (Json, bool)
    requires parts != []
  {
    if !Truthy(obj) then (obj, false) else SetFrom(obj, parts, value)
  }

  // A container on the way down and the place in it where the walk went on.
  datatype Step = Step(container: Json, place: string)

  predicate ValidTrail(trail: seq<Step>) {
    forall i :: 0 <= i < |trail| ==> CanHold(trail[i].container, trail[i].place)
  }

  // The whole tree, when the walk stands at `target`.
  function Plug(trail: seq<Step>, target: Json): Json
    requires ValidTrail(trail)
  {
    if trail == [] then target
    else
      var last := trail[|trail| - 1];
      Plug(trail[..|trail| - 1], WithChild(last.container, last.place, target))
  }

  lemma PlugMore(trail: seq<Step>, container: Json, place: string, target: Json)
    requires ValidTrail(trail) && CanHold(container, place)
    ensures ValidTrail(trail + [Step(container, place)])
    ensures Plug(trail + [Step(container, place)], target) == Plug(trail, WithChild(container, place, target))
  {
    assert (trail + [Step(container, place)])[..|trail|] == trail;
  }

  // The walk of a set stands at `target`, the first `i` segments behind it.
  ghost predicate Standing(obj: Json, parts: seq<string>, value: Json, trail: seq<Step>, target: Json, i: nat)
    requires i < |parts|
  {
    && ValidTrail(trail)
    && var (sub, ok) := SetFrom(target, parts[i..], value);
       SetFrom(obj, parts, value) == (Plug(trail, sub), ok)
  }

  // Going on to a container that is there.
  lemma GoesOn(obj: Json, parts: seq<string>, value: Json, trail: seq<Step>, target: Json, i: nat)
    requires i + 1 < |parts| && Standing(obj, parts, value, trail, target, i)
    requires Child(target, parts[i]).Some? && (target.Array? || IsContainer(Child(target, parts[i]).value))
    ensures Standing(obj, parts, value, trail + [Step(target, parts[i])], Child(target, parts[i]).value, i + 1)
  {
    assert parts[i..][1..] == parts[i + 1..];
    PlugMore(trail, target, parts[i], SetFrom(Child(target, parts[i]).value, parts[i + 1..], value).0);
  }

  // Going on to an object made for a missing key.
  lemma GoesOnFresh(obj: Json, parts: seq<string>, value: Json, trail: seq<Step>, target: Json, i: nat)
    requires i + 1 < |parts| && Standing(obj, parts, value, trail, target, i)
    requires target.Object? && (parts[i] in target.fields ==> target.fields[parts[i]] == Null)
    ensures Standing(
              obj, parts, value, trail + [Step(Object(target.fields[parts[i] := EMPTY_OBJECT]), parts[i])],
              EMPTY_OBJECT, i + 1)
  {
    var p := parts[i];
    var made := Object(target.fields[p := EMPTY_OBJECT]);
    var sub := SetFrom(EMPTY_OBJECT, parts[i + 1..], value).0;
    assert parts[i..][1..] == parts[i + 1..];
    PlugMore(trail, made, p, sub);
    assert target.fields[p := EMPTY_OBJECT][p := sub] == target.fields[p := sub];
  }

  // A scalar, a bad index or no container: the walk ends here.
  lemma GivesUp(obj: Json, parts: seq<string>, value: Json, trail: seq<Step>, target: Json, i: nat)
    requires i < |parts| && Standing(obj, parts, value, trail, target, i)
    requires var c := Child(target, parts[i]);
             || !CanHold(target, parts[i])
             || (i + 1 < |parts| && target.Object? && c.Some? && c.value != Null && !IsContainer(c.value))
    ensures SetFrom(obj, parts, value) == (Plug(trail, target), false)
  {
  }

  // The last segment.
  lemma Arrives(obj: Json, parts: seq<string>, value: Json, trail: seq<Step>, target: Json)
    requires parts != [] && Standing(obj, parts, value, trail, target, |parts| - 1)
    requires CanHold(target, parts[|parts| - 1])
    ensures SetFrom(obj, parts, value) == (Plug(trail, WithChild(target, parts[|parts| - 1], value)), true)
  {
    assert parts[|parts| - 1..] == [parts[|parts| - 1]];
  }

  // The setter's loop. `trail` keeps the containers that the walk has references to.
  method SetJsonPath(obj: Json, parts: seq<string>, value: Json) returns (tree: Json, ok: bool)
    requires parts != []
    ensures (tree, ok) == Set(obj, parts, value)
  {
    if !Truthy(obj) {
      return obj, false;
    }
    var target := obj;
    var trail: seq<Step> := [];
    var i := 0;
    while i < |parts| - 1
      invariant 0 <= i < |parts| && Standing(obj, parts, value, trail, target, i)
    {
      var p := parts[i];
      if target.Object? {
        var nxt := if p in target.fields then target.fields[p] else Null;
        if nxt == Null {
          GoesOnFresh(obj, parts, value, trail, target, i);
          nxt := EMPTY_OBJECT;
          target := Object(target.fields[p := nxt]);
        } else if !IsContainer(nxt) {
          GivesUp(obj, parts, value, trail, target, i);
          return Plug(trail, target), false;
        } else {
          GoesOn(obj, parts, value, trail, target, i);
        }
        trail := trail + [Step(target, p)];
        target := nxt;
      } else if target.Array? && IsDigits(p) {
        if Value(p) >= |target.items| {
          GivesUp(obj, parts, value, trail, target, i);
          return Plug(trail, target), false;
        }
        GoesOn(obj, parts, value, trail, target, i);
        var nxt := target.items[Value(p)];
        trail := trail + [Step(target, p)];
        target := nxt;
      } else {
        GivesUp(obj, parts, value, trail, target, i);
        return Plug(trail, target), false;
      }
      i := i + 1;
    }
    var last := parts[|parts| - 1];
    if target.Object? {
      Arrives(obj, parts, value, trail, target);
      return Plug(trail, Object(target.fields[last := value])), true;
    }
    if target.Array? && IsDigits(last) && Value(last) < |target.items| {
      Arrives(obj, parts, value, trail, target);
      return Plug(trail, Array(target.items[Value(last) := value])), true;
    }
    GivesUp(obj, parts, value, trail, target, i);
    return Plug(trail, target), false;
  }

  function DeleteFrom(parent: Json, parts: seq<string>): (Json, bool)
    requires parts != []
    decreases |parts|
  {
    var c := Child(parent, parts[0]);
    if c == None then (parent, false)
    else if |parts| == 1 then (WithoutChild(parent, parts[0]), true)
    else
      var (sub, ok) := DeleteFrom(c.value, parts[1..]);
      (WithChild(parent, parts[0], sub), ok)
  }

  method DeleteJsonPath(obj: Json, parts: seq<string>) returns (tree: Json, ok: bool)
    requires parts != []
    ensures (tree, ok) == DeleteFrom(obj, parts)
  {
    if !Truthy(obj) {
      return obj, false;
    }
    var parent := obj;
    var trail: seq<Step> := [];
    var i := 0;
    while i < |parts| - 1
      invariant 0 <= i < |parts| && ValidTrail(trail)
      invariant var (sub, ok) := DeleteFrom(parent, parts[i..]);
                DeleteFrom(obj, parts) == (Plug(trail, sub), ok)
    {
      var part := parts[i];
      assert parts[i..][1..] == parts[i + 1..];
      if parent.Object? && part !in parent.fields {
        // the next round finds None and gives up
        return Plug(trail, parent), false;
      } else if parent.Object? {
        var nxt := parent.fields[part];
        PlugMore(trail, parent, part, DeleteFrom(nxt, parts[i + 1..]).0);
        trail, parent := trail + [Step(parent, part)], nxt;
      } else if parent.Array? && IsDigits(part) && Value(part) < |parent.items| {
        var nxt := parent.items[Value(part)];
        PlugMore(trail, parent, part, DeleteFrom(nxt, parts[i + 1..]).0);
        trail, parent := trail + [Step(parent, part)], nxt;
      } else {
        return Plug(trail, parent), false;
      }
      i := i + 1;
    }
    var last := parts[|parts| - 1];
    assert parts[i..] == [last];
    if parent.Object? && last in parent.fields {
      return Plug(trail, Object(parent.fields - {last})), true;
    }
    if parent.Array? && IsDigits(last) && Value(last) < |parent.items| {
      return Plug(trail, Array(parent.items[..Value(last)] + parent.items[Value(last) + 1..])), true;
    }
    return Plug(trail, parent), false;
  }

  // --- Laws of the setter -------------------------------------------------

  lemma WithChildLaws(j: Json, p: string, c: Json, d: Json)
    requires CanHold(j, p)
    ensures CanHold(WithChild(j, p, c), p) && Child(WithChild(j, p, c), p) == Some(c)
    ensures WithChild(WithChild(j, p, c), p, d) == WithChild(j, p, d)
    ensures Child(j, p) == Some(c) ==> WithChild(j, p, c) == j
  {
  }

  // Inside a newly made object nothing can fail.
  lemma {:induction false} FreshObjectAccepts(parts: seq<string>, value: Json)
    requires parts != []
    ensures SetFrom(EMPTY_OBJECT, parts, value).1
    decreases |parts|
  {
    if |parts| > 1 {
      FreshObjectAccepts(parts[1..], value);
    }
  }

  lemma {:induction false} SetFromLaws(j: Json, parts: seq<string>, value: Json, other: Json)
    requires parts != []
    ensures var (t, ok) := SetFrom(j, parts, value);
            && (ok ==> Look(t, parts) == Some(value) && SetFrom(t, parts, other) == SetFrom(j, parts, other))
            && (!ok ==> t == j)
    decreases |parts|
  {
    var p := parts[0];
    if CanHold(j, p) {
      WithChildLaws(j, p, value, other);
      if |parts| > 1 {
        var c := Child(j, p);
        var missing := j.Object? && (c == None || c == Some(Null));
        if missing || IsContainer(c.value) || j.Array? {
          var base := if missing then EMPTY_OBJECT else c.value;
          FreshObjectAccepts(parts[1..], value);
          SetFromLaws(base, parts[1..], value, other);
          var (sub, ok) := SetFrom(base, parts[1..], value);
          WithChildLaws(j, p, sub, SetFrom(base, parts[1..], other).0);
          if ok {
            SetMakesContainer(base, parts[1..], value);
          } else {
            WithChildLaws(j, p, base, base);
          }
        }
      }
    }
  }

  lemma SetMakesContainer(j: Json, parts: seq<string>, value: Json)
    requires parts != [] && SetFrom(j, parts, value).1
    ensures IsContainer(SetFrom(j, parts, value).0)
    ensures Truthy(SetFrom(j, parts, value).0)
  {
    var t := SetFrom(j, parts, value).0;
    if t.Object? {
      assert parts[0] in t.fields;
    }
  }

  // A set that returns true is read back; one that returns false wrote nothing; a
  // second set to the same path leaves no trace of the first.
  lemma SetThenGet(obj: Json, parts: seq<string>, value: Json, other: Json)
    requires parts != []
    ensures var (t, ok) := Set(obj, parts, value);
            && (ok ==> Look(t, parts) == Some(value) && Set(t, parts, other) == Set(obj, parts, other))
            && (!ok ==> t == obj)
  {
    if Truthy(obj) {
      SetFromLaws(obj, parts, value, other);
      if SetFrom(obj, parts, value).1 {
        SetMakesContainer(obj, parts, value);
      }
    }
  }

  lemma {:induction false} WalkOfGet(j: Json, parts: seq<string>)
    requires parts != [] && At(j, parts) != Null
    ensures SetFrom(j, parts, At(j, parts)) == (j, true)
    decreases |parts|
  {
    var p := parts[0];
    var c := Child(j, p).value;
    WithChildLaws(j, p, c, c);
    if |parts| > 1 {
      WalkOfGet(c, parts[1..]);
    }
  }

  // Writing back what is there succeeds and changes nothing.
  lemma SetOfGet(obj: Json, parts: seq<string>)
    requires parts != [] && At(obj, parts) != Null
    ensures Set(obj, parts, At(obj, parts)) == (obj, true)
  {
    WalkOfGet(obj, parts);
    SetMakesContainer(obj, parts, At(obj, parts));
  }

  // The place `k` segments down the path is there.
  ghost predicate Present(j: Json, parts: seq<string>, k: nat)
    requires k <= |parts|
  {
    forall i :: 0 < i <= k ==> At(j, parts[..i]) != Null
  }

  // What stands in the way of a set at depth `k`: a scalar, or a bad index, or a
  // null inside an array where the path goes on.
  ghost predicate Blocked(j: Json, parts: seq<string>, k: nat)
    requires k < |parts|
  {
    var n := At(j, parts[..k]);
    !CanHold(n, parts[k]) || (n.Array? && k + 1 < |parts| && At(j, parts[..k + 1]) == Null)
  }

  ghost predicate Unblocked(j: Json, parts: seq<string>) {
    forall k :: 0 <= k < |parts| && Present(j, parts, k) ==> !Blocked(j, parts, k)
  }

  lemma {:induction false} WalkSucceedsExactly(j: Json, parts: seq<string>, value: Json)
    requires parts != []
    ensures SetFrom(j, parts, value).1 <==> Unblocked(j, parts)
    decreases |parts|
  {
    var p, rest := parts[0], parts[1..];
    assert parts[..0] == [] && Present(j, parts, 0);
    assert |parts| > 1 ==> At(j, parts[..1]) == (if Child(j, p).Some? then Child(j, p).value else Null) by {
      if |parts| > 1 {
        assert parts[..1][1..] == [];
      }
    }
    if CanHold(j, p) && |parts| > 1 {
      var c := Child(j, p);
      if c == None || c == Some(Null) {
        if j.Object? {
          FreshObjectAccepts(rest, value);
          forall k | 0 < k < |parts|
            ensures !Present(j, parts, k)
          {
            assert At(j, parts[..1]) == Null;
          }
        } else {
          assert Blocked(j, parts, 0);
        }
      } else {
        UnblockedBelow(j, parts, c.value);
        WalkSucceedsExactly(c.value, rest, value);
        if j.Object? && !IsContainer(c.value) {
          assert Blocked(c.value, rest, 0) && Present(c.value, rest, 0) by {
            assert rest[..0] == [];
          }
        }
      }
    } else if !CanHold(j, p) {
      assert Blocked(j, parts, 0);
    } else {
      forall k | 0 <= k < |parts|
        ensures !Blocked(j, parts, k)
      {
      }
    }
  }

  // A set succeeds exactly when the root is not empty (false in Python) and nothing
  // that is there stands in its way.
  lemma SetSucceedsExactly(obj: Json, parts: seq<string>, value: Json)
    requires parts != []
    ensures Set(obj, parts, value).1 <==> Truthy(obj) && Unblocked(obj, parts)
  {
    WalkSucceedsExactly(obj, parts, value);
  }

  // An empty root refuses every set, although nothing stands in the way and the walk
  // would make the same objects below any other root.
  lemma EmptyRootRefuses(parts: seq<string>, value: Json)
    requires parts != []
    ensures Unblocked(EMPTY_OBJECT, parts) && SetFrom(EMPTY_OBJECT, parts, value).1
    ensures Set(EMPTY_OBJECT, parts, value) == (EMPTY_OBJECT, false)
  {
    FreshObjectAccepts(parts, value);
    WalkSucceedsExactly(EMPTY_OBJECT, parts, value);
  }

  lemma UnblockedBelow(j: Json, parts: seq<string>, c: Json)
    requires |parts| > 1 && CanHold(j, parts[0]) && Child(j, parts[0]) == Some(c) && c != Null
    ensures Unblocked(j, parts) <==> Unblocked(c, parts[1..])
  {
    var rest := parts[1..];
    forall k | 0 <= k < |rest|
      ensures Present(j, parts, k + 1) <==> Present(c, rest, k)
      ensures Blocked(j, parts, k + 1) <==> Blocked(c, rest, k)
    {
      forall i | 0 <= i <= |rest|
        ensures At(j, parts[..i + 1]) == At(c, rest[..i])
      {
        assert parts[..i + 1][1..] == rest[..i];
      }
      if Present(c, rest, k) {
        forall i | 0 < i <= k + 1
          ensures At(j, parts[..i]) != Null
        {
          assert At(j, parts[..i]) == At(c, rest[..i - 1]);
        }
      }
      if Present(j, parts, k + 1) {
        forall i | 0 < i <= k
          ensures At(c, rest[..i]) != Null
        {
          assert At(j, parts[..i + 1]) == At(c, rest[..i]);
        }
      }
    }
    assert parts[..0] == [];
    assert parts[..1][1..] == [];
    assert At(j, parts[..1]) == c;
    assert !Blocked(j, parts, 0);
    if Unblocked(j, parts) {
      forall k | 0 <= k < |rest| && Present(c, rest, k)
        ensures !Blocked(c, rest, k)
      {
        assert Present(j, parts, k + 1);
      }
    }
    if Unblocked(c, rest) {
      forall k | 0 <= k < |parts| && Present(j, parts, k)
        ensures !Blocked(j, parts, k)
      {
        if k > 0 {
          assert Present(c, rest, k - 1);
        }
      }
    }
  }

  // --- Frames -------------------------------------------------------------

  // Two segments that name the same place.
  predicate SamePlace(j: Json, p: string, q: string) {
    p == q || (j.Array? && IsDigits(p) && IsDigits(q) && Value(p) == Value(q))
  }

  // The paths part at some node of the tree, or where there is none any more.
  ghost predicate Apart(j: Json, ps: seq<string>, qs: seq<string>)
    decreases |ps|
  {
    && ps != [] && qs != []
    && (SamePlace(j, ps[0], qs[0]) ==>
          Apart(if Child(j, ps[0]).Some? then Child(j, ps[0]).value else Null, ps[1..], qs[1..]))
  }

  // From nothing, there is still nothing at all paths but the one set.
  lemma {:induction false} FreshFrame(ps: seq<string>, qs: seq<string>, value: Json)
    requires ps != [] && Apart(Null, ps, qs)
    ensures Look(SetFrom(EMPTY_OBJECT, ps, value).0, qs) == None
    decreases |ps|
  {
    if ps[0] == qs[0] {
      FreshFrame(ps[1..], qs[1..], value);
    }
  }

  lemma {:induction false} WalkFrame(j: Json, ps: seq<string>, qs: seq<string>, value: Json)
    requires ps != [] && Apart(j, ps, qs)
    ensures Look(SetFrom(j, ps, value).0, qs) == Look(j, qs)
    decreases |ps|
  {
    var p, q := ps[0], qs[0];
    if CanHold(j, p) {
      var c := Child(j, p);
      if !SamePlace(j, p, q) {
        assert forall d :: Child(WithChild(j, p, d), q) == Child(j, q);
      } else if j.Object? && (c == None || c == Some(Null)) {
        FreshFrame(ps[1..], qs[1..], value);
      } else if j.Array? || IsContainer(c.value) {
        WalkFrame(c.value, ps[1..], qs[1..], value);
      }
    }
  }

  // A set leaves every path alone that parts from its own, whether it succeeds or not:
  // what was there is there, and nothing else has come up.
  lemma SetFrame(obj: Json, ps: seq<string>, qs: seq<string>, value: Json)
    requires ps != [] && Apart(obj, ps, qs)
    ensures Look(Set(obj, ps, value).0, qs) == Look(obj, qs)
  {
    WalkFrame(obj, ps, qs, value);
  }

  // It makes no list longer or shorter.
  lemma {:induction false} SetKeepsLists(j: Json, parts: seq<string>, value: Json, k: nat)
    requires k < |parts| && At(j, parts[..k]).Array? && SetFrom(j, parts, value).1
    ensures var (after, before) := (At(SetFrom(j, parts, value).0, parts[..k]), At(j, parts[..k]));
            after.Array? && |after.items| == |before.items|
    decreases |parts|
  {
    if k == 0 {
      assert parts[..0] == [];
    } else {
      var p, rest := parts[0], parts[1..];
      assert parts[..k][0] == p && parts[..k][1..] == rest[..k - 1];
      NothingBelow(rest[..k - 1]);
      var c := Child(j, p).value;
      SetKeepsLists(c, rest, value, k - 1);
      WithChildLaws(j, p, SetFrom(c, rest, value).0, c);
    }
  }

  // --- Laws of deletion ---------------------------------------------------

  ghost function Parent(j: Json, parts: seq<string>): Json
    requires parts != []
  {
    At(j, parts[..|parts| - 1])
  }

  lemma ParentBelow(j: Json, parts: seq<string>)
    requires |parts| > 1
    ensures Child(j, parts[0]).Some? ==> Parent(j, parts) == Parent(Child(j, parts[0]).value, parts[1..])
    ensures Child(j, parts[0]).None? ==> Parent(j, parts) == Null
  {
    var front := parts[..|parts| - 1];
    assert front[0] == parts[0] && front[1..] == parts[1..][..|parts| - 2];
  }

  // A deletion succeeds exactly when the parent holds the last segment. It then
  // removes just that entry from the parent; otherwise it changes nothing.
  lemma {:induction false} DeleteExactly(j: Json, parts: seq<string>)
    requires parts != []
    ensures var (t, ok) := DeleteFrom(j, parts);
            var last := parts[|parts| - 1];
            && (ok <==> Child(Parent(j, parts), last).Some?)
            && (!ok ==> t == j)
            && (ok ==> Parent(t, parts) == WithoutChild(Parent(j, parts), last))
    decreases |parts|
  {
    var c := Child(j, parts[0]);
    if |parts| == 1 {
      assert parts[..0] == [];
    } else {
      ParentBelow(j, parts);
      if c.Some? {
        DeleteExactly(c.value, parts[1..]);
        var (sub, ok) := DeleteFrom(c.value, parts[1..]);
        WithChildLaws(j, parts[0], sub, sub);
        WithChildLaws(j, parts[0], c.value, c.value);
        ParentBelow(WithChild(j, parts[0], sub), parts);
      }
    }
  }

  lemma {:induction false} AtParent(j: Json, parts: seq<string>)
    requires parts != []
    ensures var c := Child(Parent(j, parts), parts[|parts| - 1]);
            At(j, parts) == if c.Some? then c.value else Null
    decreases |parts|
  {
    if |parts| == 1 {
      assert parts[..0] == [] && parts[1..] == [];
    } else {
      ParentBelow(j, parts);
      if Child(j, parts[0]).Some? {
        AtParent(Child(j, parts[0]).value, parts[1..]);
      }
    }
  }

  // A deleted object key reads as nothing; behind a deleted array element the
  // others move up.
  lemma DeleteThenGet(j: Json, parts: seq<string>)
    requires parts != [] && DeleteFrom(j, parts).1
    ensures var (t, parent, i) := (DeleteFrom(j, parts).0, Parent(j, parts), parts[|parts| - 1]);
            && (parent.Object? ==> At(t, parts) == Null)
            && (parent.Array? ==>
                  && IsDigits(i)
                  && At(t, parts) == if Value(i) + 1 < |parent.items| then parent.items[Value(i) + 1] else Null)
  {
    DeleteExactly(j, parts);
    AtParent(DeleteFrom(j, parts).0, parts);
  }

  // What a deletion leaves of the container: a dictionary without just this key, or a list
  // without just this element, the ones behind it moved up by one.
  lemma DeletedEntryExactly(j: Json, parts: seq<string>)
    requires parts != [] && DeleteFrom(j, parts).1
    ensures var (after, before, last) := (Parent(DeleteFrom(j, parts).0, parts), Parent(j, parts), parts[|parts| - 1]);
            && (before.Object? ==>
                  && after.Object? && last in before.fields && last !in after.fields
                  && forall k :: k != last ==>
                       (k in after.fields <==> k in before.fields)
                       && (k in before.fields ==> after.fields[k] == before.fields[k]))
            && (!before.Object? ==>
                  && before.Array? && after.Array? && IsDigits(last) && Value(last) < |before.items|
                  && |after.items| == |before.items| - 1
                  && forall k :: 0 <= k < |after.items| ==>
                       after.items[k] == before.items[if k < Value(last) then k else k + 1])
  {
    DeleteExactly(j, parts);
  }

  // Deleting from an object leaves every path alone that parts from the deleted one;
  // deleting from an array, every path that parts from the array's.
  lemma {:induction false} DeleteFrame(j: Json, ps: seq<string>, qs: seq<string>)
    requires ps != [] && Apart(j, ps, qs)
    requires Parent(j, ps).Array? ==> Apart(j, ps[..|ps| - 1], qs)
    ensures Look(DeleteFrom(j, ps).0, qs) == Look(j, qs)
    decreases |ps|
  {
    var p, q, c := ps[0], qs[0], Child(j, ps[0]);
    if c.Some? {
      if |ps| == 1 {
        assert ps[..0] == [];
      } else {
        ParentBelow(j, ps);
        if SamePlace(j, p, q) {
          assert ps[..|ps| - 1][0] == p && ps[..|ps| - 1][1..] == ps[1..][..|ps| - 2];
          DeleteFrame(c.value, ps[1..], qs[1..]);
        }
      }
    }
  }

  // --- Numbers ------------------------------------------------------------

  function Decimal(n: nat): string {
    var digit := ['0' + (n % 10) as char];
    if n < 10 then digit else Decimal(n / 10) + digit
  }

  // An index written in decimal digits is read as that number.
  lemma {:induction false} DecimalValue(n: nat)
    ensures IsDigits(Decimal(n)) && Value(Decimal(n)) == n
  {
    var s := Decimal(n);
    if n >= 10 {
      DecimalValue(n / 10);
    } else {
      assert s[..0] == "";
    }
    assert s[..|s| - 1] == if n < 10 then "" else Decimal(n / 10);
  }
}
