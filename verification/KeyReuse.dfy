// When a flush marks a pair it has not analysed: only if the pair was stored under the
// key of a deleted one.

module KeyReuse {
  import opened Options
  import opened BufferStore
  import opened FlushCycle

  // The ids a cycle marks, on rows the cycle does not analyse.
  ghost predicate Safe(w: World) {
    w.cycle.Some? ==>
      forall row :: row in w.s.rows && !row.flushed && row.id in w.cycle.value.ids ==> row in w.cycle.value.snapshot
  }

  // The pair is stored under an id the running cycle will mark.
  ghost predicate Reuses(w: World, e: Event) {
    && w.cycle.Some? && e.Traffic? && e.op.Add? && e.op.ending == Commit
    && e.op.id in w.cycle.value.ids
  }

  ghost predicate NoReuse(w: World, es: seq<Event>)
    requires Legal(w, es)
    decreases |es|
  {
    es == [] || (!Reuses(w, es[0]) && NoReuse(Next(w, es[0]), es[1..]))
  }

  lemma SafeStep(w: World, e: Event)
    requires FlushCycle.Inv(w) && Safe(w) && FlushCycle.Allowed(w, e)
    ensures Safe(Next(w, e)) <==> !Reuses(w, e)
    ensures Next(w, e).swallowed == w.swallowed
  {
    var n := Next(w, e);
    match e {
      case Traffic(op) =>
        if op.Delete? {
          BesidesMembers(w.s.rows, {op.target});
        } else if op.ending == Commit {
          var row := n.s.rows[|w.s.rows|];
          assert row in n.s.rows;
        }
      case Begin(pairIds) =>
        SnapshotMembers(w.s, pairIds);
        if pairIds.Some? {
          SortedMembers(Pending(w.s.rows));
          PendingMembers(w.s.rows);
          AmongMembers(BufferPairs(w.s), pairIds.value);
        }
      case End(verdict, now) =>
        if verdict {
          EndMarksExactly(w, now);
          PendingMembers(w.s.rows);
        }
      case Restart =>
    }
  }

  lemma {:induction false} SafeRun(w: World, es: seq<Event>)
    requires FlushCycle.Inv(w) && Safe(w) && Legal(w, es) && NoReuse(w, es)
    ensures Run(w, es).swallowed == w.swallowed
    decreases |es|
  {
    if es != [] {
      StepKeeps(w, es[0]);
      SafeStep(w, es[0]);
      SafeRun(Next(w, es[0]), es[1..]);
    }
  }

  // As long as no pair is stored under an id that the running cycle marks, a pair
  // leaves the pending set only by deletion or after a successful analysis.
  lemma ConservedWithoutReuse(es: seq<Event>)
    requires Legal(START, es) && NoReuse(START, es)
    ensures var w := Run(START, es);
            forall p :: p in w.captured ==> p in Pairs(Pending(w.s.rows)) || p in w.deleted || Analysed(w, p)
  {
    RunKeepsWorld(START, es);
    SafeRun(START, es);
  }

  // --- What a caller can see to -------------------------------------------

  // The database gives keys by its rule (higher ones where other devices share the
  // table); a cycle is asked for ids that have been given
  // out already, as all ids of a snapshot are; and while it runs, nobody deletes the
  // row with the highest key.
  ghost predicate Careful(w: World, e: Event) {
    match e
    case Traffic(Add(_, _, id, ending)) => ending == Commit ==> NextRowId(w.s.rows) <= id
    case Traffic(Delete(id)) => w.cycle.Some? ==> !IsHighest(w.s.rows, id)
    case Begin(pairIds) => pairIds.Some? ==> forall id :: id in pairIds.value ==> id < NextRowId(w.s.rows)
    case _ => true
  }

  ghost predicate IsHighest(rows: seq<Row>, id: int) {
    id in Ids(rows) && forall row :: row in rows ==> row.id <= id
  }

  ghost predicate CarefulRun(w: World, es: seq<Event>)
    requires Legal(w, es)
    decreases |es|
  {
    es == [] || (Careful(w, es[0]) && CarefulRun(Next(w, es[0]), es[1..]))
  }

  // Every id the cycle will mark has been given out.
  ghost predicate GivenOut(w: World) {
    w.cycle.Some? ==> forall id :: id in w.cycle.value.ids ==> id < NextRowId(w.s.rows)
  }

  // The next key is one above the highest, and at least one.
  lemma {:induction false} NextRowIdIs(rows: seq<Row>)
    ensures NextRowId(rows) >= 1
    ensures NextRowId(rows) == 1 || exists row :: row in rows && row.id + 1 == NextRowId(rows)
  {
    if rows != [] {
      var front, last := rows[..|rows| - 1], rows[|rows| - 1];
      assert rows == front + [last];
      NextRowIdIs(front);
    }
  }

  // Deleting a row below the highest does not give its key back.
  lemma DeleteKeepsNextKey(s: State, id: int)
    requires !IsHighest(s.rows, id)
    ensures NextRowId(s.rows) <= NextRowId(Deleted(s, id).rows)
  {
    var rows := Deleted(s, id).rows;
    BesidesMembers(s.rows, {id});
    NextRowIdIs(s.rows);
    NextRowIdIs(rows);
    if row :| row in s.rows && row.id + 1 == NextRowId(s.rows) {
      assert row.id in Ids(s.rows);
      assert row in rows;
    }
  }

  lemma CarefulStep(w: World, e: Event)
    requires FlushCycle.Allowed(w, e) && Careful(w, e) && GivenOut(w)
    ensures GivenOut(Next(w, e)) && !Reuses(w, e)
  {
    match e {
      case Traffic(op) =>
        if op.Delete? {
          if w.cycle.Some? {
            DeleteKeepsNextKey(w.s, op.target);
          }
        } else if op.ending == Commit {
          assert Next(w, e).s.rows[..|w.s.rows|] == w.s.rows;
        }
      case Begin(pairIds) =>
        SnapshotMembers(w.s, None);
      case End(verdict, now) =>
      case Restart =>
    }
  }

  lemma {:induction false} CarefulReusesNothing(w: World, es: seq<Event>)
    requires Legal(w, es) && CarefulRun(w, es) && GivenOut(w)
    ensures NoReuse(w, es)
    decreases |es|
  {
    if es != [] {
      CarefulStep(w, es[0]);
      CarefulReusesNothing(Next(w, es[0]), es[1..]);
    }
  }

  // With SQLite's keys, and with nobody deleting the row with the highest key during an
  // analysis, no pair is lost: it leaves the pending set only by deletion or after a
  // successful analysis, and nothing waits that was either.
  lemma ConservedWhenCareful(es: seq<Event>)
    requires Legal(START, es) && CarefulRun(START, es)
    ensures var w := Run(START, es);
            && w.swallowed == {}
            && (forall p :: p in w.captured <==> p in Waiting(w) || p in w.deleted || Analysed(w, p))
            && (forall p :: p in Waiting(w) ==> p !in w.deleted && !Analysed(w, p))
  {
    CarefulReusesNothing(START, es);
    RunKeepsWorld(START, es);
    SafeRun(START, es);
    PendingMembers(Run(START, es).s.rows);
  }

  lemma OneRow(row: Row)
    requires !row.flushed
    ensures Pending([row]) == [row] && Sorted([row]) == [row]
    ensures Among([row], {row.id}) == [row] && Besides([row], {row.id}) == []
  {
    assert [row][..0] == [];
    assert Pending([row]) == Pending([row][..0]) + [row];
    assert Sorted([row]) == Inserted(Sorted([row][..0]), row);
    AmongOne([row], row);
    BesidesAll([row], {row.id});
  }

  lemma RunStep(w: World, e: Event, es: seq<Event>)
    requires FlushCycle.Allowed(w, e) && Legal(Next(w, e), es)
    ensures Legal(w, [e] + es) && Run(w, [e] + es) == Run(Next(w, e), es)
  {
    assert ([e] + es)[1..] == es;
  }

  // Otherwise a pair can be lost: the last captured pair is deleted while the model
  // works, the next one takes over its key and is marked without being analysed.
  lemma ReuseSwallows(p: Pair, q: Pair, size: nat, now: int)
    requires p != q
    ensures var es := [Traffic(Add(p, size, 1, Commit))] + ([Begin(None)] + ([Traffic(Delete(1))]
                       + ([Traffic(Add(q, size, 1, Commit))] + ([End(true, now)] + []))));
            && NextRowId([]) == 1
            && Legal(START, es)
            && var w := Run(START, es);
               q in w.captured && q in w.swallowed && !Analysed(w, q) && q !in w.deleted
  {
    var r, r2 := Row(1, p, size, 0, false, None), Row(1, q, size, 1, false, None);
    OneRow(r);
    OneRow(r2);
    var e1, e2, e3 := Traffic(Add(p, size, 1, Commit)), Begin(None), Traffic(Delete(1));
    var e4, e5 := Traffic(Add(q, size, 1, Commit)), End(true, now);
    var w1 := World(State([r], size, Some(0)), None, {p}, {}, [], {});
    assert Next(START, e1) == w1;
    var w2 := w1.(cycle := Some(Cycle([r], {1})));
    assert r in [r] && Ids([r]) == {1};
    assert Next(w1, e2) == w2;
    var w3 := w2.(s := State([], 0, Some(0)), deleted := {p});
    ReuseDelete(w2, w3, r);
    var w4 := w3.(s := State([r2], size, Some(1)), captured := {p, q});
    assert Next(w3, e4) == w4;
    assert r2 in ToMark(w4) - StillThere(w4);
    var w5 := Next(w4, e5);
    assert w5.analysed == [Pairs([r])] && q in w5.swallowed;
    RunStep(w4, e5, []);
    RunStep(w3, e4, [e5] + []);
    RunStep(w2, e3, [e4] + ([e5] + []));
    RunStep(w1, e2, [e3] + ([e4] + ([e5] + [])));
    RunStep(START, e1, [e2] + ([e3] + ([e4] + ([e5] + []))));
  }

  lemma ReuseDelete(w: World, n: World, row: Row)
    requires w.s == State([row], row.size, Some(0)) && !row.flushed && w.deleted == {}
    requires n == w.(s := State([], 0, Some(0)), deleted := {row.pair})
    ensures Next(w, Traffic(Delete(row.id))) == n
  {
    OneRow(row);
    assert Total([row]) == Total([row][..0]) + row.size;
    assert Pairs([row]) == {row.pair};
  }
}
