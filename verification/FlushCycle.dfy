// The learning flush (LearningPipeline._run_flush in core/pipeline.py): a snapshot
// of the pending pairs, a long analysis during which the buffer keeps changing,
// then the marking of what was analysed.

module FlushCycle {
  import opened Options
  import opened BufferStore

  // The snapshot a cycle analyses: everything pending, or the chosen part of it.
  function Snapshot(s: State, pairIds: Option<set<int>>): seq<Row> {
    if pairIds.Some? then Among(BufferPairs(s), pairIds.value) else BufferPairs(s)
  }

  // The ids it marks afterwards: the ones given, or those of the snapshot.
  function MarkedIds(s: State, pairIds: Option<set<int>>): set<int> {
    if pairIds.Some? then pairIds.value else Ids(BufferPairs(s))
  }

  ghost predicate IsTraffic(op: Op) {
    op.Add? || op.Delete?
  }

  // What other tasks do to the buffer while the model works.
  method TrafficArrives(store: SqlAlchemyBufferStore, device: string, traffic: seq<Op>)
    requires forall op :: op in traffic ==> IsTraffic(op)
    modifies store
    ensures store.View(device) == States(old(store.View(device)), traffic)
    ensures forall d :: d != device ==> store.View(d) == old(store.View(d))
  {
    ghost var s0 := store.View(device);
    var i := 0;
    while i < |traffic|
      invariant 0 <= i <= |traffic|
      invariant States(store.View(device), traffic[i..]) == States(s0, traffic)
      invariant forall d :: d != device ==> store.View(d) == old(store.View(d))
    {
      assert IsTraffic(traffic[i]);
      assert traffic[i..][1..] == traffic[i + 1..];
      match traffic[i] {
        case Add(pair, size, id, ending) =>
          var _ := store.AddPair(device, pair, size, id, ending);
        case Delete(id) =>
          var _ := store.DeleteEntry(device, id);
        case _ =>
          assert false;
      }
      i := i + 1;
    }
  }

  // One flush under the device's flush lock. `traffic` is what other tasks do to
  // the buffer while the model works; `verdict` is whether an analysis came back
  // and was saved.
  method RunFlush(
    store: SqlAlchemyBufferStore, device: string, pairIds: Option<set<int>>, known: bool,
    traffic: seq<Op>, verdict: bool, now: int)
    returns (success: bool, pairsCount: nat)
    requires forall op :: op in traffic ==> IsTraffic(op)
    modifies store
    ensures var s := old(store.View(device));
            var started := Snapshot(s, pairIds) != [] && known;
            && (success <==> started && verdict)
            && pairsCount == (if started then |Snapshot(s, pairIds)| else 0)
            && store.View(device) ==
               if !started then s
               else if !verdict then States(s, traffic)
               else FlushedSelected(States(s, traffic), MarkedIds(s, pairIds), now)
    ensures forall d :: d != device ==> store.View(d) == old(store.View(d))
  {
    var all := store.GetBufferPairs(device);
    if all == [] {
      return false, 0;
    }
    var pairs := if pairIds.Some? then Among(all, pairIds.value) else all;
    if pairs == [] || !known {
      return false, 0;
    }
    TrafficArrives(store, device, traffic);
    pairsCount := |pairs|;
    success := verdict;
    if verdict {
      var ids := if pairIds.Some? then pairIds.value else Ids(all);
      var _ := store.FlushSelected(device, ids, now);
    }
  }

  // --- Runs ---------------------------------------------------------------

  // A running cycle: what it analyses and what it will mark.
  datatype Cycle = Cycle(snapshot: seq<Row>, ids: set<int>)

  datatype Event =
    | Traffic(op: Op)
    | Begin(pairIds: Option<set<int>>)
    | End(verdict: bool, now: int)
    | Restart

  // The store of a device, the running cycle and what became of the pairs captured:
  // `analysed` has one entry per successful cycle, `swallowed` holds the pairs marked
  // flushed without having been in the snapshot.
  datatype World = World(
    s: State, cycle: Option<Cycle>, captured: set<Pair>, deleted: set<Pair>,
    analysed: seq<set<Pair>>, swallowed: set<Pair>)

  ghost const START := World(EMPTY, None, {}, {}, [], {})

  ghost function Pairs(rows: seq<Row>): set<Pair> {
    set row | row in rows :: row.pair
  }

  // Pairs are captured once, the database keeps primary keys unique, and the flush
  // lock admits one cycle at a time.
  ghost predicate Allowed(w: World, e: Event) {
    match e
    case Traffic(op) =>
      IsTraffic(op) && (op.Add? && op.ending == Commit ==> op.id !in Ids(w.s.rows) && op.pair !in w.captured)
    case Begin(pairIds) => w.cycle == None && Snapshot(w.s, pairIds) != []
    case End(_, _) => w.cycle.Some?
    case Restart => true
  }

  // The pending rows a successful end would mark.
  ghost function ToMark(w: World): set<Row>
    requires w.cycle.Some?
  {
    set row | row in Pending(w.s.rows) && row.id in w.cycle.value.ids
  }

  // The pending rows that were in the snapshot.
  ghost function StillThere(w: World): set<Row>
    requires w.cycle.Some?
  {
    set row | row in Pending(w.s.rows) && row in w.cycle.value.snapshot
  }

  ghost function Next(w: World, e: Event): World
    requires Allowed(w, e)
  {
    match e
    case Traffic(op) =>
      var n := w.(s := Apply(w.s, op));
      if op.Delete? then n.(deleted := w.deleted + Pairs(Among(w.s.rows, {op.target})))
      else if op.ending == Commit then n.(captured := w.captured + {op.pair})
      else n
    case Begin(pairIds) => w.(cycle := Some(Cycle(Snapshot(w.s, pairIds), MarkedIds(w.s, pairIds))))
    case End(verdict, now) =>
      if !verdict then w.(cycle := None)
      else
        var c := w.cycle.value;
        w.(s := FlushedSelected(w.s, c.ids, now), cycle := None,
           analysed := w.analysed + [Pairs(c.snapshot)],
           swallowed := w.swallowed + set row | row in ToMark(w) - StillThere(w) :: row.pair)
    case Restart => w.(s := w.s.(cached := None), cycle := None)
  }

  ghost predicate Legal(w: World, es: seq<Event>)
    decreases |es|
  {
    es == [] || (Allowed(w, es[0]) && Legal(Next(w, es[0]), es[1..]))
  }

  ghost function Run(w: World, es: seq<Event>): World
    requires Legal(w, es)
    decreases |es|
  {
    if es == [] then w else Run(Next(w, es[0]), es[1..])
  }

  ghost predicate Analysed(w: World, p: Pair) {
    exists i :: 0 <= i < |w.analysed| && p in w.analysed[i]
  }

  ghost predicate DistinctPairs(rows: seq<Row>) {
    forall i, j :: 0 <= i < j < |rows| ==> rows[i].pair != rows[j].pair
  }

  ghost predicate RowsInv(w: World) {
    && DistinctPairs(w.s.rows)
    && Pairs(w.s.rows) <= w.captured
    && (forall row :: row in w.s.rows && !row.flushed ==>
          row.pair !in w.deleted && row.pair !in w.swallowed && !Analysed(w, row.pair))
    && w.deleted <= w.captured && w.swallowed <= w.captured
    && (forall p :: Analysed(w, p) ==> p in w.captured)
  }

  // Where every captured pair is.
  ghost predicate Accounted(w: World) {
    forall p :: p in w.captured ==>
      p in Pairs(Pending(w.s.rows)) || p in w.deleted || Analysed(w, p) || p in w.swallowed
  }

  ghost predicate CycleInv(w: World) {
    w.cycle.Some? ==>
      forall row :: row in w.cycle.value.snapshot ==>
        && !row.flushed && row.id in w.cycle.value.ids
        && row.pair in w.captured && !Analysed(w, row.pair) && row.pair !in w.swallowed
        && (row in w.s.rows || row.pair in w.deleted)
        && (forall r :: r in w.s.rows && r.pair == row.pair ==> r == row)
  }

  ghost predicate OnceOnly(w: World) {
    forall i, j :: 0 <= i < j < |w.analysed| ==> w.analysed[i] !! w.analysed[j]
  }

  ghost predicate Inv(w: World) {
    RowsInv(w) && Accounted(w) && CycleInv(w) && OnceOnly(w)
  }

  // --- Every step keeps the account ---------------------------------------

  lemma SnapshotMembers(s: State, pairIds: Option<set<int>>)
    ensures forall row :: row in Snapshot(s, pairIds) ==>
              row in s.rows && !row.flushed && row.id in MarkedIds(s, pairIds)
    ensures pairIds.None? ==> forall row :: row in s.rows && !row.flushed ==> row in Snapshot(s, pairIds)
  {
    SortedMembers(Pending(s.rows));
    PendingMembers(s.rows);
    if pairIds.Some? {
      AmongMembers(BufferPairs(s), pairIds.value);
    }
  }

  lemma AddKeepsWorld(w: World, e: Event)
    requires Inv(w) && Allowed(w, e) && e.Traffic? && e.op.Add?
    ensures Inv(Next(w, e))
  {
    var n := Next(w, e);
    assert forall p :: Analysed(n, p) <==> Analysed(w, p);
    if e.op.ending == Commit {
      var row := n.s.rows[|w.s.rows|];
      AppendPending(w.s.rows, row);
      forall i | 0 <= i < |w.s.rows|
        ensures w.s.rows[i].pair != row.pair
      {
        assert w.s.rows[i] in w.s.rows;
        assert w.s.rows[i].pair in Pairs(w.s.rows);
      }
      PairsAppend(Pending(w.s.rows), row);
      PairsAppend(w.s.rows, row);
    }
  }

  lemma PairsAppend(rows: seq<Row>, row: Row)
    ensures Pairs(rows + [row]) == Pairs(rows) + {row.pair}
  {
    assert forall r :: r in rows + [row] <==> r in rows || r == row;
  }

  lemma SamePair(rows: seq<Row>, r: Row, q: Row)
    requires DistinctPairs(rows) && r in rows && q in rows && r.pair == q.pair
    ensures r == q
  {
    var i, j :| 0 <= i < |rows| && 0 <= j < |rows| && rows[i] == r && rows[j] == q;
  }

  lemma {:induction false} BesidesPairs(rows: seq<Row>, ids: set<int>)
    requires DistinctPairs(rows)
    ensures DistinctPairs(Besides(rows, ids))
  {
    if rows != [] {
      var front := rows[..|rows| - 1];
      BesidesPairs(front, ids);
      BesidesMembers(front, ids);
      forall i | 0 <= i < |Besides(front, ids)|
        ensures Besides(front, ids)[i] in front
      {
      }
    }
  }

  // What a deletion leaves of the table.
  lemma DeleteRows(w: World, id: int)
    requires RowsInv(w)
    ensures var rows, gone := Deleted(w.s, id).rows, Among(w.s.rows, {id});
            && (forall row :: row in rows <==> row in w.s.rows && row.id != id)
            && (forall row :: row in gone <==> row in w.s.rows && row.id == id)
            && (forall row, r :: row in rows && r in gone ==> r.pair != row.pair)
            && DistinctPairs(rows)
  {
    var gone := Among(w.s.rows, {id});
    AmongMembers(w.s.rows, {id});
    BesidesMembers(w.s.rows, {id});
    BesidesPairs(w.s.rows, {id});
    assert gone == [] ==> forall row :: row in w.s.rows && row.id == id ==> row in gone;
    forall row, r | row in Deleted(w.s, id).rows && r in gone
      ensures r.pair != row.pair
    {
      if r.pair == row.pair {
        SamePair(w.s.rows, r, row);
      }
    }
  }

  lemma DeleteKeepsWorld(w: World, e: Event)
    requires Inv(w) && Allowed(w, e) && e.Traffic? && e.op.Delete?
    ensures Inv(Next(w, e))
  {
    var n := Next(w, e);
    assert forall p :: Analysed(n, p) <==> Analysed(w, p);
    DeleteRows(w, e.op.target);
    DeleteAccounted(w, e.op.target, n);
    DeleteCycle(w, e.op.target, n);
  }

  lemma DeleteAccounted(w: World, id: int, n: World)
    requires RowsInv(w) && Accounted(w)
    requires n == w.(s := Deleted(w.s, id), deleted := w.deleted + Pairs(Among(w.s.rows, {id})))
    ensures Accounted(n)
  {
    DeleteRows(w, id);
    PendingMembers(w.s.rows);
    PendingMembers(n.s.rows);
    assert forall p :: Analysed(n, p) <==> Analysed(w, p);
    forall p | p in n.captured && p in Pairs(Pending(w.s.rows))
      ensures p in Pairs(Pending(n.s.rows)) || p in n.deleted
    {
      var row :| row in Pending(w.s.rows) && row.pair == p;
      assert row.id == id ==> row in Among(w.s.rows, {id});
      assert row.id != id ==> row in Pending(n.s.rows);
    }
  }

  lemma DeleteCycle(w: World, id: int, n: World)
    requires RowsInv(w) && CycleInv(w)
    requires n == w.(s := Deleted(w.s, id), deleted := w.deleted + Pairs(Among(w.s.rows, {id})))
    ensures CycleInv(n)
  {
    DeleteRows(w, id);
    assert forall p :: Analysed(n, p) <==> Analysed(w, p);
    if n.cycle.Some? {
      forall row | row in n.cycle.value.snapshot
        ensures row in n.s.rows || row.pair in n.deleted
      {
        assert row in w.s.rows && row.id == id ==> row in Among(w.s.rows, {id});
      }
    }
  }

  lemma BeginKeepsWorld(w: World, e: Event)
    requires Inv(w) && Allowed(w, e) && e.Begin?
    ensures Inv(Next(w, e))
  {
    var n := Next(w, e);
    assert forall p :: Analysed(n, p) <==> Analysed(w, p);
    SnapshotMembers(w.s, e.pairIds);
    forall row | row in n.cycle.value.snapshot
      ensures row.pair in w.captured && row.pair !in w.swallowed && !Analysed(w, row.pair)
      ensures forall r :: r in w.s.rows && r.pair == row.pair ==> r == row
    {
      assert row in w.s.rows && row.pair in Pairs(w.s.rows);
      forall r | r in w.s.rows && r.pair == row.pair
        ensures r == row
      {
        SamePair(w.s.rows, r, row);
      }
    }
  }

  // One successful cycle more analyses exactly its snapshot.
  lemma AnalysedAfter(w: World, n: World, more: set<Pair>)
    requires n.analysed == w.analysed + [more]
    ensures forall p :: Analysed(n, p) <==> Analysed(w, p) || p in more
  {
    forall p | Analysed(w, p)
      ensures Analysed(n, p)
    {
      var i :| 0 <= i < |w.analysed| && p in w.analysed[i];
      assert n.analysed[i] == w.analysed[i];
    }
    assert n.analysed[|w.analysed|] == more;
  }

  // What a row of the marked table was before.
  lemma MarkedFrom(rows: seq<Row>, ids: set<int>, now: int, row: Row) returns (r: Row)
    requires row in Marked(rows, ids, now)
    ensures r in rows && r.pair == row.pair
    ensures !row.flushed ==> r == row && row.id !in ids
  {
    var i :| 0 <= i < |rows| && Marked(rows, ids, now)[i] == row;
    r := rows[i];
  }

  lemma EndRows(w: World, e: Event)
    requires Inv(w) && Allowed(w, e) && e.End? && e.verdict
    ensures var n := Next(w, e);
            && DistinctPairs(n.s.rows) && Pairs(n.s.rows) <= w.captured
            && (forall row :: row in n.s.rows && !row.flushed ==> row in w.s.rows && row.id !in w.cycle.value.ids)
            && (forall row :: row in w.s.rows && !row.flushed && row.id !in w.cycle.value.ids ==> row in n.s.rows)
  {
    var n, ids := Next(w, e), w.cycle.value.ids;
    if ids != {} {
      assert n.s.rows == Marked(w.s.rows, ids, e.now);
      forall row | row in n.s.rows
        ensures row.pair in w.captured
        ensures !row.flushed ==> row in w.s.rows && row.id !in ids
      {
        var r := MarkedFrom(w.s.rows, ids, e.now, row);
        assert r.pair in Pairs(w.s.rows);
      }
      forall row | row in w.s.rows && !row.flushed && row.id !in ids
        ensures row in n.s.rows
      {
        var i :| 0 <= i < |w.s.rows| && w.s.rows[i] == row;
        assert n.s.rows[i] == row;
      }
    }
  }

  lemma EndKeepsWorld(w: World, e: Event)
    requires Inv(w) && Allowed(w, e) && e.End?
    ensures Inv(Next(w, e))
  {
    var n := Next(w, e);
    if !e.verdict {
      assert forall p :: Analysed(n, p) <==> Analysed(w, p);
    } else {
      var c := w.cycle.value;
      AnalysedAfter(w, n, Pairs(c.snapshot));
      EndRows(w, e);
      PendingMembers(w.s.rows);
      PendingMembers(n.s.rows);
      EndRowsInv(w, e);
      EndAccounted(w, e);
      forall i | 0 <= i < |w.analysed|
        ensures w.analysed[i] !! Pairs(c.snapshot)
      {
        forall p | p in w.analysed[i] && p in Pairs(c.snapshot)
          ensures false
        {
          assert Analysed(w, p);
        }
      }
    }
  }

  lemma EndRowsInv(w: World, e: Event)
    requires Inv(w) && Allowed(w, e) && e.End? && e.verdict
    ensures RowsInv(Next(w, e))
  {
    var n, c := Next(w, e), w.cycle.value;
    AnalysedAfter(w, n, Pairs(c.snapshot));
    EndRows(w, e);
    PendingMembers(w.s.rows);
    forall row | row in n.s.rows && !row.flushed
      ensures row.pair !in n.swallowed && row.pair !in Pairs(c.snapshot)
    {
      assert forall r :: r in c.snapshot ==> r.pair != row.pair;
      if q :| q in ToMark(w) && q.pair == row.pair {
        SamePair(w.s.rows, q, row);
      }
    }
    forall p | p in n.swallowed
      ensures p in n.captured
    {
      if q :| q in ToMark(w) && q.pair == p {
        assert q in w.s.rows && q.pair in Pairs(w.s.rows);
      }
    }
  }

  lemma EndAccounted(w: World, e: Event)
    requires Inv(w) && Allowed(w, e) && e.End? && e.verdict
    ensures Accounted(Next(w, e))
  {
    var n, c := Next(w, e), w.cycle.value;
    AnalysedAfter(w, n, Pairs(c.snapshot));
    EndRows(w, e);
    PendingMembers(w.s.rows);
    PendingMembers(n.s.rows);
    forall p | p in n.captured && p in Pairs(Pending(w.s.rows))
      ensures p in Pairs(Pending(n.s.rows)) || Analysed(n, p) || p in n.swallowed
    {
      var row :| row in Pending(w.s.rows) && row.pair == p;
      if row.id !in c.ids {
        assert row in Pending(n.s.rows);
      } else if row in c.snapshot {
        assert p in Pairs(c.snapshot);
      } else {
        assert row in ToMark(w) - StillThere(w);
      }
    }
  }

  lemma StepKeeps(w: World, e: Event)
    requires Inv(w) && Allowed(w, e)
    ensures Inv(Next(w, e))
  {
    match e {
      case Traffic(op) => if op.Add? { AddKeepsWorld(w, e); } else { DeleteKeepsWorld(w, e); }
      case Begin(_) => BeginKeepsWorld(w, e);
      case End(_, _) => EndKeepsWorld(w, e);
      case Restart => assert forall p :: Analysed(Next(w, e), p) <==> Analysed(w, p);
    }
  }

  lemma {:induction false} RunKeepsWorld(w: World, es: seq<Event>)
    requires Inv(w) && Legal(w, es)
    ensures Inv(Run(w, es))
    decreases |es|
  {
    if es != [] {
      StepKeeps(w, es[0]);
      RunKeepsWorld(Next(w, es[0]), es[1..]);
    }
  }

  // In every run, with any traffic between the two halves of a flush: no pair is in
  // two successful analyses, and every pair captured is still pending, was deleted,
  // was analysed or was swallowed; what is pending was none of these.
  lemma NothingLostOrRepeated(es: seq<Event>)
    requires Legal(START, es)
    ensures var w := Run(START, es);
            && OnceOnly(w)
            && (forall p :: p in w.captured ==>
                  p in Pairs(Pending(w.s.rows)) || p in w.deleted || Analysed(w, p) || p in w.swallowed)
            && (forall p :: p in Pairs(Pending(w.s.rows)) ==> p !in w.deleted && !Analysed(w, p) && p !in w.swallowed)
  {
    RunKeepsWorld(START, es);
    PendingMembers(Run(START, es).s.rows);
  }

  // --- When a cycle swallows a pair ---------------------------------------

  // A successful cycle marks what is left of its snapshot; it marks exactly that,
  // and swallows nothing, exactly when no other pending row carries an id it marks.
  lemma EndMarksExactly(w: World, now: int)
    requires Inv(w) && w.cycle.Some?
    ensures var n := Next(w, End(true, now));
            && StillThere(w) <= ToMark(w)
            && (forall row :: row in w.s.rows && !row.flushed ==> (row !in n.s.rows <==> row in ToMark(w)))
            && (ToMark(w) == StillThere(w) <==>
                forall row :: row in Pending(w.s.rows) && row.id in w.cycle.value.ids ==> row in w.cycle.value.snapshot)
            && (ToMark(w) == StillThere(w) <==> n.swallowed == w.swallowed)
  {
    var n := Next(w, End(true, now));
    EndRows(w, End(true, now));
    PendingMembers(w.s.rows);
    forall row | row in w.s.rows && !row.flushed
      ensures row !in n.s.rows <==> row in ToMark(w)
    {
      assert row in Pending(w.s.rows);
    }
    if row :| row in ToMark(w) - StillThere(w) {
      assert row.pair in n.swallowed && row.pair !in w.swallowed;
      assert row in Pending(w.s.rows) && row !in w.cycle.value.snapshot;
    }
  }

  // --- A failed cycle -----------------------------------------------------

  ghost predicate OnlyTraffic(es: seq<Event>) {
    forall e :: e in es ==> e.Traffic?
  }

  // The pairs waiting to be analysed.
  ghost function Waiting(w: World): set<Pair> {
    Pairs(Pending(w.s.rows))
  }

  // What traffic makes of the queue: the pairs captured come in, the pairs deleted
  // go out.
  ghost predicate QueueMoved(w: World, n: World) {
    && w.captured <= n.captured && w.deleted <= n.deleted
    && Waiting(n) == Waiting(w) + (n.captured - w.captured) - n.deleted
    && n.cycle == w.cycle && n.analysed == w.analysed && n.swallowed == w.swallowed
  }

  // What waits was not deleted.
  lemma WaitingNotDeleted(w: World)
    requires RowsInv(w)
    ensures Waiting(w) !! w.deleted
  {
    PendingMembers(w.s.rows);
  }

  lemma StoredWaits(w: World, row: Row)
    requires !row.flushed
    ensures Pairs(Pending(w.s.rows + [row])) == Waiting(w) + {row.pair}
  {
    AppendPending(w.s.rows, row);
    PairsAppend(Pending(w.s.rows), row);
  }

  lemma AddMovesQueue(w: World, e: Event)
    requires RowsInv(w) && Allowed(w, e) && e.Traffic? && e.op.Add?
    ensures QueueMoved(w, Next(w, e))
  {
    var op, n := e.op, Next(w, e);
    WaitingNotDeleted(w);
    if op.ending == Commit {
      StoredWaits(w, NewRow(w.s, op.pair, op.size, op.id));
      assert n.captured - w.captured == {op.pair};
      assert op.pair !in w.deleted;
    } else {
      assert n.captured - w.captured == {};
      assert n.s.rows == w.s.rows;
    }
  }

  lemma DeletedWaits(w: World, id: int, p: Pair)
    requires RowsInv(w)
    ensures var gone := Pairs(Among(w.s.rows, {id}));
            p in Pairs(Pending(Deleted(w.s, id).rows)) <==> p in Waiting(w) && p !in gone
  {
    var rows := Deleted(w.s, id).rows;
    DeleteRows(w, id);
    PendingMembers(w.s.rows);
    PendingMembers(rows);
    if p in Waiting(w) && p !in Pairs(Among(w.s.rows, {id})) {
      var row :| row in Pending(w.s.rows) && row.pair == p;
      assert row.id == id ==> row in Among(w.s.rows, {id});
      assert row in Pending(rows);
    }
  }

  lemma DeleteMovesQueue(w: World, e: Event)
    requires RowsInv(w) && Allowed(w, e) && e.Traffic? && e.op.Delete?
    ensures QueueMoved(w, Next(w, e))
  {
    var n := Next(w, e);
    WaitingNotDeleted(w);
    assert n.captured - w.captured == {};
    forall p
      ensures p in Waiting(n) <==> p in Waiting(w) && p !in n.deleted
    {
      DeletedWaits(w, e.op.target, p);
    }
  }

  lemma {:induction false} TrafficMovesQueue(w: World, es: seq<Event>)
    requires Inv(w) && Legal(w, es) && OnlyTraffic(es)
    ensures Inv(Run(w, es)) && QueueMoved(w, Run(w, es))
    decreases |es|
  {
    if es == [] {
      WaitingNotDeleted(w);
      assert w.captured - w.captured == {};
    } else {
      var e, n := es[0], Next(w, es[0]);
      TrafficMovesOnce(w, e, es);
      TrafficMovesQueue(n, es[1..]);
    }
  }

  lemma TrafficMovesOnce(w: World, e: Event, es: seq<Event>)
    requires Inv(w) && OnlyTraffic(es) && es != [] && e == es[0] && Allowed(w, e)
    ensures Inv(Next(w, e)) && QueueMoved(w, Next(w, e)) && OnlyTraffic(es[1..])
  {
    assert e in es && forall d :: d in es[1..] ==> d in es;
    StepKeeps(w, e);
    if e.op.Add? { AddMovesQueue(w, e); } else { DeleteMovesQueue(w, e); }
  }

  // Begin, any traffic, failure: afterwards exactly the pairs wait that waited before
  // or came in meanwhile and were not deleted, and the next full snapshot has them all.
  lemma {:induction false} FailedCycleLosesNothing(w: World, pairIds: Option<set<int>>, es: seq<Event>, now: int)
    requires Inv(w) && OnlyTraffic(es)
    requires Allowed(w, Begin(pairIds)) && Legal(Next(w, Begin(pairIds)), es)
    ensures var m := Run(Next(w, Begin(pairIds)), es);
            && Allowed(m, End(false, now))
            && var n := Next(m, End(false, now));
               && Waiting(n) == Waiting(w) + (n.captured - w.captured) - n.deleted
               && Pairs(Snapshot(n.s, None)) == Waiting(n)
               && n.cycle == None && n.analysed == w.analysed && n.swallowed == w.swallowed
  {
    var b := Next(w, Begin(pairIds));
    StepKeeps(w, Begin(pairIds));
    TrafficMovesQueue(b, es);
    SortedMembers(Pending(Run(b, es).s.rows));
  }
}
