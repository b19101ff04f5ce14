// The capture buffer as the program uses it: several store objects on one table, each
// with its own sequence cache (core/buffer/sqlalchemy_store.py). The pipeline keeps one
// for long; an import of captures makes another (core/routes/devices.py,
// core/pattern_db/buffer_manager.py).

module SharedBuffer {
  import opened Options
  import opened BufferStore
  import opened BufferAccounts

  type Store = nat

  // Rows and counter are in the database, the cached sequences in the stores. `last` is
  // the store that stored the newest row.
  datatype Table = Table(rows: seq<Row>, bytes: int, caches: map<Store, int>, last: Option<Store>)

  ghost const START := Table([], 0, map[], None)

  // What one store sees and changes.
  ghost function SeenBy(t: Table, store: Store): State {
    State(t.rows, t.bytes, if store in t.caches then Some(t.caches[store]) else None)
  }

  // A call of a store, or a new process in which all stores are new.
  datatype Event = Call(store: Store, op: Op) | Reboot

  ghost predicate Allowed(t: Table, e: Event) {
    e.Call? ==> BufferAccounts.Allowed(SeenBy(t, e.store), e.op)
  }

  ghost predicate Stores(e: Event) {
    e.Call? && e.op.Add? && e.op.ending == Commit
  }

  ghost function Next(t: Table, e: Event): Table {
    match e
    case Call(store, op) =>
      var s := Apply(SeenBy(t, store), op);
      Table(s.rows, s.bytes,
            if s.cached.Some? then t.caches[store := s.cached.value] else t.caches - {store},
            if Stores(e) then Some(store) else t.last)
    case Reboot => t.(caches := map[])
  }

  ghost predicate Legal(t: Table, es: seq<Event>)
    decreases |es|
  {
    es == [] || (Allowed(t, es[0]) && Legal(Next(t, es[0]), es[1..]))
  }

  ghost function Run(t: Table, es: seq<Event>): Table
    decreases |es|
  {
    if es == [] then t else Run(Next(t, es[0]), es[1..])
  }

  // --- The counter --------------------------------------------------------

  ghost predicate Balanced(t: Table) {
    t.bytes == Total(Pending(t.rows)) && DistinctIds(t.rows)
  }

  lemma CallKeepsBalance(t: Table, e: Event)
    requires Balanced(t) && Allowed(t, e)
    ensures Balanced(Next(t, e))
    ensures e.Call? ==> Subtracted(SeenBy(t, e.store), e.op) <= t.bytes
  {
    if e.Call? {
      ApplyKeeps(SeenBy(t, e.store), e.op);
    }
  }

  lemma {:induction false} RunKeepsBalance(t: Table, es: seq<Event>)
    requires Balanced(t) && Legal(t, es)
    ensures Balanced(Run(t, es))
    decreases |es|
  {
    if es != [] {
      CallKeepsBalance(t, es[0]);
      RunKeepsBalance(Next(t, es[0]), es[1..]);
    }
  }

  // From an empty table, with any number of stores, failures and restarts: the counter
  // equals the sizes pending, and the next call's subtraction needs no clamp.
  lemma AccountsStayRight(es: seq<Event>, next: Event)
    requires Legal(START, es) && Allowed(Run(START, es), next) && next.Call?
    ensures var t := Run(START, es);
            && t.bytes == Total(Pending(t.rows))
            && t.bytes - Subtracted(SeenBy(t, next.store), next.op) >= 0
  {
    RunKeepsBalance(START, es);
    CallKeepsBalance(Run(START, es), next);
  }

  // --- The order ----------------------------------------------------------

  // A store adds only while its cache is empty or no other store has stored a row since.
  ghost predicate TakesTurns(t: Table, e: Event) {
    e.Call? && e.op.Add? ==> e.store !in t.caches || t.last == None || t.last == Some(e.store)
  }

  ghost predicate TurnsTaken(t: Table, es: seq<Event>)
    decreases |es|
  {
    es == [] || (TakesTurns(t, es[0]) && TurnsTaken(Next(t, es[0]), es[1..]))
  }

  ghost predicate InTurn(t: Table, store: Store) {
    t.last == None || t.last == Some(store)
  }

  // The table is in order, and the store whose turn it is knows its end.
  ghost predicate OrderInv(t: Table) {
    && Increasing(t.rows)
    && forall i :: i in t.caches && InTurn(t, i) ==> CachedIsAbove(SeenBy(t, i))
  }

  lemma AddInTurn(t: Table, e: Event)
    requires OrderInv(t) && e.Call? && e.op.Add? && TakesTurns(t, e)
    ensures OrderInv(Next(t, e))
  {
    var s, n := SeenBy(t, e.store), Next(t, e);
    AddKeepsOrderExactly(s, e.op.pair, e.op.size, e.op.id, e.op.ending);
    if e.op.ending != Commit {
      assert n.rows == t.rows;
      assert forall i :: i in n.caches && i != e.store ==> SeenBy(n, i) == SeenBy(t, i);
      assert e.store in n.caches ==> SeenBy(n, e.store) == Apply(s, e.op);
    } else {
      assert SeenBy(n, e.store) == Apply(s, e.op);
    }
  }

  lemma OthersInTurn(t: Table, e: Event)
    requires OrderInv(t) && e.Call? && !e.op.Add?
    ensures OrderInv(Next(t, e))
  {
    var n := Next(t, e);
    OthersKeepOrder(SeenBy(t, e.store), e.op, 0);
    forall i | i in n.caches && InTurn(n, i)
      ensures CachedIsAbove(SeenBy(n, i))
    {
      assert i in t.caches && n.caches[i] == t.caches[i];
      OthersKeepOrder(SeenBy(t, e.store), e.op, t.caches[i]);
      assert CachedIsAbove(SeenBy(t, i));
    }
  }

  lemma {:induction false} RunKeepsOrder(t: Table, es: seq<Event>)
    requires OrderInv(t) && TurnsTaken(t, es)
    ensures OrderInv(Run(t, es))
    decreases |es|
  {
    if es != [] {
      if es[0].Call? {
        if es[0].op.Add? { AddInTurn(t, es[0]); } else { OthersInTurn(t, es[0]); }
      }
      RunKeepsOrder(Next(t, es[0]), es[1..]);
    }
  }

  // The next row the store adds is numbered above the table.
  ghost predicate NumbersAbove(t: Table, store: Store) {
    forall row :: row in t.rows ==> row.sequence < NextSequence(SeenBy(t, store))
  }

  // As long as no store adds on a cache that another store has overtaken: sequences
  // follow insertion order, every store reads the queue in the order of arrival, and
  // the next row of a store in turn is numbered above the table.
  lemma {:induction false} OrderStaysRight(es: seq<Event>, store: Store)
    requires TurnsTaken(START, es)
    ensures var t := Run(START, es);
            && Increasing(t.rows)
            && BufferPairs(SeenBy(t, store)) == Pending(t.rows)
            && (store !in t.caches || InTurn(t, store) ==> NumbersAbove(t, store))
  {
    RunKeepsOrder(START, es);
    var t := Run(START, es);
    ReadInArrivalOrder(SeenBy(t, store));
    NextIsAboveExactly(SeenBy(t, store));
  }

  // Out of turn, a store with a cache keeps the order exactly when that cache is not
  // behind the table all the same.
  lemma OutOfTurnExactly(t: Table, e: Event)
    requires OrderInv(t) && Stores(e)
    ensures Increasing(Next(t, e).rows) <==> CachedIsAbove(SeenBy(t, e.store))
    ensures TakesTurns(t, e) ==> CachedIsAbove(SeenBy(t, e.store))
  {
    AddKeepsOrderExactly(SeenBy(t, e.store), e.op.pair, e.op.size, e.op.id, Commit);
  }

  // --- Two stores adding --------------------------------------------------

  lemma AddsRow(t: Table, store: Store, pair: Pair, id: int, sequence: int) returns (n: Table, row: Row)
    requires id !in Ids(t.rows) && NextSequence(SeenBy(t, store)) == sequence
    ensures var e := Call(store, Add(pair, 1, id, Commit));
            Allowed(t, e) && n == Next(t, e)
    ensures row == Row(id, pair, 1, sequence, false, None)
    ensures n == Table(t.rows + [row], t.bytes + 1, t.caches[store := sequence], Some(store))
  {
    row := NewRow(SeenBy(t, store), pair, 1, id);
    n := Next(t, Call(store, Add(pair, 1, id, Commit)));
  }

  lemma NewStoreNext(t: Table, row: Row)
    requires t.rows == [row] && 1 !in t.caches
    ensures NextSequence(SeenBy(t, 1)) == row.sequence + 1
  {
  }

  lemma {:induction false} AllPending(rows: seq<Row>)
    requires forall row :: row in rows ==> !row.flushed
    ensures Pending(rows) == rows
  {
    if rows != [] {
      var front, last := rows[..|rows| - 1], rows[|rows| - 1];
      assert rows == front + [last];
      AllPending(front);
      PendingOfLast(front, last);
    }
  }

  // Three rows in order and one that takes the second's number.
  lemma ReadOut(a: Row, b: Row, c: Row, d: Row)
    requires a.sequence == 0 && b.sequence == 1 && c.sequence == 2 && d.sequence == 1
    ensures Sorted([a, b, c] + [d]) == [a, b] + [d] + [c]
  {
    var rows := [a, b, c];
    SortedIsArrival(rows);
    assert (rows + [d])[..3] == rows && (rows + [d])[3] == d;
    assert rows == [a, b] + [c];
    InsertedBefore([a, b], c, d);
    InsertedLast([a, b], d);
  }

  lemma FourAdds(p: Pair, q1: Pair, q2: Pair, r: Pair)
    returns (t1: Table, t2: Table, t3: Table, t4: Table, a: Row, b: Row, c: Row, d: Row)
    ensures Allowed(START, Call(0, Add(p, 1, 1, Commit))) && t1 == Next(START, Call(0, Add(p, 1, 1, Commit)))
    ensures Allowed(t1, Call(1, Add(q1, 1, 2, Commit))) && t2 == Next(t1, Call(1, Add(q1, 1, 2, Commit)))
    ensures Allowed(t2, Call(1, Add(q2, 1, 3, Commit))) && t3 == Next(t2, Call(1, Add(q2, 1, 3, Commit)))
    ensures Allowed(t3, Call(0, Add(r, 1, 4, Commit))) && t4 == Next(t3, Call(0, Add(r, 1, 4, Commit)))
    ensures t4.rows == [a, b, c, d] && d.pair == r && c.pair == q2
    ensures a.sequence == 0 && b.sequence == 1 && c.sequence == 2 && d.sequence == 1
    ensures !a.flushed && !b.flushed && !c.flushed && !d.flushed
  {
    t1, a := AddsRow(START, 0, p, 1, 0);
    assert t1.rows == [a];
    NewStoreNext(t1, a);
    t2, b := AddsRow(t1, 1, q1, 2, 1);
    assert t2.rows == [a, b];
    t3, c := AddsRow(t2, 1, q2, 3, 2);
    assert t3.rows == [a, b, c];
    t4, d := AddsRow(t3, 0, r, 4, 1);
    assert t4.rows == [a, b, c, d];
  }

  // The pipeline captures, an import brings two pairs, the pipeline captures again: its
  // pair takes the number of the first import and is read before the second.
  lemma SecondStoreDisorders(p: Pair, q1: Pair, q2: Pair, r: Pair)
    returns (t1: Table, t2: Table, t3: Table, t4: Table, rows: seq<Row>)
    ensures Allowed(START, Call(0, Add(p, 1, 1, Commit))) && t1 == Next(START, Call(0, Add(p, 1, 1, Commit)))
    ensures Allowed(t1, Call(1, Add(q1, 1, 2, Commit))) && t2 == Next(t1, Call(1, Add(q1, 1, 2, Commit)))
    ensures Allowed(t2, Call(1, Add(q2, 1, 3, Commit))) && t3 == Next(t2, Call(1, Add(q2, 1, 3, Commit)))
    ensures Allowed(t3, Call(0, Add(r, 1, 4, Commit))) && t4 == Next(t3, Call(0, Add(r, 1, 4, Commit)))
    ensures |rows| == 4 && t4.rows == rows && rows[3].pair == r && rows[2].pair == q2
    ensures rows[3].sequence == rows[1].sequence && !DistinctSequences(rows) && !Increasing(rows)
    ensures BufferPairs(SeenBy(t4, 0)) == [rows[0], rows[1], rows[3], rows[2]]
  {
    var a, b, c, d;
    t1, t2, t3, t4, a, b, c, d := FourAdds(p, q1, q2, r);
    rows := [a, b, c, d];
    assert rows == [a, b, c] + [d] && [a, b] + [d] + [c] == [a, b, d, c];
    AllPending(rows);
    ReadOut(a, b, c, d);
    assert rows[1].sequence == rows[3].sequence;
  }
}
