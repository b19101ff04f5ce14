// What every operation of the capture buffer (core/buffer/sqlalchemy_store.py) keeps: the
// byte counter, whoever calls; and the order of the queue, as long as the caller's
// sequence cache is not behind the table.

module BufferAccounts {
  import opened Options
  import opened BufferStore

  // The counter is the size of what is pending, and primary keys are unique.
  ghost predicate Accounts(s: State) {
    s.bytes == Total(Pending(s.rows)) && DistinctIds(s.rows)
  }

  // The cached sequence is not behind the table.
  ghost predicate CachedIsAbove(s: State) {
    s.cached.Some? ==> forall row :: row in s.rows ==> row.sequence <= s.cached.value
  }

  // Sequences follow insertion order, and the next one will.
  ghost predicate Ordered(s: State) {
    Increasing(s.rows) && CachedIsAbove(s)
  }

  ghost predicate DistinctSequences(rows: seq<Row>) {
    forall i, j :: 0 <= i < j < |rows| ==> rows[i].sequence != rows[j].sequence
  }

  // Pairs are read back in the order they arrived.
  lemma ReadInArrivalOrder(s: State)
    requires Increasing(s.rows)
    ensures BufferPairs(s) == Pending(s.rows)
  {
    PendingOrder(s.rows);
    SortedIsArrival(Pending(s.rows));
  }

  // --- Adding -------------------------------------------------------------

  lemma AppendIds(rows: seq<Row>, row: Row)
    requires DistinctIds(rows) && row.id !in Ids(rows)
    ensures DistinctIds(rows + [row])
  {
    forall i | 0 <= i < |rows|
      ensures rows[i].id != row.id
    {
      assert rows[i] in rows;
      assert rows[i].id in Ids(rows);
    }
  }

  // A stored pair is on the counter; a transaction that fails or is cancelled changes
  // neither rows nor counter.
  lemma AddKeeps(s: State, pair: Pair, size: nat, id: int, ending: Ending)
    requires Accounts(s) && (ending == Commit ==> id !in Ids(s.rows))
    ensures var n := Added(s, pair, size, id, ending);
            && Accounts(n)
            && n.bytes == s.bytes + (if ending == Commit then size else 0)
            && n.rows == s.rows + (if ending == Commit then [NewRow(s, pair, size, id)] else [])
  {
    assert s.rows + [] == s.rows;
    if ending == Commit {
      var row := NewRow(s, pair, size, id);
      AppendIds(s.rows, row);
      AppendPending(s.rows, row);
    }
  }

  // The number a new row gets: one above the cached one, or one above the highest in the
  // table, or zero.
  lemma NextSequenceExactly(s: State, n: int)
    ensures NextSequence(s) == n <==>
            if s.cached.Some? then n == s.cached.value + 1
            else if s.rows == [] then n == 0
            else
              && (exists row :: row in s.rows && row.sequence == n - 1)
              && forall row :: row in s.rows ==> row.sequence < n
  {
  }

  // What an add stores, and what number the next one gets: a cancelled transaction uses
  // its number up, after a failed one the table is asked again.
  lemma AddedExactly(s: State, pair: Pair, size: nat, id: int, ending: Ending)
    ensures var n := Added(s, pair, size, id, ending);
            && n.rows == s.rows + (if ending == Commit then [Row(id, pair, size, NextSequence(s), false, None)] else [])
            && n.bytes == s.bytes + (if ending == Commit then size else 0)
            && NextSequence(n) == (if ending == Fail then NextSequence(s.(cached := None)) else NextSequence(s) + 1)
  {
    assert s.rows + [] == s.rows;
  }

  // It is read last exactly when nothing that waits is numbered higher.
  lemma AddReadLastExactly(s: State, pair: Pair, size: nat, id: int)
    ensures BufferPairs(Added(s, pair, size, id, Commit)) == BufferPairs(s) + [NewRow(s, pair, size, id)] <==>
            forall row :: row in Pending(s.rows) ==> row.sequence <= NextSequence(s)
  {
    var row := NewRow(s, pair, size, id);
    AppendPending(s.rows, row);
    SortedLastExactly(Pending(s.rows), row);
  }

  lemma NextIsAboveExactly(s: State)
    ensures CachedIsAbove(s) <==> forall row :: row in s.rows ==> row.sequence < NextSequence(s)
  {
  }

  lemma AppendOrderExactly(rows: seq<Row>, row: Row)
    requires Increasing(rows)
    ensures Increasing(rows + [row]) <==> forall r :: r in rows ==> r.sequence < row.sequence
  {
    var more := rows + [row];
    if Increasing(more) {
      forall r | r in rows
        ensures r.sequence < row.sequence
      {
        var i :| 0 <= i < |rows| && rows[i] == r;
        assert more[i] == r && more[|rows|] == row;
      }
    }
    if forall r :: r in rows ==> r.sequence < row.sequence {
      forall i | 0 <= i < |rows|
        ensures rows[i].sequence < row.sequence
      {
        assert rows[i] in rows;
      }
    }
  }

  // An add keeps the order of the table exactly when the store's cache is empty or not
  // behind the table; then the cache is not behind afterwards either, however it ends.
  lemma AddKeepsOrderExactly(s: State, pair: Pair, size: nat, id: int, ending: Ending)
    requires Increasing(s.rows)
    ensures var n := Added(s, pair, size, id, ending);
            && (ending == Commit ==> (Increasing(n.rows) <==> CachedIsAbove(s)))
            && (CachedIsAbove(s) ==> Ordered(n))
  {
    NextIsAboveExactly(s);
    if ending == Commit {
      var row := NewRow(s, pair, size, id);
      AppendOrderExactly(s.rows, row);
      if CachedIsAbove(s) {
        AddedIsAbove(s, row);
      }
    }
  }

  lemma AddedIsAbove(s: State, row: Row)
    requires forall r :: r in s.rows ==> r.sequence < row.sequence
    ensures CachedIsAbove(State(s.rows + [row], s.bytes + row.size, Some(row.sequence)))
  {
    assert forall r :: r in s.rows + [row] ==> r in s.rows || r == row;
  }

  // It keeps sequences distinct exactly when the cache is empty or its successor free.
  lemma AddIsDistinctExactly(s: State, pair: Pair, size: nat, id: int)
    requires DistinctSequences(s.rows)
    ensures DistinctSequences(Added(s, pair, size, id, Commit).rows) <==>
            s.cached == None || forall row :: row in s.rows ==> row.sequence != s.cached.value + 1
  {
    var rows, row := s.rows, NewRow(s, pair, size, id);
    var more := rows + [row];
    forall r | r in rows && r.sequence == row.sequence
      ensures !DistinctSequences(more)
    {
      var i :| 0 <= i < |rows| && rows[i] == r;
      assert more[i] == r && more[|rows|] == row;
    }
    if forall r :: r in rows ==> r.sequence != row.sequence {
      forall i | 0 <= i < |rows|
        ensures rows[i].sequence != row.sequence
      {
        assert rows[i] in rows;
      }
      assert DistinctSequences(more);
    }
    if s.cached == None {
      NextIsAboveExactly(s);
    }
  }

  // --- Flushing -----------------------------------------------------------

  // A selective flush takes the chosen rows off the queue and off the counter; the
  // counter cannot run below zero.
  lemma FlushSelectedKeeps(s: State, ids: set<int>, now: int)
    requires Accounts(s)
    ensures var n := FlushedSelected(s, ids, now);
            && Accounts(n)
            && BufferPairs(n) == Besides(BufferPairs(s), ids)
            && n.bytes == s.bytes - Total(Among(BufferPairs(s), ids))
  {
    var pending := Pending(s.rows);
    SplitTotal(pending, ids);
    SortedBesides(pending, ids);
    ChosenTotal(pending, ids);
    if ids == {} {
      AmongNone(pending);
      BesidesNone(pending);
    } else {
      PendingAfterMark(s.rows, ids, now);
      MarkedRows(s.rows, ids, now);
    }
  }

  // Exactly the rows not yet flushed whose ids are given get marked, each with this time;
  // no other row and no number changes.
  lemma FlushStampsExactly(s: State, ids: set<int>, now: int)
    ensures var n := FlushedSelected(s, ids, now);
            && |n.rows| == |s.rows| && n.cached == s.cached
            && forall i :: 0 <= i < |s.rows| ==>
                 n.rows[i] == if !s.rows[i].flushed && s.rows[i].id in ids
                              then s.rows[i].(flushed := true, flushedAt := Some(now)) else s.rows[i]
  {
  }

  // A full flush does so with every row not yet flushed, and zeroes the counter.
  lemma FlushAllStampsExactly(s: State, now: int)
    ensures var n := FlushedAll(s, now);
            && |n.rows| == |s.rows| && n.cached == s.cached && n.bytes == 0
            && forall i :: 0 <= i < |s.rows| ==>
                 n.rows[i] == if s.rows[i].flushed then s.rows[i]
                              else s.rows[i].(flushed := true, flushedAt := Some(now))
  {
    forall i | 0 <= i < |s.rows|
      ensures s.rows[i].id in Ids(s.rows)
    {
      assert s.rows[i] in s.rows;
    }
  }

  // The size of the rows chosen, in the order read or in the order stored.
  lemma ChosenTotal(rows: seq<Row>, ids: set<int>)
    ensures Total(Among(Sorted(rows), ids)) == Total(Among(rows, ids))
  {
    SplitTotal(rows, ids);
    SplitTotal(Sorted(rows), ids);
    SortedBesides(rows, ids);
    SortedTotal(rows);
    SortedTotal(Besides(rows, ids));
  }

  lemma MarkedRows(rows: seq<Row>, ids: set<int>, now: int)
    ensures DistinctIds(rows) ==> DistinctIds(Marked(rows, ids, now))
    ensures Increasing(rows) ==> Increasing(Marked(rows, ids, now))
  {
  }

  // A full flush leaves nothing pending.
  lemma FlushKeeps(s: State, now: int)
    ensures BufferPairs(FlushedAll(s, now)) == []
    ensures Accounts(s) ==> Accounts(FlushedAll(s, now))
  {
    PendingAfterMark(s.rows, Ids(s.rows), now);
    PendingMembers(s.rows);
    BesidesAll(Pending(s.rows), Ids(s.rows));
    MarkedRows(s.rows, Ids(s.rows), now);
  }

  // --- Deleting -----------------------------------------------------------

  // Deleting an entry takes exactly that entry off the queue. The counter stays
  // right exactly when the entry was pending, was empty, or nothing was pending:
  // deleting a flushed row subtracts its size a second time.
  lemma DeleteKeepsExactly(s: State, row: Row)
    requires Accounts(s) && row in s.rows
    ensures var n := Deleted(s, row.id);
            && BufferPairs(n) == Besides(BufferPairs(s), {row.id})
            && (forall r :: r in n.rows <==> r in s.rows && r.id != row.id)
            && (Accounts(n) <==> !row.flushed || row.size == 0 || s.bytes == 0)
  {
    DeletedRows(s, row);
    PendingAfterDelete(s.rows, {row.id});
    SortedBesides(Pending(s.rows), {row.id});
    DeletedCounter(s, row);
  }

  // It subtracts the size of the entry, whatever the counter was, and never below zero.
  lemma DeletedBytesExactly(s: State, row: Row)
    requires DistinctIds(s.rows) && row in s.rows
    ensures var n := Deleted(s, row.id);
            n.bytes == (if row.size <= s.bytes then s.bytes - row.size else 0) && n.cached == s.cached
  {
    AmongOne(s.rows, row);
  }

  // An id nobody has changes nothing.
  lemma DeletedNothing(s: State, id: int)
    requires id !in Ids(s.rows)
    ensures Deleted(s, id) == s
  {
    forall row | row in s.rows
      ensures row.id != id
    {
      assert row.id in Ids(s.rows);
    }
    AmongAbsent(s.rows, {id});
  }

  lemma DeletedRows(s: State, row: Row)
    requires DistinctIds(s.rows) && row in s.rows
    ensures var n := Besides(s.rows, {row.id});
            && Deleted(s, row.id).rows == n && Deleted(s, row.id).cached == s.cached
            && (forall r :: r in n <==> r in s.rows && r.id != row.id)
            && DistinctIds(n)
  {
    AmongOne(s.rows, row);
    BesidesMembers(s.rows, {row.id});
    BesidesOrder(s.rows, {row.id});
  }

  lemma DeletedCounter(s: State, row: Row)
    requires Accounts(s) && row in s.rows
    ensures var n := Deleted(s, row.id);
            n.bytes == Total(Pending(n.rows)) <==> !row.flushed || row.size == 0 || s.bytes == 0
  {
    AmongOne(s.rows, row);
    PendingSizeWithout(s.rows, row);
    PendingAfterDelete(s.rows, {row.id});
  }

  // What deleting a row takes away from the size pending.
  lemma PendingSizeWithout(rows: seq<Row>, row: Row)
    requires DistinctIds(rows) && row in rows
    ensures Total(Pending(rows)) == Total(Besides(Pending(rows), {row.id})) + if row.flushed then 0 else row.size
  {
    SplitTotal(Pending(rows), {row.id});
    PendingMembers(rows);
    PendingOrder(rows);
    if row.flushed {
      forall r | r in Pending(rows)
        ensures r.id != row.id
      {
        if r.id == row.id {
          SameIdSameRow(rows, r, row);
        }
      }
      AmongAbsent(Pending(rows), {row.id});
    } else {
      AmongOne(Pending(rows), row);
    }
  }

  // --- Every operation ----------------------------------------------------

  // Primary keys are unique, and deletes target pending entries (or nothing).
  ghost predicate Allowed(s: State, op: Op) {
    match op
    case Add(_, _, id, ending) => ending == Commit ==> id !in Ids(s.rows)
    case Delete(id) => forall row :: row in s.rows && row.id == id ==> !row.flushed
    case _ => true
  }

  // What the operation subtracts from the counter.
  ghost function Subtracted(s: State, op: Op): nat {
    match op
    case FlushSome(ids, _) => Total(Among(Pending(s.rows), ids))
    case Delete(id) => Total(Among(s.rows, {id}))
    case _ => 0
  }

  lemma DeleteApplies(s: State, id: int)
    requires Accounts(s) && Allowed(s, Delete(id))
    ensures Accounts(Deleted(s, id)) && Total(Among(s.rows, {id})) <= s.bytes
  {
    AmongMembers(s.rows, {id});
    if row :| row in s.rows && row.id == id {
      DeleteKeepsExactly(s, row);
      AmongOne(s.rows, row);
      PendingSizeWithout(s.rows, row);
    } else {
      AmongAbsent(s.rows, {id});
    }
  }

  // Every operation keeps the counter right, whatever the sequences, and never
  // subtracts more than it holds.
  lemma ApplyKeeps(s: State, op: Op)
    requires Accounts(s) && Allowed(s, op)
    ensures Accounts(Apply(s, op)) && Subtracted(s, op) <= s.bytes
  {
    match op {
      case Add(pair, size, id, ending) => AddKeeps(s, pair, size, id, ending);
      case FlushAll(now) => FlushKeeps(s, now);
      case FlushSome(ids, now) =>
        FlushSelectedKeeps(s, ids, now);
        SplitTotal(Pending(s.rows), ids);
      case Delete(id) => DeleteApplies(s, id);
      case Restart =>
    }
  }

  lemma MarkedIsBelow(rows: seq<Row>, ids: set<int>, now: int, bound: int)
    requires forall row :: row in rows ==> row.sequence <= bound
    ensures forall row :: row in Marked(rows, ids, now) ==> row.sequence <= bound
  {
    var m := Marked(rows, ids, now);
    forall row | row in m
      ensures row.sequence <= bound
    {
      var i :| 0 <= i < |m| && m[i] == row;
      assert rows[i] in rows;
    }
  }

  // Only adds can disorder the table: whatever else happens, no sequence changes and
  // none is added.
  lemma OthersKeepOrder(s: State, op: Op, bound: int)
    requires !op.Add?
    ensures Increasing(s.rows) ==> Increasing(Apply(s, op).rows)
    ensures (forall row :: row in s.rows ==> row.sequence <= bound) ==>
              forall row :: row in Apply(s, op).rows ==> row.sequence <= bound
  {
    var below := forall row :: row in s.rows ==> row.sequence <= bound;
    match op {
      case FlushAll(now) =>
        MarkedRows(s.rows, Ids(s.rows), now);
        if below { MarkedIsBelow(s.rows, Ids(s.rows), now, bound); }
      case FlushSome(ids, now) =>
        MarkedRows(s.rows, ids, now);
        if below { MarkedIsBelow(s.rows, ids, now, bound); }
      case Delete(id) =>
        BesidesOrder(s.rows, {id});
        BesidesMembers(s.rows, {id});
      case Restart =>
    }
  }

  // --- A deletion that counts twice ---------------------------------------

  // One pair stored and flushed.
  lemma StoredAndFlushed(p: Pair, size: nat, now: int) returns (row: Row)
    ensures FlushedAll(Added(EMPTY, p, size, 1, Commit), now) == State([row], 0, Some(0))
    ensures row.id == 1 && row.flushed && row.size == size && row.sequence == 0
    ensures Accounts(State([row], 0, Some(0))) && Pending([row]) == []
  {
    var stored := NewRow(EMPTY, p, size, 1);
    row := stored.(flushed := true, flushedAt := Some(now));
    assert [] + [stored] == [stored] && stored in [stored];
    assert Marked([stored], Ids([stored]), now) == [row];
    assert [row][..0] == [] && Pending([row]) == Pending([row][..0]) + [];
  }

  // Another one stored behind it.
  lemma StoredNext(row: Row, q: Pair, size: nat) returns (next: Row)
    requires row.id == 1 && Accounts(State([row], 0, Some(0)))
    ensures Apply(State([row], 0, Some(0)), Add(q, size, 2, Commit)) == State([row, next], size, Some(1))
    ensures Allowed(State([row], 0, Some(0)), Add(q, size, 2, Commit))
    ensures next.size == size && next.sequence == 1 && Accounts(State([row, next], size, Some(1)))
  {
    next := Row(2, q, size, 1, false, None);
    AddKeeps(State([row], 0, Some(0)), q, size, 2, Commit);
  }

  // A flushed entry deleted beside a pending one.
  lemma DeleteFlushed(s: State, row: Row, waiting: Row) returns (n: State)
    requires s == State([row, waiting], waiting.size, Some(waiting.sequence)) && Accounts(s)
    requires row.flushed && row.size > 0 && waiting.size > 0
    ensures n == Apply(s, Delete(row.id)) && Total(Pending(n.rows)) == waiting.size && n.bytes < waiting.size
  {
    n := Deleted(s, row.id);
    assert s.rows[0] in s.rows;
    AmongOne(s.rows, row);
    PendingSizeWithout(s.rows, row);
    PendingAfterDelete(s.rows, {row.id});
  }

  lemma FlushedAndWaiting(p: Pair, q: Pair, size: nat, waiting: nat, now: int)
    returns (s1: State, s2: State, s: State, row: Row, next: Row)
    ensures s1 == Apply(EMPTY, Add(p, size, 1, Commit)) && s2 == Apply(s1, FlushAll(now))
    ensures s == Apply(s2, Add(q, waiting, 2, Commit)) && s == State([row, next], waiting, Some(1)) && Accounts(s)
    ensures row.id == 1 && row.flushed && row.size == size && next.size == waiting && next.sequence == 1
  {
    s1 := Apply(EMPTY, Add(p, size, 1, Commit));
    row := StoredAndFlushed(p, size, now);
    s2 := State([row], 0, Some(0));
    next := StoredNext(row, q, waiting);
    s := State([row, next], waiting, Some(1));
  }

  // A pair is flushed, another waits, the flushed one is deleted: the counter ends
  // below what is pending.
  lemma FlushedEntryCountsTwice(p: Pair, q: Pair, size: nat, waiting: nat, now: int)
    returns (s1: State, s2: State, s: State, n: State)
    requires size > 0 && waiting > 0
    ensures s1 == Apply(EMPTY, Add(p, size, 1, Commit)) && s2 == Apply(s1, FlushAll(now))
    ensures s == Apply(s2, Add(q, waiting, 2, Commit)) && Accounts(s) && s.bytes == waiting
    ensures n == Apply(s, Delete(1)) && Total(Pending(n.rows)) == waiting && n.bytes < waiting
  {
    var row, next;
    s1, s2, s, row, next := FlushedAndWaiting(p, q, size, waiting, now);
    n := DeleteFlushed(s, row, next);
  }
}
