// A backend switch while an analysis runs (core/buffer/__init__.py, core/pipeline.py):
// the pipeline's buffer is rebound to the new store, and the cycle marks the ids of the
// old table there.

module SwitchDuringFlush {
  import opened Options
  import opened BufferStore
  import opened BufferAccounts
  import opened FlushCycle
  import opened BackendSwitch

  // What such a cycle leaves waiting in the new store: exactly the rows whose keys there
  // are not among the old keys, whatever pairs they hold.
  lemma EndInNewStoreExactly(n: State, ids: set<int>, now: int, row: Row)
    requires ids != {}
    ensures row in Pending(FlushedSelected(n, ids, now).rows) <==> row in Pending(n.rows) && row.id !in ids
  {
    PendingAfterMark(n.rows, ids, now);
    BesidesMembers(Pending(n.rows), ids);
  }

  lemma FirstStored(p: Pair, size: nat) returns (row: Row)
    ensures row == Row(1, p, size, 0, false, None)
    ensures Apply(EMPTY, Add(p, size, 1, Commit)) == State([row], size, Some(0))
    ensures Pending([row]) == [row]
  {
    row := Row(1, p, size, 0, false, None);
    assert [] + [row] == [row];
    PendingOfLast([], row);
  }

  lemma SecondStored(first: Row, p: Pair, size: nat) returns (row: Row)
    requires first.sequence == 0 && !first.flushed && Pending([first]) == [first]
    ensures row == Row(2, p, size, 1, false, None)
    ensures Apply(State([first], size, Some(0)), Add(p, size, 2, Commit)) == State([first, row], size + size, Some(1))
    ensures Pending([first, row]) == [first, row]
  {
    row := Row(2, p, size, 1, false, None);
    assert [first] + [row] == [first, row];
    PendingOfLast([first], row);
  }

  lemma BesidesFirst(first: Row, row: Row)
    requires first.id == 1 && row.id == 2
    ensures Besides([first, row], {1}) == [row]
  {
    assert [first] + [row] == [first, row] && [] + [first] == [first] && [] + [row] == [row];
    BesidesOfLast([first], row, {1});
    BesidesOfLast([], first, {1});
  }

  lemma FirstDeleted(s: State, first: Row, row: Row) returns (o: State)
    requires s.rows == [first, row] && first.id == 1 && row.id == 2 && !row.flushed
    ensures o == Apply(s, Delete(1)) && o.rows == [row] && Pending(o.rows) == [row]
  {
    assert s.rows[0] in s.rows;
    AmongOne(s.rows, first);
    BesidesFirst(first, row);
    o := Deleted(s, 1);
    assert [] + [row] == [row];
    PendingOfLast([], row);
  }

  lemma KeysOfCopies(copy: Row)
    requires copy.id == 1
    ensures NextRowId([]) == 1 && NextRowId([copy]) == 2
  {
    assert [copy][..0] == [];
  }

  lemma SnapshotOfOne(s: State, row: Row)
    requires Pending(s.rows) == [row]
    ensures Pairs(Snapshot(s, None)) == {row.pair} && MarkedIds(s, None) == {row.id}
    ensures Queue(s) == [(row.pair, row.size)]
  {
    QueueOfOne(s, row);
    assert row in [row];
  }

  // The old store: one pair is left, under the second key.
  lemma OldSide(a: Pair, p: Pair, size: nat) returns (s1: State, s2: State, o: State)
    ensures s1 == Apply(EMPTY, Add(a, size, 1, Commit)) && s2 == Apply(s1, Add(p, size, 2, Commit))
    ensures o == Apply(s2, Delete(1))
    ensures Pairs(Snapshot(o, None)) == {p} && MarkedIds(o, None) == {2} && Queue(o) == [(p, size)]
  {
    var first, row;
    s1, s2, first, row := TwoStored(a, p, size);
    o := FirstDeleted(s2, first, row);
    SnapshotOfOne(o, row);
  }

  lemma TwoStored(a: Pair, p: Pair, size: nat) returns (s1: State, s2: State, first: Row, row: Row)
    ensures s1 == Apply(EMPTY, Add(a, size, 1, Commit)) && s2 == Apply(s1, Add(p, size, 2, Commit))
    ensures s2.rows == [first, row]
    ensures first.id == 1 && row == Row(2, p, size, 1, false, None)
  {
    first := FirstStored(a, size);
    s1 := State([first], size, Some(0));
    row := SecondStored(first, p, size);
    s2 := State([first, row], size + size, Some(1));
  }

  // The new store: the copy of that pair, and a pair captured after the switch.
  lemma NewSide(p: Pair, q: Pair, size: nat) returns (c: State, n: State, copy: Row, captured: Row)
    ensures c == Apply(EMPTY, Add(p, size, NextRowId([]), Commit)) && Queue(c) == [(p, size)]
    ensures n == Apply(c, Add(q, size, NextRowId(c.rows), Commit)) && Pending(n.rows) == [copy, captured]
    ensures copy.pair == p && copy.id == 1 && captured.pair == q && captured.id == 2
  {
    copy := FirstStored(p, size);
    KeysOfCopies(copy);
    c := State([copy], size, Some(0));
    QueueOfOne(c, copy);
    captured := SecondStored(copy, q, size);
    n := State([copy, captured], size + size, Some(1));
  }

  // A cycle snapshots p, the backend is switched (the queue is copied), q is captured,
  // the cycle succeeds and marks the ids of its snapshot: p, which was analysed, waits for
  // the next cycle, and q, which was not, is marked.
  lemma SwitchRepeatsAndSwallows(a: Pair, p: Pair, q: Pair, size: nat, now: int)
    returns (s1: State, s2: State, o: State, c: State, n: State, copy: Row, captured: Row)
    ensures s1 == Apply(EMPTY, Add(a, size, 1, Commit)) && s2 == Apply(s1, Add(p, size, 2, Commit))
    ensures o == Apply(s2, Delete(1))
    ensures Pairs(Snapshot(o, None)) == {p}
    ensures c == Apply(EMPTY, Add(p, size, NextRowId([]), Commit)) && Queue(c) == Queue(o)
    ensures n == Apply(c, Add(q, size, NextRowId(c.rows), Commit)) && Pending(n.rows) == [copy, captured]
    ensures copy.pair == p && captured.pair == q
    ensures var m := FlushedSelected(n, MarkedIds(o, None), now);
            copy in Pending(m.rows) && captured !in Pending(m.rows)
  {
    s1, s2, o := OldSide(a, p, size);
    c, n, copy, captured := NewSide(p, q, size);
    EndInNewStoreExactly(n, {2}, now, copy);
    EndInNewStoreExactly(n, {2}, now, captured);
    assert [copy, captured][0] == copy;
  }

  lemma QueueOfOne(s: State, row: Row)
    requires Pending(s.rows) == [row]
    ensures BufferPairs(s) == [row] && Queue(s) == [(row.pair, row.size)]
  {
    SortedIsArrival([row]);
    CopiedOne(row);
  }
}
