// What a learning flush (core/pipeline.py) takes out of the buffer to analyse, row by row,
// and which ids it marks afterwards.

module Snapshots {
  import opened Options
  import opened BufferStore
  import opened FlushCycle

  lemma {:induction false} PendingCounts(rows: seq<Row>, row: Row)
    ensures multiset(Pending(rows))[row] == if row.flushed then 0 else multiset(rows)[row]
  {
    if rows != [] {
      var front, last := rows[..|rows| - 1], rows[|rows| - 1];
      assert rows == front + [last];
      PendingCounts(front, row);
      PendingOfLast(front, last);
    }
  }

  lemma {:induction false} AmongCounts(rows: seq<Row>, ids: set<int>, row: Row)
    ensures multiset(Among(rows, ids))[row] == if row.id in ids then multiset(rows)[row] else 0
  {
    if rows != [] {
      var front, last := rows[..|rows| - 1], rows[|rows| - 1];
      assert rows == front + [last];
      AmongCounts(front, ids, row);
      assert Among(front, ids) + [] == Among(front, ids);
    }
  }

  lemma {:induction false} InsertedCounts(sorted: seq<Row>, row: Row)
    ensures multiset(Inserted(sorted, row)) == multiset(sorted) + multiset{row}
  {
    if sorted != [] {
      var front, last := sorted[..|sorted| - 1], sorted[|sorted| - 1];
      assert sorted == front + [last];
      InsertedCounts(front, row);
    }
  }

  lemma {:induction false} SortedCounts(rows: seq<Row>)
    ensures multiset(Sorted(rows)) == multiset(rows)
  {
    if rows != [] {
      var front, last := rows[..|rows| - 1], rows[|rows| - 1];
      assert rows == front + [last];
      SortedCounts(front);
      InsertedCounts(Sorted(front), last);
    }
  }

  lemma {:induction false} AmongAscends(rows: seq<Row>, ids: set<int>)
    requires Ascending(rows)
    ensures Ascending(Among(rows, ids))
  {
    if rows != [] {
      var front, last := rows[..|rows| - 1], rows[|rows| - 1];
      var part := Among(front, ids);
      AmongAscends(front, ids);
      AmongMembers(front, ids);
      forall i | 0 <= i < |part|
        ensures part[i].sequence <= last.sequence
      {
        assert part[i] in part;
      }
    }
  }

  // Whether a cycle asked for these ids takes the row.
  ghost predicate Wanted(row: Row, pairIds: Option<set<int>>) {
    !row.flushed && (pairIds.None? || row.id in pairIds.value)
  }

  // A snapshot is the unflushed rows, or the ones chosen among them: each as often as it
  // is in the table, no other, in the order of their sequences.
  lemma SnapshotExactly(s: State, pairIds: Option<set<int>>, row: Row)
    ensures multiset(Snapshot(s, pairIds))[row] == if Wanted(row, pairIds) then multiset(s.rows)[row] else 0
    ensures Ascending(Snapshot(s, pairIds))
  {
    var queue := BufferPairs(s);
    PendingCounts(s.rows, row);
    SortedCounts(Pending(s.rows));
    SortedAscends(Pending(s.rows));
    if pairIds.Some? {
      AmongCounts(queue, pairIds.value, row);
      AmongAscends(queue, pairIds.value);
    }
  }

  // It marks the ids it was asked for, or those of all unflushed rows.
  lemma MarkedIdsExactly(s: State, pairIds: Option<set<int>>, id: int)
    ensures id in MarkedIds(s, pairIds) <==>
            if pairIds.Some? then id in pairIds.value
            else exists row :: row in s.rows && !row.flushed && row.id == id
  {
    SortedMembers(Pending(s.rows));
    PendingMembers(s.rows);
    if pairIds.None? && exists row :: row in s.rows && !row.flushed && row.id == id {
      var row :| row in s.rows && !row.flushed && row.id == id;
      assert row in BufferPairs(s);
    }
  }
}
