// ContextBuffer.prune of core/buffer/context_buffer.py: flushed rows leave the
// training store when they are too old or too many.

module Retention {
  import opened Options
  import opened BufferStore
  import opened BufferAccounts

  predicate Expired(row: Row, cutoff: int) {
    row.flushed && row.flushedAt.Some? && row.flushedAt.value < cutoff
  }

  function Unexpired(rows: seq<Row>, cutoff: int): seq<Row> {
    if rows == [] then []
    else
      var last := rows[|rows| - 1];
      Unexpired(rows[..|rows| - 1], cutoff) + if Expired(last, cutoff) then [] else [last]
  }

  // The rows left when flushed rows numbered up to `bound` are deleted.
  function Above(rows: seq<Row>, bound: int): seq<Row> {
    if rows == [] then []
    else
      var last := rows[|rows| - 1];
      Above(rows[..|rows| - 1], bound) + if last.flushed && last.sequence <= bound then [] else [last]
  }

  function Flushed(rows: seq<Row>): seq<Row> {
    if rows == [] then []
    else
      var last := rows[|rows| - 1];
      Flushed(rows[..|rows| - 1]) + if last.flushed then [last] else []
  }

  // SELECT sequence .. WHERE flushed ORDER BY sequence DESC.
  function SequencesDown(rows: seq<Row>): seq<int> {
    if rows == [] then []
    else
      var last, front := rows[|rows| - 1], SequencesDown(rows[..|rows| - 1]);
      if last.flushed then InsertDown(front, last.sequence) else front
  }

  function InsertDown(down: seq<int>, n: int): seq<int> {
    if down == [] || down[0] <= n then [n] + down else [down[0]] + InsertDown(down[1..], n)
  }

  // .. OFFSET maxPairs LIMIT 1.
  function FirstTooMany(rows: seq<Row>, maxPairs: nat): Option<int> {
    var down := SequencesDown(rows);
    if maxPairs < |down| then Some(down[maxPairs]) else None
  }

  function Pruned(rows: seq<Row>, maxPairs: nat, cutoff: int): seq<Row> {
    var young := Unexpired(rows, cutoff);
    var bound := FirstTooMany(young, maxPairs);
    if bound.Some? then Above(young, bound.value) else young
  }

  class ContextBuffer {
    var rows: seq<Row>

    constructor (rows: seq<Row>)
      ensures this.rows == rows
    {
      this.rows := rows;
    }

    method Prune(maxPairs: nat, cutoff: int) returns (total: nat)
      modifies this
      ensures rows == Pruned(old(rows), maxPairs, cutoff)
      ensures total == |old(rows)| - |rows|
    {
      total := 0;
      var young := Unexpired(rows, cutoff);
      UnexpiredIsPart(rows, cutoff);
      total := total + (|rows| - |young|);
      rows := young;
      var bound := FirstTooMany(rows, maxPairs);
      if bound.Some? {
        var kept := Above(rows, bound.value);
        AboveIsPart(rows, bound.value);
        total := total + (|rows| - |kept|);
        rows := kept;
      }
    }
  }

  lemma {:induction false} UnexpiredIsPart(rows: seq<Row>, cutoff: int)
    ensures |Unexpired(rows, cutoff)| <= |rows|
    ensures forall row :: row in Unexpired(rows, cutoff) <==> row in rows && !Expired(row, cutoff)
    ensures Pending(Unexpired(rows, cutoff)) == Pending(rows)
  {
    if rows != [] {
      var front, last := rows[..|rows| - 1], rows[|rows| - 1];
      assert rows == front + [last];
      UnexpiredIsPart(front, cutoff);
      var u := Unexpired(front, cutoff);
      assert (u + [last])[..|u|] == u && u + [] == u;
    }
  }

  lemma {:induction false} AboveIsPart(rows: seq<Row>, bound: int)
    ensures |Above(rows, bound)| <= |rows|
    ensures forall row :: row in Above(rows, bound) <==> row in rows && !(row.flushed && row.sequence <= bound)
    ensures Pending(Above(rows, bound)) == Pending(rows)
  {
    if rows != [] {
      var front, last := rows[..|rows| - 1], rows[|rows| - 1];
      assert rows == front + [last];
      AboveIsPart(front, bound);
      var u := Above(front, bound);
      assert (u + [last])[..|u|] == u && u + [] == u;
    }
  }

  lemma {:induction false} FlushedMembers(rows: seq<Row>)
    ensures forall row :: row in Flushed(rows) <==> row in rows && row.flushed
    ensures |SequencesDown(rows)| == |Flushed(rows)|
  {
    if rows != [] {
      var front, last := rows[..|rows| - 1], rows[|rows| - 1];
      assert rows == front + [last];
      FlushedMembers(front);
      InsertDownSorts(SequencesDown(front), last.sequence);
    }
  }

  // --- Counting -----------------------------------------------------------

  ghost predicate Down(s: seq<int>) {
    forall i, j :: 0 <= i < j < |s| ==> s[j] <= s[i]
  }

  // How many are above `t`.
  ghost function CountAbove(s: seq<int>, t: int): nat {
    if s == [] then 0 else (if s[0] > t then 1 else 0) + CountAbove(s[1..], t)
  }

  lemma {:induction false} InsertDownSorts(down: seq<int>, n: int)
    ensures |InsertDown(down, n)| == |down| + 1
    ensures forall x :: x in InsertDown(down, n) <==> x in down || x == n
    ensures Down(down) ==> Down(InsertDown(down, n))
    ensures forall t :: CountAbove(InsertDown(down, n), t) == CountAbove(down, t) + if n > t then 1 else 0
  {
    if down != [] && n < down[0] {
      InsertDownSorts(down[1..], n);
      var rest := InsertDown(down[1..], n);
      assert InsertDown(down, n) == [down[0]] + rest && InsertDown(down, n)[1..] == rest;
      assert down == [down[0]] + down[1..];
      assert Down(down) ==> forall x :: x in rest ==> x <= down[0];
    } else {
      assert InsertDown(down, n)[1..] == down;
    }
  }

  lemma {:induction false} SequencesDownSorted(rows: seq<Row>)
    ensures Down(SequencesDown(rows))
    ensures forall n :: n in SequencesDown(rows) <==> exists row :: row in rows && row.flushed && row.sequence == n
  {
    if rows != [] {
      var front, last := rows[..|rows| - 1], rows[|rows| - 1];
      assert rows == front + [last];
      SequencesDownSorted(front);
      InsertDownSorts(SequencesDown(front), last.sequence);
    }
  }

  // Deleting up to `bound` leaves as many flushed rows as there are numbers above it.
  lemma {:induction false} AboveCount(rows: seq<Row>, bound: int)
    ensures |Flushed(Above(rows, bound))| == CountAbove(SequencesDown(rows), bound)
  {
    if rows != [] {
      var front, last := rows[..|rows| - 1], rows[|rows| - 1];
      AboveCount(front, bound);
      InsertDownSorts(SequencesDown(front), last.sequence);
      var u := Above(front, bound);
      assert (u + [last])[..|u|] == u && u + [] == u;
    }
  }

  // Of numbers in descending order, at most `m` are above the one at `m`, and
  // exactly `m` when that one is smaller than its predecessor.
  lemma {:induction false} CountAboveAt(s: seq<int>, m: nat)
    requires Down(s) && m < |s|
    ensures CountAbove(s, s[m]) <= m
    ensures CountAbove(s, s[m]) == m <==> m == 0 || s[m] < s[m - 1]
    decreases m
  {
    if m == 0 {
      NoneAbove(s, s[0]);
    } else {
      assert Down(s[1..]) && s[1..][m - 1] == s[m];
      CountAboveAt(s[1..], m - 1);
    }
  }

  lemma {:induction false} NoneAbove(s: seq<int>, t: int)
    requires forall i :: 0 <= i < |s| ==> s[i] <= t
    ensures CountAbove(s, t) == 0
  {
    if s != [] {
      NoneAbove(s[1..], t);
    }
  }

  // --- What pruning leaves ------------------------------------------------

  // Rows not yet flushed are untouched, nothing expired or new appears, and every
  // flushed row kept is newer than every one dropped for room.
  lemma PruneKeepsNewest(rows: seq<Row>, maxPairs: nat, cutoff: int)
    ensures var kept, young := Pruned(rows, maxPairs, cutoff), Unexpired(rows, cutoff);
            && Pending(kept) == Pending(rows)
            && (forall row :: row in kept ==> row in rows && !Expired(row, cutoff))
            && (forall k, d :: k in Flushed(kept) && d in Flushed(young) && d !in kept ==> d.sequence < k.sequence)
            && |Flushed(kept)| <= maxPairs
  {
    var young := Unexpired(rows, cutoff);
    UnexpiredIsPart(rows, cutoff);
    FlushedMembers(young);
    SequencesDownSorted(young);
    var bound := FirstTooMany(young, maxPairs);
    if bound.Some? {
      AboveIsPart(young, bound.value);
      FlushedMembers(Above(young, bound.value));
      AboveCount(young, bound.value);
      CountAboveAt(SequencesDown(young), maxPairs);
    }
  }

  // The cap is used up, exactly when the last row kept and the first row dropped
  // have different numbers.
  lemma PruneFillsCapExactly(rows: seq<Row>, maxPairs: nat, cutoff: int)
    ensures var kept, young := Flushed(Pruned(rows, maxPairs, cutoff)), Flushed(Unexpired(rows, cutoff));
            var down := SequencesDown(Unexpired(rows, cutoff));
            && |down| == |young|
            && (|kept| == (if |young| < maxPairs then |young| else maxPairs) <==>
                !(0 < maxPairs < |down|) || down[maxPairs] < down[maxPairs - 1])
  {
    var young := Unexpired(rows, cutoff);
    FlushedMembers(young);
    SequencesDownSorted(young);
    var bound := FirstTooMany(young, maxPairs);
    if bound.Some? {
      AboveCount(young, bound.value);
      CountAboveAt(SequencesDown(young), maxPairs);
    }
  }

  // With room for all, a row goes exactly when it was flushed before the cutoff.
  lemma PruneAgeExactly(rows: seq<Row>, maxPairs: nat, cutoff: int, row: Row)
    requires row in rows && |rows| <= maxPairs
    ensures row !in Pruned(rows, maxPairs, cutoff) <==>
            row.flushed && row.flushedAt.Some? && row.flushedAt.value < cutoff
  {
    var young := Unexpired(rows, cutoff);
    UnexpiredIsPart(rows, cutoff);
    FlushedMembers(young);
    FlushedLength(young);
  }

  lemma {:induction false} FlushedLength(rows: seq<Row>)
    ensures |Flushed(rows)| <= |rows|
  {
    if rows != [] {
      FlushedLength(rows[..|rows| - 1]);
    }
  }

  // From the flush to a later pruning: a pair flushed at `now` goes by the age limit
  // exactly when that was before the cutoff.
  lemma FlushedThenPruned(s: State, ids: set<int>, now: int, maxPairs: nat, cutoff: int, i: nat)
    requires i < |s.rows| && !s.rows[i].flushed && s.rows[i].id in ids && |s.rows| <= maxPairs
    ensures var row := s.rows[i].(flushed := true, flushedAt := Some(now));
            row !in Pruned(FlushedSelected(s, ids, now).rows, maxPairs, cutoff) <==> now < cutoff
  {
    FlushStampsExactly(s, ids, now);
    var rows := FlushedSelected(s, ids, now).rows;
    assert rows[i] in rows;
    PruneAgeExactly(rows, maxPairs, cutoff, rows[i]);
  }

  lemma {:induction false} UnexpiredOrder(rows: seq<Row>, cutoff: int)
    ensures OrderKept(rows, Unexpired(rows, cutoff))
  {
    if rows != [] {
      var part := Unexpired(rows[..|rows| - 1], cutoff);
      UnexpiredOrder(rows[..|rows| - 1], cutoff);
      UnexpiredIsPart(rows[..|rows| - 1], cutoff);
      assert part + [] == part;
      PartOfMore(rows, part, Unexpired(rows, cutoff));
    }
  }

  lemma {:induction false} AboveOrder(rows: seq<Row>, bound: int)
    ensures OrderKept(rows, Above(rows, bound))
  {
    if rows != [] {
      var part := Above(rows[..|rows| - 1], bound);
      AboveOrder(rows[..|rows| - 1], bound);
      AboveIsPart(rows[..|rows| - 1], bound);
      assert part + [] == part;
      PartOfMore(rows, part, Above(rows, bound));
    }
  }

  ghost predicate StrictlyDown(s: seq<int>) {
    forall i, j :: 0 <= i < j < |s| ==> s[j] < s[i]
  }

  lemma {:induction false} InsertDownStrictly(down: seq<int>, n: int)
    requires StrictlyDown(down) && n !in down
    ensures StrictlyDown(InsertDown(down, n))
  {
    InsertDownSorts(down, n);
    if down != [] && n < down[0] {
      InsertDownStrictly(down[1..], n);
      InsertDownSorts(down[1..], n);
      var rest := InsertDown(down[1..], n);
      forall i | 0 <= i < |rest|
        ensures rest[i] < down[0]
      {
        assert rest[i] in rest;
      }
    }
  }

  // Distinct sequences stay distinct when rows go, and come down strictly.
  lemma {:induction false} DistinctDown(rows: seq<Row>)
    requires DistinctSequences(rows)
    ensures StrictlyDown(SequencesDown(rows))
  {
    if rows != [] {
      var front, last := rows[..|rows| - 1], rows[|rows| - 1];
      DistinctDown(front);
      SequencesDownSorted(front);
      forall row | row in front
        ensures row.sequence != last.sequence
      {
      }
      if last.flushed {
        InsertDownStrictly(SequencesDown(front), last.sequence);
      }
    }
  }

  lemma PartDistinct(rows: seq<Row>, part: seq<Row>)
    requires rows != [] && DistinctSequences(rows) && DistinctSequences(part)
    requires forall row :: row in part ==> row in rows[..|rows| - 1]
    ensures DistinctSequences(part + [rows[|rows| - 1]])
  {
    forall i | 0 <= i < |part|
      ensures part[i].sequence != rows[|rows| - 1].sequence
    {
      assert part[i] in part;
    }
  }

  lemma {:induction false} UnexpiredDistinct(rows: seq<Row>, cutoff: int)
    requires DistinctSequences(rows)
    ensures DistinctSequences(Unexpired(rows, cutoff))
  {
    if rows != [] {
      var front := rows[..|rows| - 1];
      UnexpiredDistinct(front, cutoff);
      UnexpiredIsPart(front, cutoff);
      PartDistinct(rows, Unexpired(front, cutoff));
    }
  }

  // With distinct sequences, pruning leaves all flushed rows that survive the age
  // limit, or exactly the cap.
  lemma PruneFillsCap(rows: seq<Row>, maxPairs: nat, cutoff: int)
    requires DistinctSequences(rows)
    ensures var kept, young := Flushed(Pruned(rows, maxPairs, cutoff)), Flushed(Unexpired(rows, cutoff));
            |kept| == if |young| < maxPairs then |young| else maxPairs
  {
    UnexpiredDistinct(rows, cutoff);
    DistinctDown(Unexpired(rows, cutoff));
    PruneFillsCapExactly(rows, maxPairs, cutoff);
  }

  // Pruning keeps the accounts right and the order, and a buffer in order has distinct
  // sequences.
  lemma HealthyPrune(s: State, maxPairs: nat, cutoff: int)
    ensures var n := s.(rows := Pruned(s.rows, maxPairs, cutoff));
            && (Accounts(s) ==> Accounts(n))
            && (Ordered(s) ==> Ordered(n))
            && (Ordered(s) ==>
                  var kept, young := Flushed(n.rows), Flushed(Unexpired(s.rows, cutoff));
                  |kept| == if |young| < maxPairs then |young| else maxPairs)
  {
    var young := Unexpired(s.rows, cutoff);
    if Ordered(s) {
      PruneFillsCap(s.rows, maxPairs, cutoff);
    }
    UnexpiredOrder(s.rows, cutoff);
    PruneKeepsNewest(s.rows, maxPairs, cutoff);
    var bound := FirstTooMany(young, maxPairs);
    if bound.Some? {
      AboveOrder(young, bound.value);
    }
  }
}
