// The capture buffer of one backend (SqlAlchemyBufferStore in
// core/buffer/sqlalchemy_store.py): rows, the byte counter kept beside them and
// the cached sequence allocator, per device.

module BufferStore {
  import opened Options

  // A correlated pair; `id` is its uuid.
  datatype Pair = Pair(id: string, content: string)

  // An llm_context_buffer row.
  datatype Row = Row(id: int, pair: Pair, size: nat, sequence: int, flushed: bool, flushedAt: Option<int>)

  // The rows of a device in insertion order, stats.current_buffer_size_bytes and
  // the device's entry of _sequence_cache.
  datatype State = State(rows: seq<Row>, bytes: int, cached: Option<int>)

  const EMPTY := State([], 0, None)

  // How a transaction ends: an exception drops the cached sequence, a cancellation
  // does not.
  datatype Ending = Commit | Fail | Cancel

  // --- Queries ------------------------------------------------------------

  function Pending(rows: seq<Row>): seq<Row> {
    if rows == [] then []
    else
      var last := rows[|rows| - 1];
      Pending(rows[..|rows| - 1]) + if last.flushed then [] else [last]
  }

  function Total(rows: seq<Row>): nat {
    if rows == [] then 0 else Total(rows[..|rows| - 1]) + rows[|rows| - 1].size
  }

  function Ids(rows: seq<Row>): set<int> {
    set row | row in rows :: row.id
  }

  // SELECT MAX(sequence).
  function MaxSequence(rows: seq<Row>): (m: int)
    requires rows != []
    ensures exists row :: row in rows && row.sequence == m
    ensures forall row :: row in rows ==> row.sequence <= m
  {
    var last := rows[|rows| - 1];
    if |rows| == 1 then last.sequence
    else
      var m := MaxSequence(rows[..|rows| - 1]);
      assert rows == rows[..|rows| - 1] + [last];
      if m < last.sequence then last.sequence else m
  }

  // ORDER BY sequence.
  function Sorted(rows: seq<Row>): seq<Row> {
    if rows == [] then [] else Inserted(Sorted(rows[..|rows| - 1]), rows[|rows| - 1])
  }

  function Inserted(sorted: seq<Row>, row: Row): seq<Row> {
    if sorted == [] || sorted[|sorted| - 1].sequence <= row.sequence then sorted + [row]
    else Inserted(sorted[..|sorted| - 1], row) + [sorted[|sorted| - 1]]
  }

  // get_buffer_pairs.
  function BufferPairs(s: State): seq<Row> {
    Sorted(Pending(s.rows))
  }

  // --- Updates ------------------------------------------------------------

  function NextSequence(s: State): int {
    if s.cached.Some? then s.cached.value + 1
    else if s.rows == [] then 0
    else MaxSequence(s.rows) + 1
  }

  // The key SQLite gives the next row of a table without AUTOINCREMENT, as this one is.
  function NextRowId(rows: seq<Row>): (id: int)
    ensures id !in Ids(rows) && forall row :: row in rows ==> row.id < id
  {
    if rows == [] then 1
    else
      var before, last := NextRowId(rows[..|rows| - 1]), rows[|rows| - 1].id;
      assert rows == rows[..|rows| - 1] + [rows[|rows| - 1]];
      if last < before then before else last + 1
  }

  function NewRow(s: State, pair: Pair, size: nat, id: int): Row {
    Row(id, pair, size, NextSequence(s), false, None)
  }

  function Added(s: State, pair: Pair, size: nat, id: int, ending: Ending): State {
    match ending
    case Commit => State(s.rows + [NewRow(s, pair, size, id)], s.bytes + size, Some(NextSequence(s)))
    case Fail => s.(cached := None)
    case Cancel => s.(cached := Some(NextSequence(s)))
  }

  predicate Chosen(row: Row, ids: set<int>) {
    !row.flushed && row.id in ids
  }

  // UPDATE .. SET flushed WHERE NOT flushed AND id IN ids.
  function Marked(rows: seq<Row>, ids: set<int>, now: int): (m: seq<Row>)
    ensures |m| == |rows|
    ensures forall i :: 0 <= i < |rows| ==>
              m[i] == if Chosen(rows[i], ids) then rows[i].(flushed := true, flushedAt := Some(now)) else rows[i]
  {
    seq(|rows|, i requires 0 <= i < |rows| =>
      if Chosen(rows[i], ids) then rows[i].(flushed := true, flushedAt := Some(now)) else rows[i])
  }

  // The rows whose id is (or is not) among `ids`.
  function Among(rows: seq<Row>, ids: set<int>): seq<Row> {
    if rows == [] then []
    else
      var last := rows[|rows| - 1];
      Among(rows[..|rows| - 1], ids) + if last.id in ids then [last] else []
  }

  function Besides(rows: seq<Row>, ids: set<int>): seq<Row> {
    if rows == [] then []
    else
      var last := rows[|rows| - 1];
      Besides(rows[..|rows| - 1], ids) + if last.id in ids then [] else [last]
  }

  function Clamped(n: int): int {
    if n < 0 then 0 else n
  }

  function FlushedAll(s: State, now: int): State {
    State(Marked(s.rows, Ids(s.rows), now), 0, s.cached)
  }

  function FlushedSelected(s: State, ids: set<int>, now: int): State {
    if ids == {} then s
    else State(Marked(s.rows, ids, now), Clamped(s.bytes - Total(Among(Pending(s.rows), ids))), s.cached)
  }

  function Deleted(s: State, id: int): State {
    var gone := Among(s.rows, {id});
    if gone == [] then s
    else State(Besides(s.rows, {id}), Clamped(s.bytes - Total(gone)), s.cached)
  }

  // --- The store ----------------------------------------------------------

  class SqlAlchemyBufferStore {
    var devices: map<string, State>

    ghost function View(device: string): State
      reads this
    {
      Of(devices, device)
    }

    // Rows left by an earlier process; the sequence cache starts empty.
    constructor (persisted: map<string, State>)
      requires forall d :: d in persisted ==> persisted[d].cached == None
      ensures devices == persisted
    {
      devices := persisted;
    }

    // `id` is the primary key the database picks.
    method AddPair(device: string, pair: Pair, size: nat, id: int, ending: Ending) returns (bytes: int)
      modifies this
      ensures devices == old(devices)[device := Added(old(View(device)), pair, size, id, ending)]
      ensures ending == Commit ==> bytes == View(device).bytes
    {
      var s := Of(devices, device);
      var sequence := NextSequenceOf(s);
      match ending {
        case Commit =>
          var row := Row(id, pair, size, sequence, false, None);
          s := State(s.rows + [row], s.bytes + size, Some(sequence));
        case Fail =>
          s := s.(cached := None);
        case Cancel =>
          s := s.(cached := Some(sequence));
      }
      devices := devices[device := s];
      bytes := s.bytes;
    }

    method GetBufferPairs(device: string) returns (pairs: seq<Row>)
      ensures pairs == BufferPairs(View(device))
    {
      pairs := Sorted(Pending(Of(devices, device).rows));
    }

    // pending_device_ids. In RAM mode (no candidates) one query over the shared table
    // finds the devices; on disk each candidate is asked for its pairs.
    method PendingDeviceIds(candidates: Option<seq<string>>) returns (found: seq<string>)
      ensures Lists(found, devices, candidates)
    {
      found := [];
      if candidates.None? {
        found := DistinctDevices();
        return;
      }
      var i := 0;
      while i < |candidates.value|
        invariant 0 <= i <= |candidates.value|
        invariant Lists(found, devices, Some(candidates.value[..i]))
      {
        var d := candidates.value[i];
        assert candidates.value[..i + 1] == candidates.value[..i] + [d];
        ListsMore(found, devices, candidates.value[..i], d);
        var pairs := GetBufferPairs(d);
        if pairs != [] {
          found := found + [d];
        }
        i := i + 1;
      }
      assert candidates.value[..i] == candidates.value;
    }

    // SELECT DISTINCT device_id .. WHERE NOT flushed, in any order.
    method DistinctDevices() returns (found: seq<string>)
      ensures Lists(found, devices, None)
    {
      found := [];
      var keys := devices.Keys;
      while keys != {}
        invariant keys <= devices.Keys && Distinct(found)
        invariant forall d :: d in found <==> d !in keys && Pending(Of(devices, d).rows) != []
        decreases |keys|
      {
        var d :| d in keys;
        if Pending(devices[d].rows) != [] {
          found := found + [d];
        }
        keys := keys - {d};
      }
    }

    method Flush(device: string, now: int) returns (count: nat)
      modifies this
      ensures devices == old(devices)[device := FlushedAll(old(View(device)), now)]
      ensures count == |Pending(old(View(device)).rows)|
    {
      var s := Of(devices, device);
      count := |Pending(s.rows)|;
      devices := devices[device := State(Marked(s.rows, Ids(s.rows), now), 0, s.cached)];
    }

    method FlushSelected(device: string, ids: set<int>, now: int) returns (count: nat)
      modifies this
      ensures View(device) == FlushedSelected(old(View(device)), ids, now)
      ensures forall d :: d != device ==> View(d) == old(View(d))
      ensures count == |Among(Pending(old(View(device)).rows), ids)|
    {
      if ids == {} {
        AmongNone(Pending(View(device).rows));
        return 0;
      }
      var s := Of(devices, device);
      var chosen := Among(Pending(s.rows), ids);
      devices := devices[device := State(Marked(s.rows, ids, now), Clamped(s.bytes - Total(chosen)), s.cached)];
      count := |chosen|;
    }

    method DeleteEntry(device: string, id: int) returns (found: bool)
      modifies this
      ensures View(device) == Deleted(old(View(device)), id)
      ensures forall d :: d != device ==> View(d) == old(View(d))
      ensures found <==> id in Ids(old(View(device)).rows)
    {
      var s := Of(devices, device);
      var gone := Among(s.rows, {id});
      AmongMembers(s.rows, {id});
      if gone == [] {
        assert id in Ids(s.rows) ==> exists row :: row in s.rows && row.id == id;
        return false;
      }
      assert gone[0] in gone;
      devices := devices[device := State(Besides(s.rows, {id}), Clamped(s.bytes - Total(gone)), s.cached)];
      found := true;
    }
  }

  function Of(devices: map<string, State>, device: string): State {
    if device in devices then devices[device] else EMPTY
  }

  ghost predicate Distinct(ds: seq<string>) {
    forall i, j :: 0 <= i < j < |ds| ==> ds[i] != ds[j]
  }

  // Exactly the devices with something pending, as far as they are candidates; none
  // twice, unless it is a candidate twice.
  ghost predicate Lists(found: seq<string>, devices: map<string, State>, candidates: Option<seq<string>>) {
    && (forall d :: d in found <==> IsCandidate(candidates, d) && Pending(Of(devices, d).rows) != [])
    && (candidates.None? || Distinct(candidates.value) ==> Distinct(found))
  }

  lemma ListsMore(found: seq<string>, devices: map<string, State>, asked: seq<string>, d: string)
    requires Lists(found, devices, Some(asked))
    ensures Lists(if BufferPairs(Of(devices, d)) != [] then found + [d] else found, devices, Some(asked + [d]))
  {
    SortedLength(Pending(Of(devices, d).rows));
    if Distinct(asked + [d]) {
      assert forall i :: 0 <= i < |asked| ==> asked[i] == (asked + [d])[i];
      assert (asked + [d])[|asked|] == d;
    }
  }

  predicate IsCandidate(candidates: Option<seq<string>>, device: string) {
    candidates.None? || device in candidates.value
  }

  // _next_sequence, with its cache.
  method NextSequenceOf(s: State) returns (sequence: int)
    ensures sequence == NextSequence(s)
  {
    if s.cached.Some? {
      return s.cached.value + 1;
    }
    if s.rows == [] {
      return 0;
    }
    return MaxSequence(s.rows) + 1;
  }

  // --- Rows ---------------------------------------------------------------

  ghost predicate Increasing(rows: seq<Row>) {
    forall i, j :: 0 <= i < j < |rows| ==> rows[i].sequence < rows[j].sequence
  }

  ghost predicate DistinctIds(rows: seq<Row>) {
    forall i, j :: 0 <= i < j < |rows| ==> rows[i].id != rows[j].id
  }

  lemma {:induction false} PendingMembers(rows: seq<Row>)
    ensures forall row :: row in Pending(rows) <==> row in rows && !row.flushed
  {
    if rows != [] {
      var front := rows[..|rows| - 1];
      assert rows == front + [rows[|rows| - 1]];
      PendingMembers(front);
    }
  }

  // A part of all rows but the last stays in order when the last is put behind it.
  lemma PartOrder(rows: seq<Row>, part: seq<Row>)
    requires rows != [] && forall row :: row in part ==> row in rows[..|rows| - 1]
    ensures Increasing(rows) && Increasing(part) ==> Increasing(part + [rows[|rows| - 1]])
    ensures DistinctIds(rows) && DistinctIds(part) ==> DistinctIds(part + [rows[|rows| - 1]])
  {
    var front, last := rows[..|rows| - 1], rows[|rows| - 1];
    forall i | 0 <= i < |part|
      ensures Increasing(rows) ==> part[i].sequence < last.sequence
      ensures DistinctIds(rows) ==> part[i].id != last.id
    {
      assert part[i] in part;
      var k :| 0 <= k < |front| && front[k] == part[i];
      assert rows[k] == part[i];
    }
  }

  // The whole rows in order, and so a part of them, with the last row or without it.
  ghost predicate OrderKept(rows: seq<Row>, part: seq<Row>) {
    (Increasing(rows) ==> Increasing(part)) && (DistinctIds(rows) ==> DistinctIds(part))
  }

  lemma PartOfMore(rows: seq<Row>, part: seq<Row>, more: seq<Row>)
    requires rows != [] && forall row :: row in part ==> row in rows[..|rows| - 1]
    requires OrderKept(rows[..|rows| - 1], part)
    requires more == part || more == part + [rows[|rows| - 1]]
    ensures OrderKept(rows, more)
  {
    PartOrder(rows, part);
  }

  lemma {:induction false} PendingOrder(rows: seq<Row>)
    ensures OrderKept(rows, Pending(rows))
  {
    if rows != [] {
      var front, last := rows[..|rows| - 1], rows[|rows| - 1];
      assert rows == front + [last];
      PendingOrder(front);
      PendingMembers(front);
      PendingOfLast(front, last);
      PartOfMore(rows, Pending(front), Pending(rows));
    }
  }

  lemma {:induction false} AmongMembers(rows: seq<Row>, ids: set<int>)
    ensures forall row :: row in Among(rows, ids) <==> row in rows && row.id in ids
  {
    if rows != [] {
      var front := rows[..|rows| - 1];
      assert rows == front + [rows[|rows| - 1]];
      AmongMembers(front, ids);
    }
  }

  lemma {:induction false} BesidesMembers(rows: seq<Row>, ids: set<int>)
    ensures forall row :: row in Besides(rows, ids) <==> row in rows && row.id !in ids
  {
    if rows != [] {
      var front := rows[..|rows| - 1];
      assert rows == front + [rows[|rows| - 1]];
      BesidesMembers(front, ids);
    }
  }

  lemma {:induction false} BesidesOrder(rows: seq<Row>, ids: set<int>)
    ensures OrderKept(rows, Besides(rows, ids))
  {
    if rows != [] {
      var front, last := rows[..|rows| - 1], rows[|rows| - 1];
      assert rows == front + [last];
      BesidesOrder(front, ids);
      BesidesMembers(front, ids);
      BesidesOfLast(front, last, ids);
      PartOfMore(rows, Besides(front, ids), Besides(rows, ids));
    }
  }

  lemma {:induction false} AmongNone(rows: seq<Row>)
    ensures Among(rows, {}) == []
  {
    if rows != [] {
      AmongNone(rows[..|rows| - 1]);
    }
  }

  // Splitting rows by id splits their size.
  lemma {:induction false} SplitTotal(rows: seq<Row>, ids: set<int>)
    ensures Total(rows) == Total(Among(rows, ids)) + Total(Besides(rows, ids))
  {
    if rows != [] {
      var front, last := rows[..|rows| - 1], rows[|rows| - 1];
      SplitTotal(front, ids);
      var a, b := Among(front, ids), Besides(front, ids);
      assert (a + [last])[..|a|] == a && (b + [last])[..|b|] == b;
      assert a + [] == a && b + [] == b;
    }
  }

  // Marking removes the chosen rows from what is pending.
  lemma {:induction false} PendingAfterMark(rows: seq<Row>, ids: set<int>, now: int)
    ensures Pending(Marked(rows, ids, now)) == Besides(Pending(rows), ids)
  {
    if rows != [] {
      var front, last := rows[..|rows| - 1], rows[|rows| - 1];
      var m := Marked(rows, ids, now);
      assert m[..|m| - 1] == Marked(front, ids, now);
      PendingAfterMark(front, ids, now);
      var p := Pending(front);
      assert last.flushed || (p + [last])[..|p|] == p;
      assert p + [] == p;
    }
  }

  lemma PendingOfLast(front: seq<Row>, last: Row)
    ensures Pending(front + [last]) == if last.flushed then Pending(front) else Pending(front) + [last]
  {
    assert Pending(front) + [] == Pending(front);
    assert (front + [last])[..|front|] == front;
  }

  lemma BesidesOfLast(front: seq<Row>, last: Row, ids: set<int>)
    ensures Besides(front + [last], ids) == if last.id in ids then Besides(front, ids) else Besides(front, ids) + [last]
  {
    assert Besides(front, ids) + [] == Besides(front, ids);
    assert (front + [last])[..|front|] == front;
  }

  lemma {:induction false} PendingAfterDelete(rows: seq<Row>, ids: set<int>)
    ensures Pending(Besides(rows, ids)) == Besides(Pending(rows), ids)
  {
    if rows != [] {
      var front, last := rows[..|rows| - 1], rows[|rows| - 1];
      assert rows == front + [last];
      PendingAfterDelete(front, ids);
      PendingOfLast(front, last);
      BesidesOfLast(front, last, ids);
      if last.id !in ids {
        PendingOfLast(Besides(front, ids), last);
      }
      if !last.flushed {
        BesidesOfLast(Pending(front), last, ids);
      }
    }
  }

  lemma {:induction false} BesidesAll(rows: seq<Row>, ids: set<int>)
    requires forall row :: row in rows ==> row.id in ids
    ensures Besides(rows, ids) == []
  {
    if rows != [] {
      assert rows == rows[..|rows| - 1] + [rows[|rows| - 1]];
      BesidesAll(rows[..|rows| - 1], ids);
    }
  }

  lemma {:induction false} BesidesNone(rows: seq<Row>)
    ensures Besides(rows, {}) == rows
  {
    if rows != [] {
      BesidesNone(rows[..|rows| - 1]);
    }
  }

  lemma {:induction false} SortedLength(rows: seq<Row>)
    ensures |Sorted(rows)| == |rows|
  {
    if rows != [] {
      SortedLength(rows[..|rows| - 1]);
      InsertedLength(Sorted(rows[..|rows| - 1]), rows[|rows| - 1]);
    }
  }

  lemma {:induction false} InsertedLength(sorted: seq<Row>, row: Row)
    ensures |Inserted(sorted, row)| == |sorted| + 1
  {
    if sorted != [] {
      InsertedLength(sorted[..|sorted| - 1], row);
    }
  }

  lemma AppendPending(rows: seq<Row>, row: Row)
    requires !row.flushed
    ensures Pending(rows + [row]) == Pending(rows) + [row]
    ensures Total(Pending(rows + [row])) == Total(Pending(rows)) + row.size
  {
    assert (rows + [row])[..|rows|] == rows;
    var p := Pending(rows);
    assert (p + [row])[..|p|] == p;
  }

  lemma SameIdSameRow(rows: seq<Row>, r: Row, q: Row)
    requires DistinctIds(rows) && r in rows && q in rows && r.id == q.id
    ensures r == q
  {
    var i, j :| 0 <= i < |rows| && 0 <= j < |rows| && rows[i] == r && rows[j] == q;
  }

  lemma {:induction false} AmongAbsent(rows: seq<Row>, ids: set<int>)
    requires forall row :: row in rows ==> row.id !in ids
    ensures Among(rows, ids) == []
  {
    if rows != [] {
      assert rows == rows[..|rows| - 1] + [rows[|rows| - 1]];
      AmongAbsent(rows[..|rows| - 1], ids);
    }
  }

  lemma {:induction false} AmongOne(rows: seq<Row>, row: Row)
    requires DistinctIds(rows) && row in rows
    ensures Among(rows, {row.id}) == [row] && Total(Among(rows, {row.id})) == row.size
  {
    var front, last := rows[..|rows| - 1], rows[|rows| - 1];
    assert rows == front + [last];
    if last == row {
      forall r | r in front
        ensures r.id != row.id
      {
      }
      AmongAbsent(front, {row.id});
    } else {
      AmongOne(front, row);
    }
    assert Total([row]) == Total([row][..0]) + row.size;
  }

  // --- ORDER BY sequence --------------------------------------------------

  lemma {:induction false} InsertedMembers(sorted: seq<Row>, row: Row)
    ensures forall r :: r in Inserted(sorted, row) <==> r in sorted || r == row
  {
    if sorted != [] {
      var front, last := sorted[..|sorted| - 1], sorted[|sorted| - 1];
      assert sorted == front + [last];
      InsertedMembers(front, row);
    }
  }

  lemma {:induction false} SortedMembers(rows: seq<Row>)
    ensures forall row :: row in Sorted(rows) <==> row in rows
  {
    if rows != [] {
      var front, last := rows[..|rows| - 1], rows[|rows| - 1];
      assert rows == front + [last];
      SortedMembers(front);
      InsertedMembers(Sorted(front), last);
    }
  }

  ghost predicate Ascending(rows: seq<Row>) {
    forall i, j :: 0 <= i < j < |rows| ==> rows[i].sequence <= rows[j].sequence
  }

  lemma {:induction false} InsertedAscends(sorted: seq<Row>, row: Row)
    requires Ascending(sorted)
    ensures Ascending(Inserted(sorted, row))
  {
    if sorted != [] && row.sequence < sorted[|sorted| - 1].sequence {
      var front, last := sorted[..|sorted| - 1], sorted[|sorted| - 1];
      var rest := Inserted(front, row);
      InsertedAscends(front, row);
      InsertedMembers(front, row);
      forall i | 0 <= i < |rest|
        ensures rest[i].sequence <= last.sequence
      {
        assert rest[i] in rest;
      }
    }
  }

  lemma {:induction false} SortedAscends(rows: seq<Row>)
    ensures Ascending(Sorted(rows))
  {
    if rows != [] {
      SortedAscends(rows[..|rows| - 1]);
      InsertedAscends(Sorted(rows[..|rows| - 1]), rows[|rows| - 1]);
    }
  }

  // Rows already in order stay as they are.
  lemma {:induction false} SortedIsArrival(rows: seq<Row>)
    requires Increasing(rows)
    ensures Sorted(rows) == rows
  {
    if rows != [] {
      var front, last := rows[..|rows| - 1], rows[|rows| - 1];
      SortedIsArrival(front);
      assert front + [last] == rows;
    }
  }

  lemma InsertedLast(sorted: seq<Row>, row: Row)
    requires forall r :: r in sorted ==> r.sequence <= row.sequence
    ensures Inserted(sorted, row) == sorted + [row]
  {
    assert sorted != [] ==> sorted[|sorted| - 1] in sorted;
  }

  lemma InsertedBefore(front: seq<Row>, last: Row, row: Row)
    requires row.sequence < last.sequence
    ensures Inserted(front + [last], row) == Inserted(front, row) + [last]
  {
    assert (front + [last])[..|front|] == front;
  }

  lemma LastOfAscending(sorted: seq<Row>, row: Row)
    requires sorted != [] && Ascending(sorted) && sorted[|sorted| - 1].sequence <= row.sequence
    ensures forall r :: r in sorted ==> r.sequence <= row.sequence
  {
  }

  lemma InsertedLastBesides(sorted: seq<Row>, row: Row, ids: set<int>)
    requires forall r :: r in sorted ==> r.sequence <= row.sequence
    ensures Besides(Inserted(sorted, row), ids) ==
            if row.id in ids then Besides(sorted, ids) else Inserted(Besides(sorted, ids), row)
  {
    InsertedLast(sorted, row);
    BesidesOfLast(sorted, row, ids);
    BesidesMembers(sorted, ids);
    InsertedLast(Besides(sorted, ids), row);
  }

  lemma {:induction false} InsertedBesides(sorted: seq<Row>, row: Row, ids: set<int>)
    requires Ascending(sorted)
    ensures Besides(Inserted(sorted, row), ids) ==
            if row.id in ids then Besides(sorted, ids) else Inserted(Besides(sorted, ids), row)
  {
    if sorted == [] {
      InsertedLastBesides(sorted, row, ids);
    } else if sorted[|sorted| - 1].sequence <= row.sequence {
      LastOfAscending(sorted, row);
      InsertedLastBesides(sorted, row, ids);
    } else {
      var front, last := sorted[..|sorted| - 1], sorted[|sorted| - 1];
      assert sorted == front + [last];
      InsertedBesides(front, row, ids);
      InsertedBefore(front, last, row);
      BesidesOfLast(front, last, ids);
      BesidesOfLast(Inserted(front, row), last, ids);
      InsertedBefore(Besides(front, ids), last, row);
    }
  }

  // Removing rows and sorting can be exchanged.
  lemma {:induction false} SortedBesides(rows: seq<Row>, ids: set<int>)
    ensures Sorted(Besides(rows, ids)) == Besides(Sorted(rows), ids)
  {
    if rows != [] {
      var front, last := rows[..|rows| - 1], rows[|rows| - 1];
      assert rows == front + [last];
      SortedBesides(front, ids);
      SortedAscends(front);
      InsertedBesides(Sorted(front), last, ids);
      BesidesOfLast(front, last, ids);
      var b := Besides(front, ids);
      assert (b + [last])[..|b|] == b;
    }
  }

  lemma TotalOfLast(front: seq<Row>, last: Row)
    ensures Total(front + [last]) == Total(front) + last.size
  {
    assert (front + [last])[..|front|] == front;
  }

  lemma {:induction false} InsertedTotal(sorted: seq<Row>, row: Row)
    ensures Total(Inserted(sorted, row)) == Total(sorted) + row.size
  {
    if sorted == [] || sorted[|sorted| - 1].sequence <= row.sequence {
      TotalOfLast(sorted, row);
    } else {
      var front, last := sorted[..|sorted| - 1], sorted[|sorted| - 1];
      InsertedTotal(front, row);
      TotalOfLast(Inserted(front, row), last);
    }
  }

  lemma {:induction false} SortedTotal(rows: seq<Row>)
    ensures Total(Sorted(rows)) == Total(rows)
  {
    if rows != [] {
      SortedTotal(rows[..|rows| - 1]);
      InsertedTotal(Sorted(rows[..|rows| - 1]), rows[|rows| - 1]);
    }
  }

  // A row put behind the others is read last exactly when none of them is numbered
  // higher.
  lemma SortedLastExactly(rows: seq<Row>, row: Row)
    ensures Sorted(rows + [row]) == Sorted(rows) + [row] <==> forall r :: r in rows ==> r.sequence <= row.sequence
  {
    var sorted := Sorted(rows);
    assert (rows + [row])[..|rows|] == rows;
    SortedMembers(rows);
    SortedAscends(rows);
    if sorted != [] && row.sequence < sorted[|sorted| - 1].sequence {
      var last := sorted[|sorted| - 1];
      assert last in sorted;
      var got := Inserted(sorted, row);
      assert got[|got| - 1] == last && (sorted + [row])[|sorted|] == row;
    } else {
      forall r | r in rows
        ensures r.sequence <= row.sequence
      {
        var i :| 0 <= i < |sorted| && sorted[i] == r;
      }
    }
  }

  // --- Operations ---------------------------------------------------------

  datatype Op =
    | Add(pair: Pair, size: nat, id: int, ending: Ending)
    | FlushAll(now: int)
    | FlushSome(ids: set<int>, at: int)
    | Delete(target: int)
    | Restart

  ghost function Apply(s: State, op: Op): State {
    match op
    case Add(pair, size, id, ending) => Added(s, pair, size, id, ending)
    case FlushAll(now) => FlushedAll(s, now)
    case FlushSome(ids, now) => FlushedSelected(s, ids, now)
    case Delete(id) => Deleted(s, id)
    case Restart => s.(cached := None)
  }

  ghost function States(s: State, ops: seq<Op>): State
    decreases |ops|
  {
    if ops == [] then s else States(Apply(s, ops[0]), ops[1..])
  }
}
