// DNS discovery: counting queries in memory (DNSDiscoveryRecorder in
// core/dns_discovery.py) and moving the counts to the log (record_dns_queries and
// clear_dns_queries in core/database.py).

module DnsDiscovery {
  datatype Key = Key(client: string, hostname: string, qtype: string)

  datatype Counters = Counters(hits: nat, first: int, last: int, status: string)

  type Table = map<Key, Counters>

  datatype Observation = Observation(key: Key, counters: Counters)

  // An observed query that is to be counted.
  datatype Note = Note(key: Key, status: string, at: int)

  // --- Updates ------------------------------------------------------------

  predicate Accepted(pairs: Table, maxRows: nat, note: Note) {
    note.key in pairs || |pairs| < maxRows
  }

  function Noted(pairs: Table, maxRows: nat, note: Note): Table {
    if !Accepted(pairs, maxRows, note) then pairs
    else if note.key !in pairs then pairs[note.key := Counters(1, note.at, note.at, note.status)]
    else
      var c := pairs[note.key];
      pairs[note.key := c.(hits := c.hits + 1, last := note.at, status := note.status)]
  }

  function NotedAll(pairs: Table, maxRows: nat, notes: seq<Note>): Table {
    if notes == [] then pairs
    else Noted(NotedAll(pairs, maxRows, notes[..|notes| - 1]), maxRows, notes[|notes| - 1])
  }

  // The notes turned away because the table is full.
  function Rejected(pairs: Table, maxRows: nat, notes: seq<Note>): nat {
    if notes == [] then 0
    else
      var front, last := notes[..|notes| - 1], notes[|notes| - 1];
      Rejected(pairs, maxRows, front) + if Accepted(NotedAll(pairs, maxRows, front), maxRows, last) then 0 else 1
  }

  function Min(a: int, b: int): int { if a < b then a else b }

  function Max(a: int, b: int): int { if a < b then b else a }

  // What _merge_back leaves of one key: `older` was not written.
  function MergedCounters(newer: Counters, older: Counters): Counters {
    Counters(newer.hits + older.hits, Min(newer.first, older.first), Max(newer.last, older.last), older.status)
  }

  function MergedKey(pairs: Table, k: Key, older: Counters): Table {
    pairs[k := if k in pairs then MergedCounters(pairs[k], older) else older]
  }

  function MergedBack(pairs: Table, pending: Table): Table {
    map k | k in pairs.Keys + pending.Keys ::
      if k !in pairs then pending[k]
      else if k !in pending then pairs[k]
      else MergedCounters(pairs[k], pending[k])
  }

  // `hit_count or 1`.
  function OrOne(n: nat): nat { if n == 0 then 1 else n }

  function CollapsedOne(merged: Table, obs: Observation): Table {
    if obs.key !in merged then merged[obs.key := obs.counters]
    else
      var c := merged[obs.key];
      merged[obs.key := Counters(OrOne(c.hits) + OrOne(obs.counters.hits), Min(c.first, obs.counters.first),
                                 Max(c.last, obs.counters.last), obs.counters.status)]
  }

  function Collapsed(observations: seq<Observation>): Table {
    if observations == [] then map[]
    else CollapsedOne(Collapsed(observations[..|observations| - 1]), observations[|observations| - 1])
  }

  // INSERT .. ON CONFLICT DO UPDATE: the row keeps its first_seen.
  function Upserted(rows: Table, batch: Table): Table {
    map k | k in rows.Keys + batch.Keys ::
      if k !in batch then rows[k]
      else if k !in rows then batch[k]
      else Counters(rows[k].hits + batch[k].hits, rows[k].first, batch[k].last, batch[k].status)
  }

  // --- The log and the recorder -------------------------------------------

  class DnsQueryLog {
    var rows: Table

    constructor ()
      ensures rows == map[]
    {
      rows := map[];
    }

    method RecordDnsQueries(observations: seq<Observation>) returns (written: nat)
      modifies this
      ensures rows == Upserted(old(rows), Collapsed(observations))
      ensures written == |observations|
    {
      var batch := CollapseDnsObservations(observations);
      rows := Upserted(rows, batch);
      written := |observations|;
    }

    method ClearDnsQueries() returns (count: nat)
      modifies this
      ensures rows == map[] && count == |old(rows)|
    {
      count := |rows|;
      rows := map[];
    }
  }

  method CollapseDnsObservations(observations: seq<Observation>) returns (merged: Table)
    ensures merged == Collapsed(observations)
  {
    merged := map[];
    var i := 0;
    while i < |observations|
      invariant 0 <= i <= |observations|
      invariant merged == Collapsed(observations[..i])
    {
      var obs := observations[i];
      assert observations[..i + 1][..i] == observations[..i];
      if obs.key !in merged {
        merged := merged[obs.key := obs.counters];
      } else {
        var c := merged[obs.key];
        merged := merged[obs.key :=
          Counters(OrOne(c.hits) + OrOne(obs.counters.hits), Min(c.first, obs.counters.first),
                   Max(c.last, obs.counters.last), obs.counters.status)];
      }
      i := i + 1;
    }
    assert observations[..i] == observations;
  }

  // How the write of a batch ends.
  datatype Ending = Success | Failure | Cancelled

  class DNSDiscoveryRecorder {
    const maxRows: nat
    var pairs: Table
    var droppedPairs: nat
    var flushedPairs: nat
    var flushErrors: nat

    constructor (maxRows: nat)
      ensures this.maxRows == maxRows && pairs == map[]
      ensures droppedPairs == flushedPairs == flushErrors == 0
    {
      this.maxRows := maxRows;
      pairs := map[];
      droppedPairs, flushedPairs, flushErrors := 0, 0, 0;
    }

    method Observe(note: Note)
      modifies this
      ensures pairs == Noted(old(pairs), maxRows, note)
      ensures droppedPairs ==
              old(droppedPairs) + if note.key in old(pairs) || |old(pairs)| < maxRows then 0 else 1
      ensures flushedPairs == old(flushedPairs) && flushErrors == old(flushErrors)
    {
      if note.key !in pairs {
        if |pairs| >= maxRows {
          droppedPairs := droppedPairs + 1;
          return;
        }
        pairs := pairs[note.key := Counters(1, note.at, note.at, note.status)];
        return;
      }
      var c := pairs[note.key];
      pairs := pairs[note.key := c.(hits := c.hits + 1, last := note.at, status := note.status)];
    }

    // What arrives during a flush.
    method ObserveAll(notes: seq<Note>)
      modifies this
      ensures pairs == NotedAll(old(pairs), maxRows, notes)
      ensures droppedPairs == old(droppedPairs) + Rejected(old(pairs), maxRows, notes)
      ensures flushedPairs == old(flushedPairs) && flushErrors == old(flushErrors)
    {
      var i := 0;
      while i < |notes|
        invariant 0 <= i <= |notes|
        invariant pairs == NotedAll(old(pairs), maxRows, notes[..i])
        invariant droppedPairs == old(droppedPairs) + Rejected(old(pairs), maxRows, notes[..i])
        invariant flushedPairs == old(flushedPairs) && flushErrors == old(flushErrors)
      {
        assert notes[..i + 1][..i] == notes[..i];
        Observe(notes[i]);
        i := i + 1;
      }
      assert notes[..i] == notes;
    }

    method MergeBack(pending: Table)
      modifies this`pairs
      ensures pairs == MergedBack(old(pairs), pending)
    {
      var keys := pending.Keys;
      ghost var done: set<Key> := {};
      ghost var before := pairs;
      while keys != {}
        invariant keys + done == pending.Keys && keys !! done
        invariant pairs == MergedBack(before, Part(pending, done))
        decreases |keys|
      {
        var k :| k in keys;
        MergeOne(before, pending, done, k);
        pairs := MergedKey(pairs, k, pending[k]);
        done := done + {k};
        keys := keys - {k};
      }
      assert Part(pending, done) == pending;
    }

    // One flush under the recorder's lock; `traffic` arrives while the batch is
    // being written. Without a sink the counters go straight back.
    method Flush(sink: DnsQueryLog?, traffic: seq<Note>, ending: Ending) returns (written: nat)
      modifies this, sink
      ensures sink != null && old(pairs) != map[] && ending == Success ==>
                && pairs == NotedAll(map[], maxRows, traffic)
                && sink.rows == Upserted(old(sink.rows), old(pairs))
                && written == |old(pairs)| && flushedPairs == old(flushedPairs) + written
                && flushErrors == old(flushErrors)
                && droppedPairs == old(droppedPairs) + Rejected(map[], maxRows, traffic)
      ensures sink != null && old(pairs) != map[] && ending != Success ==>
                && pairs == MergedBack(NotedAll(map[], maxRows, traffic), old(pairs))
                && sink.rows == old(sink.rows)
                && written == 0 && flushedPairs == old(flushedPairs)
                && flushErrors == old(flushErrors) + (if ending == Failure then 1 else 0)
                && droppedPairs == old(droppedPairs) + Rejected(map[], maxRows, traffic)
      ensures sink == null || old(pairs) == map[] ==>
                && pairs == old(pairs) && written == 0 && flushedPairs == old(flushedPairs)
                && flushErrors == old(flushErrors) && droppedPairs == old(droppedPairs)
                && (sink != null ==> sink.rows == old(sink.rows))
    {
      if pairs == map[] {
        return 0;
      }
      var pending := pairs;
      pairs := map[];
      if sink == null {
        MergeBack(pending);
        return 0;
      }
      var observations := AsObservations(pending);
      ObserveAll(traffic);
      if ending == Success {
        written := sink.RecordDnsQueries(observations);
        ListedCollapses(observations, pending);
        ListedLength(observations, pending);
        flushedPairs := flushedPairs + |observations|;
      } else {
        MergeBack(pending);
        flushErrors := flushErrors + if ending == Failure then 1 else 0;
        written := 0;
      }
    }

    // clear(): memory first, then the log, which may fail.
    method Clear(sink: DnsQueryLog?, fails: bool) returns (count: nat)
      modifies this, sink
      ensures pairs == map[]
      ensures sink != null ==> sink.rows == if fails then old(sink.rows) else map[]
      ensures count == if sink == null || fails then 0 else |old(sink.rows)|
      ensures flushErrors == old(flushErrors) + (if sink != null && fails then 1 else 0)
      ensures droppedPairs == old(droppedPairs) && flushedPairs == old(flushedPairs)
    {
      pairs := map[];
      if sink == null {
        return 0;
      }
      if fails {
        flushErrors := flushErrors + 1;
        return 0;
      }
      count := sink.ClearDnsQueries();
    }
  }

  // A query is counted when its key is known or there is room for one more: one hit and
  // the latest sighting and status, on its own key alone. Otherwise nothing changes.
  lemma ObservedExactly(pairs: Table, maxRows: nat, note: Note)
    ensures var n := Noted(pairs, maxRows, note);
            if note.key in pairs || |pairs| < maxRows then
              && n.Keys == pairs.Keys + {note.key}
              && n[note.key].hits == (if note.key in pairs then pairs[note.key].hits + 1 else 1)
              && n[note.key].first == (if note.key in pairs then pairs[note.key].first else note.at)
              && n[note.key].last == note.at && n[note.key].status == note.status
              && forall k :: k in pairs && k != note.key ==> n[k] == pairs[k]
            else n == pairs
  {
  }

  // A row of the log after a batch: hits add up, the first sighting stays, the last
  // sighting and the status are the batch's; rows the batch does not know stay.
  lemma UpsertedExactly(rows: Table, batch: Table, k: Key)
    ensures k in Upserted(rows, batch) <==> k in rows || k in batch
    ensures k in batch ==>
              var u := Upserted(rows, batch)[k];
              && u.hits == batch[k].hits + (if k in rows then rows[k].hits else 0)
              && u.first == (if k in rows then rows[k].first else batch[k].first)
              && u.last == batch[k].last && u.status == batch[k].status
    ensures k in rows && k !in batch ==> Upserted(rows, batch)[k] == rows[k]
  {
  }

  ghost function Part(t: Table, keys: set<Key>): Table {
    map k | k in t && k in keys :: t[k]
  }

  lemma MergeOne(pairs: Table, pending: Table, done: set<Key>, k: Key)
    requires k in pending && k !in done
    ensures var m := MergedBack(pairs, Part(pending, done));
            MergedBack(pairs, Part(pending, done + {k})) == MergedKey(m, k, pending[k])
  {
  }

  // The observations of a batch, each pair once, in some order.
  ghost predicate Lists(observations: seq<Observation>, batch: Table) {
    && (forall i :: 0 <= i < |observations| ==>
          observations[i].key in batch && batch[observations[i].key] == observations[i].counters)
    && (forall i, j :: 0 <= i < j < |observations| ==> observations[i].key != observations[j].key)
    && (forall k :: k in batch ==> exists i :: 0 <= i < |observations| && observations[i].key == k)
  }

  method AsObservations(batch: Table) returns (observations: seq<Observation>)
    ensures Lists(observations, batch)
  {
    observations := [];
    var keys := batch.Keys;
    while keys != {}
      invariant keys <= batch.Keys
      invariant forall i :: 0 <= i < |observations| ==>
                  && observations[i].key in batch.Keys - keys
                  && batch[observations[i].key] == observations[i].counters
      invariant forall i, j :: 0 <= i < j < |observations| ==> observations[i].key != observations[j].key
      invariant forall k :: k in batch && k !in keys ==> exists i :: 0 <= i < |observations| && observations[i].key == k
      decreases |keys|
    {
      var k :| k in keys;
      ghost var before := observations;
      observations := observations + [Observation(k, batch[k])];
      assert observations[|before|].key == k;
      assert forall i :: 0 <= i < |before| ==> observations[i] == before[i];
      keys := keys - {k};
    }
  }

  lemma {:induction false} CollapsedDistinct(observations: seq<Observation>)
    requires forall i, j :: 0 <= i < j < |observations| ==> observations[i].key != observations[j].key
    ensures forall i :: 0 <= i < |observations| ==>
              && observations[i].key in Collapsed(observations)
              && Collapsed(observations)[observations[i].key] == observations[i].counters
    ensures forall k :: k in Collapsed(observations) ==> exists i :: 0 <= i < |observations| && observations[i].key == k
  {
    if observations != [] {
      var front := observations[..|observations| - 1];
      CollapsedDistinct(front);
      forall k | k in Collapsed(observations)
        ensures exists i :: 0 <= i < |observations| && observations[i].key == k
      {
        if k in Collapsed(front) {
          var i :| 0 <= i < |front| && front[i].key == k;
          assert observations[i].key == k;
        }
      }
    }
  }

  // A batch of the recorder reaches the log as it is.
  lemma ListedCollapses(observations: seq<Observation>, batch: Table)
    requires Lists(observations, batch)
    ensures Collapsed(observations) == batch
  {
    CollapsedDistinct(observations);
    assert Collapsed(observations).Keys == batch.Keys;
  }

  ghost function KeysOf(observations: seq<Observation>): set<Key> {
    if observations == [] then {}
    else KeysOf(observations[..|observations| - 1]) + {observations[|observations| - 1].key}
  }

  lemma {:induction false} KeysOfExactly(observations: seq<Observation>)
    ensures forall k :: k in KeysOf(observations) <==> exists i :: 0 <= i < |observations| && observations[i].key == k
    ensures (forall i, j :: 0 <= i < j < |observations| ==> observations[i].key != observations[j].key) ==>
              |KeysOf(observations)| == |observations|
  {
    if observations != [] {
      var front, last := observations[..|observations| - 1], observations[|observations| - 1];
      assert observations == front + [last];
      KeysOfExactly(front);
    }
  }

  lemma ListedLength(observations: seq<Observation>, batch: Table)
    requires Lists(observations, batch)
    ensures |observations| == |batch|
  {
    KeysOfExactly(observations);
    assert KeysOf(observations) == batch.Keys;
  }

  // The hits of a key, an observation without hits counting as one.
  ghost function HitsIn(observations: seq<Observation>, key: Key): nat {
    if observations == [] then 0
    else
      var last := observations[|observations| - 1];
      HitsIn(observations[..|observations| - 1], key) + if last.key == key then OrOne(last.counters.hits) else 0
  }

  // Collapsing keeps every key's hits; only an observation without hits that stands
  // alone stays without.
  lemma {:induction false} CollapseKeepsHits(observations: seq<Observation>, key: Key)
    ensures key in Collapsed(observations) <==> HitsIn(observations, key) > 0
    ensures key in Collapsed(observations) ==>
              var hits := Collapsed(observations)[key].hits;
              OrOne(hits) == HitsIn(observations, key) && (hits == 0 ==> HitsIn(observations, key) == 1)
  {
    if observations != [] {
      CollapseKeepsHits(observations[..|observations| - 1], key);
    }
  }

  // The observation is the last one of its key.
  ghost predicate LastOf(observations: seq<Observation>, i: nat, key: Key) {
    && i < |observations| && observations[i].key == key
    && forall j :: i < j < |observations| ==> observations[j].key != key
  }

  // It keeps the earliest and the latest sighting of every key, and the status of its
  // last observation.
  lemma {:induction false} CollapseKeepsSightings(observations: seq<Observation>, key: Key)
    requires key in Collapsed(observations)
    ensures var c := Collapsed(observations)[key];
            && (forall o :: o in observations && o.key == key ==>
                  c.first <= o.counters.first && o.counters.last <= c.last)
            && (exists o :: o in observations && o.key == key && o.counters.first == c.first)
            && (exists o :: o in observations && o.key == key && o.counters.last == c.last)
            && exists i: nat :: LastOf(observations, i, key) && observations[i].counters.status == c.status
  {
    var front, last := observations[..|observations| - 1], observations[|observations| - 1];
    assert observations == front + [last];
    if key in Collapsed(front) {
      CollapseKeepsSightings(front, key);
      if last.key != key {
        var i: nat :| LastOf(front, i, key) && front[i].counters.status == Collapsed(front)[key].status;
        assert LastOf(observations, i, key) && observations[i] == front[i];
      }
    } else {
      assert last.key == key;
      CollapseKeepsHits(front, key);
      NoHits(front, key);
    }
    if last.key == key {
      assert LastOf(observations, |front|, key);
    }
  }

  lemma {:induction false} NoHits(observations: seq<Observation>, key: Key)
    requires HitsIn(observations, key) == 0
    ensures forall o :: o in observations ==> o.key != key
  {
    if observations != [] {
      assert observations == observations[..|observations| - 1] + [observations[|observations| - 1]];
      NoHits(observations[..|observations| - 1], key);
    }
  }
}
