// switch_backend of core/buffer/__init__.py: carrying the pairs in flight from one
// buffer store to the other.

module BackendSwitch {
  import opened Options
  import opened BufferStore
  import opened BufferAccounts

  // What of a row a copy keeps.
  function Copied(rows: seq<Row>): seq<(Pair, nat)> {
    if rows == [] then []
    else Copied(rows[..|rows| - 1]) + [(rows[|rows| - 1].pair, rows[|rows| - 1].size)]
  }

  // The queue of a device, as its reader sees it.
  function Queue(s: State): seq<(Pair, nat)> {
    Copied(BufferPairs(s))
  }

  // No sequence cache is behind its table, as in a store just made.
  ghost predicate ReadyAt(devices: map<string, State>, device: string) {
    CachedIsAbove(Of(devices, device))
  }

  ghost predicate Ready(devices: map<string, State>) {
    forall d :: ReadyAt(devices, d)
  }

  // Whatever was right about counter, keys and order still is.
  ghost predicate SoundKept(s: State, n: State) {
    && (Accounts(s) ==> Accounts(n))
    && (Increasing(s.rows) ==> Increasing(n.rows))
  }

  lemma {:induction false} CopiedAppend(a: seq<Row>, b: seq<Row>)
    ensures Copied(a + b) == Copied(a) + Copied(b)
  {
    if b == [] {
      assert a + b == a;
    } else {
      assert (a + b)[..|a + b| - 1] == a + b[..|b| - 1];
      CopiedAppend(a, b[..|b| - 1]);
    }
  }

  lemma CopiedStep(rows: seq<Row>, i: nat)
    requires i < |rows|
    ensures Copied(rows[..i + 1]) == Copied(rows[..i]) + [(rows[i].pair, rows[i].size)]
  {
    assert rows[..i + 1][..i] == rows[..i];
  }

  lemma CopiedOne(row: Row)
    ensures Copied([row]) == [(row.pair, row.size)]
  {
    assert Copied([row][..0]) == [];
  }

  lemma ReadyWith(devices: map<string, State>, device: string, s: State)
    requires Ready(devices) && CachedIsAbove(s)
    ensures Ready(devices[device := s])
  {
    var after := devices[device := s];
    forall d
      ensures ReadyAt(after, d)
    {
      assert ReadyAt(devices, d);
    }
  }

  // An add that commits puts a copy of the row behind the queue; one that fails
  // leaves the queue alone.
  lemma CopyStep(s: State, row: Row, id: int, ending: Ending)
    requires CachedIsAbove(s) && id !in Ids(s.rows) && ending != Cancel
    ensures var n := Added(s, row.pair, row.size, id, ending);
            && CachedIsAbove(n) && SoundKept(s, n)
            && Queue(n) == Queue(s) + (if ending == Commit then [(row.pair, row.size)] else [])
  {
    CopyIsSound(s, row, id, ending);
    if ending == Commit {
      var copy := NewRow(s, row.pair, row.size, id);
      NextIsAboveExactly(s);
      PendingMembers(s.rows);
      AddReadLastExactly(s, row.pair, row.size, id);
      CopiedAppend(BufferPairs(s), [copy]);
      CopiedOne(copy);
    }
  }

  lemma CopyIsSound(s: State, row: Row, id: int, ending: Ending)
    requires CachedIsAbove(s) && id !in Ids(s.rows) && ending != Cancel
    ensures var n := Added(s, row.pair, row.size, id, ending);
            CachedIsAbove(n) && SoundKept(s, n)
  {
    if Accounts(s) {
      AddKeeps(s, row.pair, row.size, id, ending);
    }
    if Increasing(s.rows) {
      AddKeepsOrderExactly(s, row.pair, row.size, id, ending);
    }
    if ending == Commit {
      NextIsAboveExactly(s);
      AddedIsAbove(s, NewRow(s, row.pair, row.size, id));
    }
  }

  lemma FlushStep(s: State, now: int)
    ensures SoundKept(s, FlushedAll(s, now)) && Queue(FlushedAll(s, now)) == []
  {
    FlushKeeps(s, now);
    MarkedRows(s.rows, Ids(s.rows), now);
  }

  // What a switch may make of a device: `o0` and `n0` become `o` and `n`. The queue
  // of `o0` was moved behind that of `n0`, or it is still where it was.
  ghost predicate Moved(o0: State, n0: State, o: State, n: State) {
    && Queue(n) == Queue(n0) + Queue(o0) && Queue(o) == []
    && SoundKept(o0, o) && SoundKept(n0, n)
  }

  ghost predicate Kept(o0: State, n0: State, o: State, n: State) {
    o == o0 && Queue(n0) <= Queue(n) && SoundKept(n0, n)
  }

  // Either way, a pair that was waiting still waits in one of the stores.
  lemma NoneLost(o0: State, n0: State, o: State, n: State, p: (Pair, nat))
    requires Queue(n) == Queue(n0) + Queue(o0) || (Queue(o) == Queue(o0) && Queue(n0) <= Queue(n))
    requires p in Queue(o0) || p in Queue(n0)
    ensures p in Queue(o) || p in Queue(n)
  {
  }

  ghost predicate OthersKept(before: map<string, State>, after: map<string, State>, device: string) {
    forall d :: d != device ==> Of(after, d) == Of(before, d)
  }

  // The first `k` pairs are behind the queue of the device; nothing else changed.
  ghost predicate CopiedSoFar(
    before: map<string, State>, after: map<string, State>, device: string, pending: seq<Row>, k: nat)
    requires k <= |pending|
  {
    && Ready(after) && OthersKept(before, after, device)
    && SoundKept(Of(before, device), Of(after, device))
    && Queue(Of(after, device)) == Queue(Of(before, device)) + Copied(pending[..k])
  }

  // `after` is `mid` with a row more for the device, or with a failed try.
  ghost predicate OneMore(
    mid: map<string, State>, after: map<string, State>, device: string, row: Row, id: int, ending: Ending)
  {
    && id !in Ids(Of(mid, device).rows) && ending != Cancel
    && after == mid[device := Added(Of(mid, device), row.pair, row.size, id, ending)]
  }

  lemma CopyRound(
    before: map<string, State>, mid: map<string, State>, after: map<string, State>,
    device: string, pending: seq<Row>, k: nat, id: int, ending: Ending)
    requires k < |pending| && CopiedSoFar(before, mid, device, pending, k)
    requires OneMore(mid, after, device, pending[k], id, ending)
    ensures CopiedSoFar(before, after, device, pending, if ending == Commit then k + 1 else k)
  {
    RoundReady(mid, after, device, pending[k], id, ending);
    RoundSound(Of(before, device), mid, after, device, pending[k], id, ending);
    RoundQueue(mid, after, device, pending[k], id, ending);
    if ending == Commit {
      CopiedMore(Queue(Of(before, device)), pending, k);
    }
  }

  lemma RoundReady(
    mid: map<string, State>, after: map<string, State>, device: string, row: Row, id: int, ending: Ending)
    requires Ready(mid) && OneMore(mid, after, device, row, id, ending)
    ensures Ready(after)
  {
    var n := CopyOne(mid, device, row, id, ending);
    ReadyWith(mid, device, n);
  }

  lemma RoundSound(
    s: State, mid: map<string, State>, after: map<string, State>, device: string, row: Row, id: int, ending: Ending)
    requires Ready(mid) && SoundKept(s, Of(mid, device)) && OneMore(mid, after, device, row, id, ending)
    ensures SoundKept(s, Of(after, device))
  {
    var n := CopyOne(mid, device, row, id, ending);
  }

  lemma RoundQueue(
    mid: map<string, State>, after: map<string, State>, device: string, row: Row, id: int, ending: Ending)
    requires Ready(mid) && OneMore(mid, after, device, row, id, ending)
    ensures Queue(Of(after, device)) ==
            if ending == Commit then Queue(Of(mid, device)) + [(row.pair, row.size)] else Queue(Of(mid, device))
  {
    var n := CopyOne(mid, device, row, id, ending);
  }

  lemma CopyOne(devices: map<string, State>, device: string, row: Row, id: int, ending: Ending) returns (n: State)
    requires Ready(devices) && id !in Ids(Of(devices, device).rows) && ending != Cancel
    ensures n == Added(Of(devices, device), row.pair, row.size, id, ending)
    ensures CachedIsAbove(n) && SoundKept(Of(devices, device), n)
    ensures Queue(n) == Queue(Of(devices, device)) + if ending == Commit then [(row.pair, row.size)] else []
  {
    assert ReadyAt(devices, device);
    n := Added(Of(devices, device), row.pair, row.size, id, ending);
    CopyStep(Of(devices, device), row, id, ending);
  }

  lemma CopiedMore(queue: seq<(Pair, nat)>, rows: seq<Row>, i: nat)
    requires i < |rows|
    ensures queue + Copied(rows[..i + 1]) == queue + Copied(rows[..i]) + [(rows[i].pair, rows[i].size)]
  {
    CopiedStep(rows, i);
  }

  // The copy loop. `budget` is how many store operations succeed before one raises.
  method CopyPairs(newStore: SqlAlchemyBufferStore, device: string, pending: seq<Row>, budget: nat)
    returns (copied: nat)
    requires Ready(newStore.devices)
    modifies newStore
    ensures copied == if |pending| < budget then |pending| else budget
    ensures copied <= |pending| && CopiedSoFar(old(newStore.devices), newStore.devices, device, pending, copied)
  {
    copied := 0;
    ghost var before := newStore.devices;
    assert Copied(pending[..0]) == [] && Queue(Of(before, device)) + [] == Queue(Of(before, device));
    while copied < |pending|
      invariant copied <= |pending| && copied <= budget
      invariant CopiedSoFar(before, newStore.devices, device, pending, copied)
    {
      ghost var mid := newStore.devices;
      var row, id := pending[copied], NextRowId(Of(newStore.devices, device).rows);
      var ending := if copied == budget then Fail else Commit;
      var _ := newStore.AddPair(device, row.pair, row.size, id, ending);
      CopyRound(before, mid, newStore.devices, device, pending, copied, id, ending);
      if ending == Fail {
        return;
      }
      copied := copied + 1;
    }
  }

  // The copies are all there and the old queue is marked flushed.
  lemma MoveDone(before: Stores, after: Stores, device: string, now: int)
    requires after.o == before.o[device := FlushedAll(Of(before.o, device), now)]
    requires Queue(Of(after.n, device)) == Queue(Of(before.n, device)) + Queue(Of(before.o, device))
    requires SoundKept(Of(before.n, device), Of(after.n, device))
    ensures OthersKept(before.o, after.o, device)
    ensures DeviceMoved(before, after, device)
  {
    FlushStep(Of(before.o, device), now);
  }

  // The store operations a device takes: one add for each pair and the flush.
  function Cost(s: State): nat {
    Price(|BufferPairs(s)|)
  }

  function Price(load: nat): nat {
    if load == 0 then 0 else load + 1
  }

  // The devices of both stores, before and after.
  datatype Stores = Stores(o: map<string, State>, n: map<string, State>)

  ghost predicate DeviceMoved(before: Stores, after: Stores, d: string) {
    Moved(Of(before.o, d), Of(before.n, d), Of(after.o, d), Of(after.n, d))
  }

  ghost predicate DeviceKept(before: Stores, after: Stores, d: string) {
    Kept(Of(before.o, d), Of(before.n, d), Of(after.o, d), Of(after.n, d))
  }

  ghost predicate Untouched(before: Stores, after: Stores, d: string) {
    Of(after.o, d) == Of(before.o, d) && Of(after.n, d) == Of(before.n, d)
  }

  // One round of the device loop: copy the queue, then mark the old one flushed.
  method MoveDevice(
    oldStore: SqlAlchemyBufferStore, newStore: SqlAlchemyBufferStore, device: string, budget: nat, now: int)
    returns (ok: bool, pairs: nat, left: nat)
    requires oldStore != newStore && Ready(newStore.devices)
    modifies oldStore, newStore
    ensures Ready(newStore.devices)
    ensures var before := old(Stores(oldStore.devices, newStore.devices));
            var after := Stores(oldStore.devices, newStore.devices);
            var o0 := Of(before.o, device);
            && OthersKept(before.o, after.o, device) && OthersKept(before.n, after.n, device)
            && (ok <==> Cost(o0) <= budget)
            && if ok then
                 && DeviceMoved(before, after, device)
                 && pairs == |BufferPairs(o0)| && left == budget - Cost(o0)
               else DeviceKept(before, after, device)
  {
    ghost var before := Stores(oldStore.devices, newStore.devices);
    left, pairs := budget, 0;
    var pending := oldStore.GetBufferPairs(device);
    if pending == [] {
      return true, 0, left;
    }
    pairs := CopyPairs(newStore, device, pending, left);
    left := left - pairs;
    if left == 0 {
      return false, pairs, left;
    }
    assert pending[..pairs] == pending;
    left := left - 1;
    var _ := oldStore.Flush(device, now);
    MoveDone(before, Stores(oldStore.devices, newStore.devices), device, now);
    ok := true;
  }

  // --- The device loop ----------------------------------------------------

  // How many pairs wait in each of the devices listed.
  ghost function Loads(devices: map<string, State>, ds: seq<string>): (loads: seq<nat>)
    ensures |loads| == |ds|
  {
    seq(|ds|, i requires 0 <= i < |ds| => Load(devices, ds[i]))
  }

  ghost function Load(devices: map<string, State>, device: string): nat {
    |BufferPairs(Of(devices, device))|
  }

  // The pairs waiting in the first `k` devices, and how many of these have any.
  ghost function Sum(loads: seq<nat>, k: nat): nat
    requires k <= |loads|
  {
    if k == 0 then 0 else Sum(loads, k - 1) + loads[k - 1]
  }

  ghost function NonZero(loads: seq<nat>, k: nat): nat
    requires k <= |loads|
  {
    if k == 0 then 0 else NonZero(loads, k - 1) + if loads[k - 1] == 0 then 0 else 1
  }

  // The store operations the first `k` devices take.
  ghost function Spent(loads: seq<nat>, k: nat): nat
    requires k <= |loads|
  {
    Sum(loads, k) + NonZero(loads, k)
  }

  lemma {:induction false} SpentGrows(loads: seq<nat>, i: nat, k: nat)
    requires i <= k <= |loads|
    ensures Spent(loads, i) <= Spent(loads, k)
    decreases k
  {
    if i < k {
      SpentGrows(loads, i, k - 1);
    }
  }

  // The books after `i` devices.
  ghost predicate Counted(loads: seq<nat>, i: nat, pairs: nat, devices: nat, left: nat, budget: nat)
    requires i <= |loads|
  {
    pairs == Sum(loads, i) && devices == NonZero(loads, i) && pairs + devices + left == budget
  }

  // The books at the end: the devices moved are as many of the first ones as the budget
  // pays for.
  ghost predicate Booked(loads: seq<nat>, budget: nat, ok: bool, moved: nat, pairs: nat, devices: nat) {
    && moved <= |loads| && (ok <==> moved == |loads|)
    && pairs == Sum(loads, moved) && devices == NonZero(loads, moved)
    && Spent(loads, moved) <= budget
    && (!ok ==> budget < Spent(loads, moved + 1))
  }

  // The loop succeeds exactly when the budget lasts.
  lemma SucceedsExactly(loads: seq<nat>, budget: nat, ok: bool, moved: nat, pairs: nat, devices: nat)
    requires Booked(loads, budget, ok, moved, pairs, devices)
    ensures ok <==> Spent(loads, |loads|) <= budget
  {
    if !ok {
      SpentGrows(loads, moved + 1, |loads|);
    }
  }

  // It moves nothing exactly when the budget does not last for the first device.
  lemma MovesNothingExactly(loads: seq<nat>, budget: nat, ok: bool, moved: nat, pairs: nat, devices: nat)
    requires Booked(loads, budget, ok, moved, pairs, devices) && loads != []
    ensures moved == 0 <==> budget < Price(loads[0])
  {
    assert Spent(loads, 0) == 0 && Spent(loads, 1) == Price(loads[0]);
    if moved > 0 {
      SpentGrows(loads, 1, moved);
    }
  }

  // What the loop makes of a device: the first `moved` listed are moved; the next one,
  // if the loop stopped there, has its old queue still; all others are untouched.
  ghost predicate Outcome(before: Stores, after: Stores, ds: seq<string>, moved: nat, stopped: bool, d: string)
    requires moved <= |ds|
  {
    if d in ds[..moved] then DeviceMoved(before, after, d)
    else if stopped && moved < |ds| && d == ds[moved] then DeviceKept(before, after, d)
    else Untouched(before, after, d)
  }

  ghost predicate Progress(before: Stores, after: Stores, ds: seq<string>, moved: nat, stopped: bool)
    requires moved <= |ds|
  {
    forall d :: Outcome(before, after, ds, moved, stopped, d)
  }

  // The first `i` devices are done and the new store can take more.
  ghost predicate UnderWay(before: Stores, after: Stores, ds: seq<string>, i: nat)
    requires i <= |ds|
  {
    Ready(after.n) && Progress(before, after, ds, i, false)
  }

  ghost predicate Finished(before: Stores, after: Stores, ds: seq<string>, moved: nat, ok: bool)
    requires moved <= |ds|
  {
    Ready(after.n) && Progress(before, after, ds, moved, !ok)
  }

  // A round of the switch, for the device at `i`.
  method SwitchRound(
    oldStore: SqlAlchemyBufferStore, newStore: SqlAlchemyBufferStore, pendingDevices: seq<string>, i: nat,
    budget: nat, now: int, ghost before: Stores)
    returns (ok: bool, pairs: nat, left: nat)
    requires oldStore != newStore
    requires i < |pendingDevices| && Distinct(pendingDevices)
    requires UnderWay(before, Stores(oldStore.devices, newStore.devices), pendingDevices, i)
    modifies oldStore, newStore
    ensures if ok then UnderWay(before, Stores(oldStore.devices, newStore.devices), pendingDevices, i + 1)
            else Finished(before, Stores(oldStore.devices, newStore.devices), pendingDevices, i, false)
    ensures var load := Loads(before.o, pendingDevices)[i];
            && (ok <==> Price(load) <= budget)
            && (ok ==> pairs == load && left == budget - Price(load))
  {
    ghost var mid := Stores(oldStore.devices, newStore.devices);
    Reached(before, mid, pendingDevices, i);
    ok, pairs, left := MoveDevice(oldStore, newStore, pendingDevices[i], budget, now);
    ghost var after := Stores(oldStore.devices, newStore.devices);
    if ok {
      RoundMoves(before, mid, after, pendingDevices, i);
    } else {
      RoundStops(before, mid, after, pendingDevices, i);
    }
  }

  // The device loop, up to the first exception. No device is listed twice.
  method CarryOver(
    oldStore: SqlAlchemyBufferStore, newStore: SqlAlchemyBufferStore, pendingDevices: seq<string>,
    budget: nat, now: int)
    returns (ok: bool, devices: nat, pairs: nat, ghost moved: nat)
    requires oldStore != newStore && Ready(newStore.devices)
    requires Distinct(pendingDevices)
    modifies oldStore, newStore
    ensures moved <= |pendingDevices|
    ensures Finished(
              old(Stores(oldStore.devices, newStore.devices)), Stores(oldStore.devices, newStore.devices),
              pendingDevices, moved, ok)
    ensures Booked(Loads(old(oldStore.devices), pendingDevices), budget, ok, moved, pairs, devices)
  {
    ghost var before := Stores(oldStore.devices, newStore.devices);
    ghost var loads := Loads(before.o, pendingDevices);
    devices, pairs, moved := 0, 0, 0;
    var left := budget;
    var i := 0;
    while i < |pendingDevices|
      invariant 0 <= i <= |pendingDevices|
      invariant Counted(loads, i, pairs, devices, left, budget)
      invariant UnderWay(before, Stores(oldStore.devices, newStore.devices), pendingDevices, i)
    {
      var done, count;
      done, count, left := SwitchRound(oldStore, newStore, pendingDevices, i, left, now, before);
      if !done {
        return false, devices, pairs, i;
      }
      pairs := pairs + count;
      devices := if count > 0 then devices + 1 else devices;
      i := i + 1;
    }
    ok, moved := true, i;
  }

  lemma Reached(before: Stores, mid: Stores, ds: seq<string>, i: nat)
    requires i < |ds| && Distinct(ds)
    requires Progress(before, mid, ds, i, false)
    ensures Untouched(before, mid, ds[i])
    ensures Cost(Of(mid.o, ds[i])) == Cost(Of(before.o, ds[i]))
    ensures |BufferPairs(Of(mid.o, ds[i]))| == |BufferPairs(Of(before.o, ds[i]))|
  {
    assert Outcome(before, mid, ds, i, false, ds[i]);
  }

  // A round that moves its own device and no other.
  lemma RoundMoves(before: Stores, mid: Stores, after: Stores, ds: seq<string>, i: nat)
    requires i < |ds| && Untouched(before, mid, ds[i]) && Ready(after.n)
    requires Progress(before, mid, ds, i, false)
    requires DeviceMoved(mid, after, ds[i]) && OthersKept(mid.o, after.o, ds[i]) && OthersKept(mid.n, after.n, ds[i])
    ensures UnderWay(before, after, ds, i + 1)
  {
    var k := i + 1;
    assert ds[..k] == ds[..i] + [ds[i]];
    forall d
      ensures Outcome(before, after, ds, k, false, d)
    {
      assert Outcome(before, mid, ds, i, false, d);
    }
  }

  // A round that stops half-way.
  lemma RoundStops(before: Stores, mid: Stores, after: Stores, ds: seq<string>, i: nat)
    requires i < |ds| && Untouched(before, mid, ds[i]) && Ready(after.n) && Distinct(ds)
    requires Progress(before, mid, ds, i, false)
    requires DeviceKept(mid, after, ds[i]) && OthersKept(mid.o, after.o, ds[i]) && OthersKept(mid.n, after.n, ds[i])
    ensures Finished(before, after, ds, i, false)
  {
    forall d
      ensures Outcome(before, after, ds, i, true, d)
    {
      assert Outcome(before, mid, ds, i, false, d);
      if d in ds[..i] {
        var k :| 0 <= k < i && ds[..i][k] == d;
        assert ds[k] != ds[i];
      }
    }
  }

  // --- The switch ---------------------------------------------------------

  // switch_backend: list the devices of the old store, carry each over. `candidates`
  // are the registered devices on disk, each once; in RAM mode there are none.
  method SwitchBackend(
    oldStore: SqlAlchemyBufferStore, newStore: SqlAlchemyBufferStore, candidates: Option<seq<string>>,
    budget: nat, now: int)
    returns (ok: bool, devices: nat, pairs: nat, ghost listed: seq<string>, ghost moved: nat)
    requires oldStore != newStore && Ready(newStore.devices)
    requires candidates.Some? ==> Distinct(candidates.value)
    modifies oldStore, newStore
    ensures Lists(listed, old(oldStore.devices), candidates) && moved <= |listed|
    ensures Finished(
              old(Stores(oldStore.devices, newStore.devices)), Stores(oldStore.devices, newStore.devices),
              listed, moved, ok)
    ensures Booked(Loads(old(oldStore.devices), listed), budget, ok, moved, pairs, devices)
  {
    var pending := oldStore.PendingDeviceIds(candidates);
    listed := pending;
    ok, devices, pairs, moved := CarryOver(oldStore, newStore, pending, budget, now);
  }

  lemma NothingPending(s: State)
    ensures Pending(s.rows) == [] <==> Queue(s) == []
  {
    SortedLength(Pending(s.rows));
  }

  // A switch that succeeds leaves every old queue empty exactly when every device with
  // something pending is a candidate: always in RAM mode, and on disk when the registry
  // knows them all. It moves every candidate.
  lemma OldQueuesEmptyExactly(before: Stores, after: Stores, candidates: Option<seq<string>>, listed: seq<string>)
    requires Lists(listed, before.o, candidates) && Finished(before, after, listed, |listed|, true)
    ensures forall d :: IsCandidate(candidates, d) ==> DeviceMoved(before, after, d)
    ensures (forall d :: Queue(Of(after.o, d)) == []) <==>
            (forall d :: Queue(Of(before.o, d)) != [] ==> IsCandidate(candidates, d))
  {
    assert listed[..|listed|] == listed;
    forall d
      ensures IsCandidate(candidates, d) ==> DeviceMoved(before, after, d)
      ensures !IsCandidate(candidates, d) ==> Queue(Of(after.o, d)) == Queue(Of(before.o, d))
    {
      assert Outcome(before, after, listed, |listed|, false, d);
      NothingPending(Of(before.o, d));
    }
  }

  // However it ends, no pair that waited anywhere is lost.
  lemma SwitchLosesNothing(
    before: Stores, after: Stores, listed: seq<string>, moved: nat, ok: bool, d: string, p: (Pair, nat))
    requires moved <= |listed| && Finished(before, after, listed, moved, ok)
    requires p in Queue(Of(before.o, d)) || p in Queue(Of(before.n, d))
    ensures p in Queue(Of(after.o, d)) || p in Queue(Of(after.n, d))
  {
    assert Outcome(before, after, listed, moved, !ok, d);
    if DeviceMoved(before, after, d) || DeviceKept(before, after, d) {
      NoneLost(Of(before.o, d), Of(before.n, d), Of(after.o, d), Of(after.n, d), p);
    }
  }

  // A switch that fails leaves the old queues where they were, as its documentation
  // says, exactly when the budget does not last for the first device.
  lemma FailureUndoneExactly(
    before: Stores, after: Stores, candidates: Option<seq<string>>, listed: seq<string>, budget: nat,
    moved: nat, pairs: nat, devices: nat)
    requires Lists(listed, before.o, candidates) && moved < |listed|
    requires Finished(before, after, listed, moved, false)
    requires Booked(Loads(before.o, listed), budget, false, moved, pairs, devices)
    ensures OldQueuesKept(before, after) <==> budget < Price(Load(before.o, listed[0]))
  {
    MovesNothingExactly(Loads(before.o, listed), budget, false, moved, pairs, devices);
    if moved > 0 {
      var d := listed[0];
      assert listed[..moved][0] == d;
      assert d in listed && Outcome(before, after, listed, moved, true, d);
      NothingPending(Of(before.o, d));
      assert !OldQueueKept(before, after, d);
    } else {
      forall d
        ensures OldQueueKept(before, after, d)
      {
        assert Outcome(before, after, listed, moved, true, d);
      }
    }
  }

  ghost predicate OldQueueKept(before: Stores, after: Stores, d: string) {
    Queue(Of(after.o, d)) == Queue(Of(before.o, d))
  }

  ghost predicate OldQueuesKept(before: Stores, after: Stores) {
    forall d :: OldQueueKept(before, after, d)
  }
}
