// Automatic mode changes (CloudIndependenceVerifier and AutoSwitchScheduler in
// core/resilience.py, update_device_mode and reset_match_counters in
// core/database.py).

module AutoSwitch {
  import opened Options
  import opened MatchTracker

  const ROLLBACK_MATCH_RATE := 9000 // hundredths of a percent
  const MIN_TOTAL_REQUESTS := 50

  datatype Mode = Learning | Production | Hybrid | Passthrough

  // A registered device: its mode, its opt-in, its statistics row and the number of
  // patterns learned for it.
  datatype Device = Device(mode: Mode, auto: bool, stats: Stats, patterns: nat)

  // The part of a device's independence status that decisions use.
  datatype Status = Status(mode: Mode, auto: bool, rate: nat, samples: nat, patterns: nat)

  // The learning settings: opt-in, minimum rate (hundredths) and minimum patterns.
  datatype Settings = Settings(promote: bool, minRate: nat, minPatterns: nat)

  function HitsIn(recent: seq<Sample>): nat {
    if recent == [] then 0
    else HitsIn(recent[..|recent| - 1]) + if recent[|recent| - 1].result == LocalHit then 1 else 0
  }

  function AttemptsIn(recent: seq<Sample>): (n: nat)
    ensures HitsIn(recent) <= n <= |recent|
  {
    if recent == [] then 0
    else AttemptsIn(recent[..|recent| - 1]) + if recent[|recent| - 1].result == Error then 0 else 1
  }

  // _recent_match_rate.
  method RecentMatchRate(recent: seq<Sample>) returns (rate: Option<nat>, samples: nat)
    ensures samples == AttemptsIn(recent)
    ensures rate == if samples == 0 then None else Some(Rate(HitsIn(recent), samples))
  {
    var hits := 0;
    samples := 0;
    var i := 0;
    while i < |recent|
      invariant 0 <= i <= |recent|
      invariant hits == HitsIn(recent[..i]) && samples == AttemptsIn(recent[..i])
    {
      assert recent[..i + 1][..i] == recent[..i];
      if recent[i].result != Error {
        samples := samples + 1;
        if recent[i].result == LocalHit {
          hits := hits + 1;
        }
      }
      i := i + 1;
    }
    assert recent[..i] == recent;
    rate := if samples == 0 then None else Some(Rate(hits, samples));
  }

  // What the device's own database says: the rate and the sample count it is judged by
  // (the rolling window's, or the lifetime ones when the window has no hits or misses)
  // and the number of patterns.
  datatype Evidence = Evidence(rate: nat, samples: nat, patterns: nat)

  function EvidenceOf(stats: Stats, patterns: nat): Evidence {
    var samples := AttemptsIn(stats.recent);
    if samples == 0 then Evidence(stats.rate, stats.total, patterns)
    else Evidence(Rate(HitsIn(stats.recent), samples), samples, patterns)
  }

  // With the registry's row, read later.
  function WithRow(e: Evidence, mode: Mode, auto: bool): Status {
    Status(mode, auto, e.rate, e.samples, e.patterns)
  }

  // A status read without interruption.
  function StatusOf(d: Device): Status {
    WithRow(EvidenceOf(d.stats, d.patterns), d.mode, d.auto)
  }

  predicate Promotes(s: Status, minPatterns: nat, minRate: nat) {
    s.auto && s.patterns >= minPatterns && s.rate >= minRate && s.samples >= MIN_TOTAL_REQUESTS
  }

  predicate RollsBack(s: Status) {
    s.mode == Production && s.auto && s.rate < ROLLBACK_MATCH_RATE && s.samples >= MIN_TOTAL_REQUESTS
  }

  // update_device_mode: a real change zeroes the match counters, unless that fails.
  function WithMode(d: Device, mode: Mode, resets: bool): Device {
    d.(mode := mode, stats := if d.mode != mode && resets then NO_STATS else d.stats)
  }

  // What one scheduler round makes of a device; other modes are left alone.
  function Scheduled(d: Device, settings: Settings, resets: bool): Device {
    if d.mode == Learning then
      if d.auto && settings.promote && Promotes(StatusOf(d), settings.minPatterns, settings.minRate)
      then WithMode(d, Production, resets) else d
    else if RollsBack(StatusOf(d)) then WithMode(d, Learning, resets)
    else d
  }

  // The same when the row may have changed since the device was listed.
  function ListedAs(listed: Device, d: Device, settings: Settings, resets: bool): (r: Device)
    ensures listed == d ==> r == Scheduled(d, settings, resets)
  {
    if listed.mode == Learning then
      if listed.auto && settings.promote && Promotes(StatusOf(d), settings.minPatterns, settings.minRate)
      then WithMode(d, Production, resets) else d
    else if listed.mode == Production && RollsBack(StatusOf(d)) then WithMode(d, Learning, resets)
    else d
  }

  class AutoSwitchScheduler {
    var devices: map<string, Device>

    constructor (devices: map<string, Device>)
      ensures this.devices == devices
    {
      this.devices := devices;
    }

    method UpdateDeviceMode(id: string, mode: Mode, resets: bool) returns (known: bool)
      modifies this
      ensures known <==> id in old(devices)
      ensures devices == if known then old(devices)[id := WithMode(old(devices)[id], mode, resets)] else old(devices)
    {
      if id !in devices {
        return false;
      }
      var changed := devices[id].mode != mode;
      devices := devices[id := devices[id].(mode := mode)];
      if changed {
        ResetMatchCounters(id, resets);
      }
      known := true;
    }

    // The second transaction of a mode change.
    method ResetMatchCounters(id: string, succeeds: bool)
      requires id in devices
      modifies this
      ensures devices ==
              if succeeds then old(devices)[id := old(devices)[id].(stats := NO_STATS)] else old(devices)
    {
      if succeeds {
        devices := devices[id := devices[id].(stats := NO_STATS)];
      }
    }

    method CheckCloudIndependence(id: string) returns (status: Option<Status>)
      ensures status == if id in devices then Some(StatusOf(devices[id])) else None
    {
      if id !in devices {
        return None;
      }
      var d := devices[id];
      var rate, samples := RecentMatchRate(d.stats.recent);
      status := Some(Status(
        d.mode, d.auto, if rate.Some? then rate.value else d.stats.rate,
        if samples != 0 then samples else d.stats.total, d.patterns));
    }

    method AutoSwitchToProduction(id: string, minPatterns: nat, minRate: nat, resets: bool) returns (switched: bool)
      modifies this
      ensures switched <==> id in old(devices) && Promotes(StatusOf(old(devices)[id]), minPatterns, minRate)
      ensures devices ==
              if switched then old(devices)[id := WithMode(old(devices)[id], Production, resets)] else old(devices)
    {
      var status := CheckCloudIndependence(id);
      if status == None || !status.value.auto {
        return false;
      }
      var s := status.value;
      if s.patterns >= minPatterns && s.rate >= minRate && s.samples >= MIN_TOTAL_REQUESTS {
        switched := UpdateDeviceMode(id, Production, resets);
      } else {
        switched := false;
      }
    }

    method ShouldRollbackToLearning(id: string, resets: bool) returns (rolledBack: bool)
      modifies this
      ensures rolledBack <==> id in old(devices) && RollsBack(StatusOf(old(devices)[id]))
      ensures devices ==
              if rolledBack then old(devices)[id := WithMode(old(devices)[id], Learning, resets)] else old(devices)
    {
      var status := CheckCloudIndependence(id);
      if status == None || status.value.mode != Production || !status.value.auto {
        return false;
      }
      if status.value.rate < ROLLBACK_MATCH_RATE && status.value.samples >= MIN_TOTAL_REQUESTS {
        rolledBack := UpdateDeviceMode(id, Learning, resets);
      } else {
        rolledBack := false;
      }
    }

    // What a round does for one device. `listed` is its row as of the start of the round.
    method CheckDevice(id: string, listed: Device, settings: Settings, resets: bool)
      modifies this
      ensures devices ==
              if id !in old(devices) then old(devices)
              else old(devices)[id := ListedAs(listed, old(devices)[id], settings, resets)]
    {
      if listed.mode == Learning && listed.auto {
        if settings.promote {
          var _ := AutoSwitchToProduction(id, settings.minPatterns, settings.minRate, resets);
        }
      } else if listed.mode == Production {
        var _ := ShouldRollbackToLearning(id, resets);
      }
    }

    // One round over the registry, listed first; each device is listed once.
    method CheckAllDevices(ids: seq<string>, settings: Settings, resets: bool)
      requires forall i, j :: 0 <= i < j < |ids| ==> ids[i] != ids[j]
      requires forall id :: id in ids <==> id in devices
      modifies this
      ensures devices.Keys == old(devices).Keys
      ensures forall id :: id in devices ==> devices[id] == Scheduled(old(devices)[id], settings, resets)
    {
      var listing := devices;
      var i := 0;
      while i < |ids|
        invariant 0 <= i <= |ids| && devices.Keys == listing.Keys
        invariant forall k :: 0 <= k < i ==> devices[ids[k]] == Scheduled(listing[ids[k]], settings, resets)
        invariant forall k :: i <= k < |ids| ==> devices[ids[k]] == listing[ids[k]]
      {
        CheckDevice(ids[i], listing[ids[i]], settings, resets);
        i := i + 1;
      }
    }
  }

  // --- Laws ---------------------------------------------------------------

  // When the counter reset fails, a promotion undoes itself on the old evidence.
  lemma FailedResetRollsBack(d: Device)
    requires d.mode == Learning && d.auto
    requires var s := StatusOf(d); s.rate < ROLLBACK_MATCH_RATE && s.samples >= MIN_TOTAL_REQUESTS
    ensures var promoted := WithMode(d, Production, false);
            RollsBack(StatusOf(promoted)) && !RollsBack(StatusOf(WithMode(d, Production, true)))
  {
  }

  // A scheduler round leaves a device's mode alone unless its own statistics, with at
  // least 50 samples, call for the change; afterwards it starts with none.
  lemma ScheduledChange(d: Device, settings: Settings)
    requires Scheduled(d, settings, true).mode != d.mode
    ensures d.auto && StatusOf(d).samples >= MIN_TOTAL_REQUESTS
    ensures d.mode == Learning ==> settings.promote && StatusOf(d).rate >= settings.minRate
    ensures d.mode == Production ==> StatusOf(d).rate < ROLLBACK_MATCH_RATE
    ensures Scheduled(d, settings, true).stats == NO_STATS
    ensures Scheduled(Scheduled(d, settings, true), settings, true) == Scheduled(d, settings, true)
  {
  }

  // A device set to another mode starts with no counters, unless the reset fails; setting
  // it to the mode it has changes nothing.
  lemma ModeSetExactly(d: Device, mode: Mode, resets: bool)
    ensures var n := WithMode(d, mode, resets);
            && n.mode == mode && n.auto == d.auto && n.patterns == d.patterns
            && (d.mode == mode ==> n == d)
            && (d.mode != mode ==> n.stats == if resets then Stats(0, 0, 0, 0, 0, []) else d.stats)
  {
  }

  // --- What a round decides by --------------------------------------------

  lemma {:induction false} WindowCounts(recent: seq<Sample>)
    ensures HitsIn(recent) == CountOf(recent, LocalHit)
    ensures AttemptsIn(recent) == CountOf(recent, LocalHit) + CountOf(recent, CloudMiss)
  {
    if recent != [] {
      WindowCounts(recent[..|recent| - 1]);
    }
  }

  // The rate and the number of samples a device is judged by: those of the hits and
  // misses in its window, or what is stored when the window has neither.
  ghost predicate Measured(stats: Stats, rate: nat, samples: nat) {
    var hits, misses := CountOf(stats.recent, LocalHit), CountOf(stats.recent, CloudMiss);
    if hits + misses > 0 then samples == hits + misses && Nearest(hits, hits + misses, rate)
    else samples == stats.total && rate == stats.rate
  }

  lemma {:induction false} Scaled(a: nat, rate: nat, other: nat)
    requires rate < other
    ensures other == rate + 1 ==> a * other == a * rate + a
    ensures other > rate + 1 ==> a * other >= a * rate + a + a
    decreases other
  {
    assert a * other == a * (other - 1) + a;
    if rate < other - 1 {
      Scaled(a, rate, other - 1);
    }
  }

  // Two numbers within half of `a` from `share` are at most `a` apart.
  lemma HalfAway(share: nat, a: nat, p: nat, q: nat, rate: nat, other: nat)
    requires a > 0 && 2 * q <= share + a && share <= 2 * p + a
    requires 2 * q == share + a ==> other % 2 == 0
    requires share == 2 * p + a ==> rate % 2 == 0
    requires other == rate + 1 ==> q == p + a
    requires other > rate + 1 ==> q >= p + a + a
    ensures other <= rate
  {
  }

  // Rounding to the nearest leaves no choice.
  lemma NearestIsOne(hits: nat, attempts: nat, rate: nat, other: nat)
    requires Nearest(hits, attempts, rate) && Nearest(hits, attempts, other) && rate <= other
    ensures rate == other
  {
    if rate < other && attempts > 0 {
      Scaled(attempts, rate, other);
      HalfAway(20000 * hits, attempts, attempts * rate, attempts * other, rate, other);
    }
  }

  lemma StatusIsMeasured(d: Device, rate: nat, samples: nat)
    requires Measured(d.stats, rate, samples)
    ensures StatusOf(d) == Status(d.mode, d.auto, rate, samples, d.patterns)
  {
    WindowCounts(d.stats.recent);
    var hits, attempts := HitsIn(d.stats.recent), AttemptsIn(d.stats.recent);
    if attempts > 0 {
      RateIsNearest(hits, attempts);
      var found := Rate(hits, attempts);
      if rate <= found {
        NearestIsOne(hits, attempts, rate, found);
      } else {
        NearestIsOne(hits, attempts, found, rate);
      }
    }
  }

  // What a round makes of a device whose row was listed as `listed`: it is promoted, or
  // rolled back, exactly under these conditions, with its counters zeroed if the reset
  // succeeds; otherwise nothing about it changes.
  lemma RoundExactly(listed: Device, d: Device, settings: Settings, resets: bool, rate: nat, samples: nat)
    requires Measured(d.stats, rate, samples)
    ensures var n := ListedAs(listed, d, settings, resets);
            var promoted :=
              && listed.mode == Learning && listed.auto && settings.promote && d.auto
              && d.patterns >= settings.minPatterns && rate >= settings.minRate && samples >= 50;
            var rolledBack :=
              listed.mode == Production && d.mode == Production && d.auto && rate < 9000 && samples >= 50;
            && n.auto == d.auto && n.patterns == d.patterns
            && n.mode == (if promoted then Production else if rolledBack then Learning else d.mode)
            && n.stats == (if n.mode != d.mode && resets then NO_STATS else d.stats)
  {
    StatusIsMeasured(d, rate, samples);
  }
}
