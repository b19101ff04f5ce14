// ProviderCircuitBreaker of core/fallback_policy.py: closed, open and half-open
// circuits, one per provider.

module CircuitBreaker {
  import opened Options

  // What the four dictionaries hold of one provider.
  datatype Health = Health(failures: nat, openedAt: Option<real>, half: bool, probe: bool)

  const CLOSED := Health(0, None, false, false)

  datatype Config = Config(threshold: nat, cooldown: real)

  // The constructor's clamps.
  ghost predicate Sane(c: Config) {
    c.threshold >= 1 && c.cooldown >= 0.0
  }

  function Failed(c: Config, h: Health, now: real): Health {
    if h.failures + 1 >= c.threshold then Health(h.failures + 1, Some(now), false, false)
    else h.(failures := h.failures + 1)
  }

  // is_open: the answer, and the move to half-open that asking may cause.
  function Peeked(c: Config, h: Health, now: real): (Health, bool) {
    if h.half then (h, h.probe)
    else if h.openedAt.None? then (h, false)
    else if now - h.openedAt.value >= c.cooldown then (h.(half := true), false)
    else (h, true)
  }

  // allow: half-open, it hands out the probe.
  function Asked(c: Config, h: Health, now: real): (Health, bool) {
    var (p, open) := Peeked(c, h, now);
    if open then (p, false)
    else if p.half then (p.(probe := true), true)
    else (p, true)
  }

  // The names that get through when asked one after the other, and what asking
  // makes of their circuits.
  function Sifted(c: Config, views: map<string, Health>, names: seq<string>, now: real)
    : (r: (seq<string>, map<string, Health>))
    requires forall n :: n in names ==> n in views
    ensures r.1.Keys == views.Keys
  {
    if names == [] then ([], views)
    else
      var front, last := names[..|names| - 1], names[|names| - 1];
      var (healthy, after) := Sifted(c, views, front, now);
      var (h, allowed) := Asked(c, after[last], now);
      (healthy + (if allowed then [last] else []), after[last := h])
  }

  lemma SiftStep(c: Config, views: map<string, Health>, names: seq<string>, i: nat, now: real)
    requires i < |names| && forall n :: n in names ==> n in views
    ensures var (healthy, after) := Sifted(c, views, names[..i], now);
            var (h, allowed) := Asked(c, after[names[i]], now);
            Sifted(c, views, names[..i + 1], now) ==
            (if allowed then healthy + [names[i]] else healthy, after[names[i] := h])
  {
    assert names[..i + 1][..i] == names[..i];
    var healthy := Sifted(c, views, names[..i], now).0;
    assert healthy + [] == healthy;
  }

  class ProviderCircuitBreaker {
    const config: Config
    var failures: map<string, nat>
    var openedAt: map<string, real>
    var halfOpen: map<string, bool>
    var probeInFlight: map<string, bool>

    ghost function View(name: string): Health
      reads this
    {
      Health(
        if name in failures then failures[name] else 0,
        if name in openedAt then Some(openedAt[name]) else None,
        name in halfOpen && halfOpen[name],
        name in probeInFlight && probeInFlight[name])
    }

    constructor (failureThreshold: int, cooldownSeconds: real)
      ensures Sane(config) && forall name :: View(name) == CLOSED
      ensures config.threshold == if failureThreshold < 1 then 1 else failureThreshold
      ensures config.cooldown == if cooldownSeconds < 0.0 then 0.0 else cooldownSeconds
    {
      config := Config(if failureThreshold < 1 then 1 else failureThreshold,
                       if cooldownSeconds < 0.0 then 0.0 else cooldownSeconds);
      failures, openedAt, halfOpen, probeInFlight := map[], map[], map[], map[];
    }

    method RecordSuccess(name: string)
      modifies this
      ensures View(name) == CLOSED
      ensures forall n :: n != name ==> View(n) == old(View(n))
    {
      failures := failures - {name};
      openedAt := openedAt - {name};
      halfOpen := halfOpen - {name};
      probeInFlight := probeInFlight - {name};
    }

    method RecordFailure(name: string, now: real)
      modifies this
      ensures View(name) == Failed(config, old(View(name)), now)
      ensures forall n :: n != name ==> View(n) == old(View(n))
    {
      var count := (if name in failures then failures[name] else 0) + 1;
      failures := failures[name := count];
      if count >= config.threshold {
        openedAt := openedAt[name := now];
        halfOpen := halfOpen[name := false];
        probeInFlight := probeInFlight - {name};
      }
    }

    method IsOpen(name: string, now: real) returns (open: bool)
      modifies this
      ensures (View(name), open) == Peeked(config, old(View(name)), now)
      ensures forall n :: n != name ==> View(n) == old(View(n))
    {
      if name in halfOpen && halfOpen[name] {
        return name in probeInFlight && probeInFlight[name];
      }
      if name !in openedAt {
        return false;
      }
      if now - openedAt[name] >= config.cooldown {
        halfOpen := halfOpen[name := true];
        return false;
      }
      open := true;
    }

    method Allow(name: string, now: real) returns (allowed: bool)
      modifies this
      ensures (View(name), allowed) == Asked(config, old(View(name)), now)
      ensures forall n :: n != name ==> View(n) == old(View(n))
    {
      var open := IsOpen(name, now);
      if open {
        return false;
      }
      if name in halfOpen && halfOpen[name] {
        probeInFlight := probeInFlight[name := true];
      }
      allowed := true;
    }

    ghost function Views(names: seq<string>): map<string, Health>
      reads this
    {
      map n | n in names :: View(n)
    }

    method AllowListed(names: seq<string>, name: string, now: real) returns (allowed: bool)
      requires name in names
      modifies this
      ensures (Views(names)[name], allowed) == Asked(config, old(Views(names))[name], now)
      ensures Views(names) == old(Views(names))[name := Views(names)[name]]
      ensures forall n :: n !in names ==> View(n) == old(View(n))
    {
      allowed := Allow(name, now);
    }

    // The providers that may be called now; asking claims their probes.
    method HealthyNames(names: seq<string>, now: real) returns (healthy: seq<string>)
      modifies this
      ensures (healthy, Views(names)) == Sifted(config, old(Views(names)), names, now)
      ensures forall n :: n !in names ==> View(n) == old(View(n))
    {
      healthy := [];
      var i := 0;
      ghost var views := Views(names);
      while i < |names|
        invariant 0 <= i <= |names| && Views(names) == views
        invariant (healthy, views) == Sifted(config, old(Views(names)), names[..i], now)
        invariant forall n :: n !in names ==> View(n) == old(View(n))
      {
        assert names[..i + 1][..i] == names[..i];
        var allowed := AllowListed(names, names[i], now);
        SiftStep(config, old(Views(names)), names, i, now);
        views := Views(names);
        if allowed {
          healthy := healthy + [names[i]];
        }
        i := i + 1;
      }
      assert names[..i] == names;
    }
  }

  // Asking twice at the same moment changes nothing more, and lets nobody in who
  // was turned away.
  lemma AskedTwice(c: Config, h: Health, now: real)
    ensures var (p, allowed) := Asked(c, h, now);
            Asked(c, p, now).0 == p && (Asked(c, p, now).1 ==> allowed)
  {
  }

  // However often a name is listed, it is healthy exactly when the first request is
  // granted, and every listed name has been asked once.
  lemma {:induction false} HealthyExactly(c: Config, views: map<string, Health>, names: seq<string>, now: real)
    requires forall n :: n in names ==> n in views
    ensures var (healthy, after) := Sifted(c, views, names, now);
            && (forall n :: n in healthy <==> n in names && Asked(c, views[n], now).1)
            && (forall n :: n in views ==> after[n] == if n in names then Asked(c, views[n], now).0 else views[n])
  {
    if names != [] {
      var front, last := names[..|names| - 1], names[|names| - 1];
      assert names == front + [last];
      HealthyExactly(c, views, front, now);
      AskedTwice(c, views[last], now);
    }
  }

  // --- Runs ---------------------------------------------------------------

  // The calls about one provider, with the monotonic clock at each.
  datatype Call =
    | Succeed(at: real)
    | Fail(at: real)
    | Ask(at: real)
    | Peek(at: real)

  function After(c: Config, h: Health, call: Call): Health {
    match call
    case Succeed(_) => CLOSED
    case Fail(at) => Failed(c, h, at)
    case Ask(at) => Asked(c, h, at).0
    case Peek(at) => Peeked(c, h, at).0
  }

  function Run(c: Config, h: Health, calls: seq<Call>): Health
    decreases |calls|
  {
    if calls == [] then h else Run(c, After(c, h, calls[0]), calls[1..])
  }

  // When `allow` said yes.
  ghost function Grants(c: Config, h: Health, calls: seq<Call>): seq<real>
    decreases |calls|
  {
    if calls == [] then []
    else
      (if calls[0].Ask? && Asked(c, h, calls[0].at).1 then [calls[0].at] else [])
      + Grants(c, After(c, h, calls[0]), calls[1..])
  }

  ghost predicate InTime(calls: seq<Call>, start: real) {
    && (forall i :: 0 <= i < |calls| ==> start <= calls[i].at)
    && (forall i, j :: 0 <= i < j < |calls| ==> calls[i].at <= calls[j].at)
  }

  ghost predicate NoRecords(calls: seq<Call>) {
    forall i :: 0 <= i < |calls| ==> calls[i].Ask? || calls[i].Peek?
  }

  // The first request at or after `t`, if any.
  ghost function FirstAsk(calls: seq<Call>, t: real): seq<real>
    ensures |FirstAsk(calls, t)| <= 1
    ensures forall g :: g in FirstAsk(calls, t) ==> t <= g
  {
    if calls == [] then []
    else if calls[0].Ask? && t <= calls[0].at then [calls[0].at]
    else FirstAsk(calls[1..], t)
  }

  // The failures recorded since the last success.
  ghost function Streak(calls: seq<Call>): nat {
    if calls == [] then 0
    else
      var last := calls[|calls| - 1];
      if last.Succeed? then 0
      else Streak(calls[..|calls| - 1]) + if last.Fail? then 1 else 0
  }

  ghost predicate Inv(c: Config, h: Health) {
    && (h.probe ==> h.half)
    && (h.half ==> h.openedAt.Some?)
    && (h.openedAt.Some? <==> h.failures >= c.threshold)
  }

  lemma {:induction false} RunConcat(c: Config, h: Health, a: seq<Call>, b: seq<Call>)
    ensures Run(c, h, a + b) == Run(c, Run(c, h, a), b)
    decreases |a|
  {
    if a == [] {
      assert a + b == b;
    } else {
      assert (a + b)[1..] == a[1..] + b;
      RunConcat(c, After(c, h, a[0]), a[1..], b);
    }
  }

  // In every run: the failure count is the streak, the circuit has opened exactly
  // when the streak reached the threshold, and a probe is out only half-open.
  lemma {:induction false} StreakOpens(c: Config, calls: seq<Call>)
    requires Sane(c)
    ensures var h := Run(c, CLOSED, calls);
            && Inv(c, h) && h.failures == Streak(calls)
            && (h.openedAt.Some? <==> Streak(calls) >= c.threshold)
  {
    if calls != [] {
      var front, last := calls[..|calls| - 1], calls[|calls| - 1];
      assert calls == front + [last];
      StreakOpens(c, front);
      RunConcat(c, CLOSED, front, [last]);
      assert Run(c, Run(c, CLOSED, front), [last]) == After(c, Run(c, CLOSED, front), last);
    }
  }

  // Below the threshold nobody is turned away.
  lemma ClosedAllows(c: Config, calls: seq<Call>, now: real)
    requires Sane(c) && Streak(calls) < c.threshold
    ensures Asked(c, Run(c, CLOSED, calls), now).1
  {
    StreakOpens(c, calls);
  }

  lemma {:induction false} ProbeOutGrantsNothing(c: Config, h: Health, calls: seq<Call>)
    requires h.half && h.probe && NoRecords(calls)
    ensures Grants(c, h, calls) == []
    decreases |calls|
  {
    if calls != [] {
      ProbeOutGrantsNothing(c, h, calls[1..]);
    }
  }

  lemma {:induction false} HalfOpenGrantsFirst(c: Config, h: Health, calls: seq<Call>, t: real)
    requires h.half && !h.probe && NoRecords(calls) && InTime(calls, t)
    ensures Grants(c, h, calls) == FirstAsk(calls, t)
    decreases |calls|
  {
    if calls != [] {
      if calls[0].Ask? {
        ProbeOutGrantsNothing(c, After(c, h, calls[0]), calls[1..]);
      } else {
        HalfOpenGrantsFirst(c, h, calls[1..], t);
      }
    }
  }

  lemma {:induction false} OpenGrants(c: Config, h: Health, calls: seq<Call>)
    requires h.openedAt.Some? && !h.half && !h.probe && NoRecords(calls) && InTime(calls, h.openedAt.value)
    ensures Grants(c, h, calls) == FirstAsk(calls, h.openedAt.value + c.cooldown)
    decreases |calls|
  {
    if calls != [] {
      var t, n := h.openedAt.value + c.cooldown, After(c, h, calls[0]);
      if calls[0].at < t {
        OpenGrants(c, h, calls[1..]);
      } else if calls[0].Ask? {
        ProbeOutGrantsNothing(c, n, calls[1..]);
      } else {
        HalfOpenGrantsFirst(c, n, calls[1..], t);
      }
    }
  }

  // After any history, a failure that opens or re-opens the circuit at time `at`:
  // until the next success or failure is recorded, exactly the first request at or
  // after the end of the cooldown is granted, and no other.
  lemma OneProbePerOpening(c: Config, before: seq<Call>, at: real, calls: seq<Call>)
    requires Sane(c) && Streak(before) + 1 >= c.threshold
    requires NoRecords(calls) && InTime(calls, at)
    ensures Grants(c, Run(c, CLOSED, before + [Fail(at)]), calls) == FirstAsk(calls, at + c.cooldown)
  {
    StreakOpens(c, before);
    RunConcat(c, CLOSED, before, [Fail(at)]);
    var h := Run(c, CLOSED, before);
    assert Run(c, h, [Fail(at)]) == After(c, h, Fail(at));
    OpenGrants(c, After(c, h, Fail(at)), calls);
  }

  // A success closes the circuit whatever happened before.
  lemma SuccessCloses(c: Config, before: seq<Call>, at: real, now: real)
    requires Sane(c)
    ensures Asked(c, Run(c, CLOSED, before + [Succeed(at)]), now) == (CLOSED, true)
  {
    RunConcat(c, CLOSED, before, [Succeed(at)]);
    var h := Run(c, CLOSED, before);
    assert Run(c, h, [Succeed(at)]) == CLOSED;
  }
}
