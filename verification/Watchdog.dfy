// ConnectionWatchdog of core/connection_watchdog.py: restarting a wedged process,
// with a cooldown that outlives the process.

module Watchdog {
  import opened Options

  datatype Config = Config(maxFailures: int, cooldown: real)

  // The fields of a running watchdog. `last` is None for minus infinity; `running`
  // is whether the probe loop is still on.
  datatype Dog = Dog(failures: int, last: Option<real>, running: bool)

  // One round of the loop: the probe's answer, the wall clock, whether a fresh
  // process gets through (None: cannot tell) and whether the state file could be
  // written.
  datatype Round = Round(ok: bool, now: real, reachable: Option<bool>, writable: bool)

  predicate CoolingDown(c: Config, last: Option<real>, now: real) {
    last.Some? && 0.0 <= now - last.value < c.cooldown
  }

  predicate Restarts(c: Config, d: Dog, r: Round) {
    && d.running && !r.ok && d.failures + 1 >= c.maxFailures
    && !CoolingDown(c, d.last, r.now) && r.reachable != Some(false)
  }

  function AfterRound(c: Config, d: Dog, r: Round): Dog {
    if !d.running then d
    else if r.ok then d.(failures := 0)
    else if d.failures + 1 < c.maxFailures || CoolingDown(c, d.last, r.now) then d.(failures := d.failures + 1)
    else if r.reachable == Some(false) then d.(failures := 0)
    else Dog(0, Some(r.now), false)
  }

  // The state file: the stamp of the last restart, or nothing.
  class StateFile {
    var stamp: Option<real>

    constructor (stamp: Option<real>)
      ensures this.stamp == stamp
    {
      this.stamp := stamp;
    }
  }

  class ConnectionWatchdog {
    const config: Config
    const file: StateFile
    var failures: int
    var last: Option<real>
    var running: bool

    ghost function View(): Dog
      reads this
    {
      Dog(failures, last, running)
    }

    // A new process starts from the stamp in the file.
    constructor (config: Config, file: StateFile)
      ensures this.config == config && this.file == file
      ensures View() == Dog(0, file.stamp, true)
    {
      this.config := config;
      this.file := file;
      failures := 0;
      last := file.stamp;
      running := true;
    }

    // One iteration of _run. The loop ends with the restart.
    method RunOnce(r: Round) returns (restarted: bool)
      modifies this, file
      ensures View() == AfterRound(config, old(View()), r)
      ensures restarted <==> Restarts(config, old(View()), r)
      ensures file.stamp == if restarted && r.writable then Some(r.now) else old(file.stamp)
    {
      if !running {
        return false;
      }
      if r.ok {
        failures := 0;
        return false;
      }
      failures := failures + 1;
      if failures < config.maxFailures {
        return false;
      }
      if CoolingDown(config, last, r.now) {
        return false;
      }
      if r.reachable == Some(false) {
        failures := 0;
        return false;
      }
      last := Some(r.now);
      if r.writable {
        file.stamp := Some(r.now);
      }
      failures := 0;
      running := false;
      restarted := true;
    }
  }

  // A stamp from the future, after the clock was set back, does not hold a restart up.
  lemma FutureStampIsIgnored(c: Config, d: Dog, r: Round)
    requires d.running && d.last.Some? && r.now < d.last.value
    ensures Restarts(c, d, r) <==> !r.ok && d.failures + 1 >= c.maxFailures && r.reachable != Some(false)
  {
  }

  // --- Process generations ------------------------------------------------

  // The loop goes round, or a new process takes over.
  datatype Event = Tick(round: Round) | Boot

  // `streak` counts the failed probes in a row of this process, `restarts` are the
  // restarts of all processes with their stamps, `here` those of this one.
  datatype World = World(
    dog: Dog, file: Option<real>, clock: real, streak: nat, restarts: seq<real>, here: nat)

  // The wall clock does not run backwards.
  ghost predicate Allowed(w: World, e: Event) {
    e.Tick? ==> w.clock <= e.round.now
  }

  ghost function Next(c: Config, w: World, e: Event): World {
    match e
    case Boot => w.(dog := Dog(0, w.file, true), streak := 0, here := 0)
    case Tick(r) =>
      var n := w.(dog := AfterRound(c, w.dog, r), clock := r.now,
                  streak := if !w.dog.running then w.streak else if r.ok then 0 else w.streak + 1);
      if Restarts(c, w.dog, r) then
        n.(file := if r.writable then Some(r.now) else w.file,
           restarts := w.restarts + [r.now], here := w.here + 1)
      else n
  }

  // A first process, with no restart on file.
  ghost predicate First(w: World) {
    w.dog == Dog(0, None, true) && w.file == None && w.streak == 0 && w.restarts == [] && w.here == 0
  }

  ghost predicate Legal(c: Config, w: World, es: seq<Event>)
    decreases |es|
  {
    es == [] || (Allowed(w, es[0]) && Legal(c, Next(c, w, es[0]), es[1..]))
  }

  ghost function Run(c: Config, w: World, es: seq<Event>): World
    decreases |es|
  {
    if es == [] then w else Run(c, Next(c, w, es[0]), es[1..])
  }

  // Every restart gets recorded in the file.
  ghost predicate Persistent(es: seq<Event>) {
    forall e :: e in es ==> e.Tick? ==> e.round.writable
  }

  ghost predicate Spaced(restarts: seq<real>, gap: real) {
    forall i, j :: 0 <= i < j < |restarts| ==> restarts[j] - restarts[i] >= gap
  }

  ghost predicate Inv(c: Config, w: World) {
    && Spaced(w.restarts, c.cooldown)
    && (forall i :: 0 <= i < |w.restarts| ==> w.restarts[i] <= w.clock)
    && (w.restarts != [] ==> w.file == Some(w.restarts[|w.restarts| - 1]))
    && (w.restarts == [] ==> w.file == None)
    && (w.dog.running ==> w.dog.last == w.file)
  }

  // What holds whether or not the file can be written.
  ghost predicate LocalInv(w: World) {
    && w.here == (if w.dog.running then 0 else 1)
    && (w.dog.running ==> 0 <= w.dog.failures <= w.streak)
  }

  lemma StepKeeps(c: Config, w: World, e: Event)
    requires c.cooldown >= 0.0 && Inv(c, w) && Allowed(w, e) && (e.Tick? ==> e.round.writable)
    ensures Inv(c, Next(c, w, e))
  {
    var n := Next(c, w, e);
    if e.Tick? && Restarts(c, w.dog, e.round) && w.restarts != [] {
      var k := |w.restarts| - 1;
      forall i | 0 <= i <= k
        ensures e.round.now - w.restarts[i] >= c.cooldown
      {
        assert w.restarts[i] <= w.restarts[k];
      }
    }
  }

  lemma {:induction false} RunKeeps(c: Config, w: World, es: seq<Event>)
    requires c.cooldown >= 0.0 && Inv(c, w) && Legal(c, w, es) && Persistent(es)
    ensures Inv(c, Run(c, w, es))
    decreases |es|
  {
    if es != [] {
      assert es[0] in es;
      StepKeeps(c, w, es[0]);
      RunKeeps(c, Next(c, w, es[0]), es[1..]);
    }
  }

  // Across all process generations, with a file that keeps what is written to it,
  // any two restarts are at least the cooldown apart.
  lemma RestartsAreSpaced(c: Config, w: World, es: seq<Event>)
    requires c.cooldown >= 0.0 && First(w) && Legal(c, w, es) && Persistent(es)
    ensures Spaced(Run(c, w, es).restarts, c.cooldown)
  {
    RunKeeps(c, w, es);
  }

  lemma {:induction false} LocalRun(c: Config, w: World, es: seq<Event>)
    requires LocalInv(w)
    ensures LocalInv(Run(c, w, es))
    decreases |es|
  {
    if es != [] {
      LocalRun(c, Next(c, w, es[0]), es[1..]);
    }
  }

  // Every restart follows at least max_failures failed probes in a row of the same
  // process, is the only one of that process, and never happens while a fresh
  // process cannot get through either.
  lemma RestartNeedsStreak(c: Config, w: World, es: seq<Event>, r: Round)
    requires First(w) && Restarts(c, Run(c, w, es).dog, r)
    ensures var n := Run(c, w, es);
            && n.streak + 1 >= c.maxFailures && !r.ok && r.reachable != Some(false)
            && n.here == 0 && Next(c, n, Tick(r)).here == 1
            && forall q :: !Restarts(c, Next(c, n, Tick(r)).dog, q)
  {
    LocalRun(c, w, es);
  }

  // Every time a fresh process was tried, it got through or could not tell.
  ghost predicate NeverUnreachable(es: seq<Event>) {
    forall e :: e in es ==> e.Tick? ==> e.round.reachable != Some(false)
  }

  lemma {:induction false} FailuresAreStreak(c: Config, w: World, es: seq<Event>)
    requires NeverUnreachable(es) && (w.dog.running ==> w.dog.failures == w.streak)
    ensures Run(c, w, es).dog.running ==> Run(c, w, es).dog.failures == Run(c, w, es).streak
    decreases |es|
  {
    if es != [] {
      assert es[0] in es && forall e :: e in es[1..] ==> e in es;
      FailuresAreStreak(c, Next(c, w, es[0]), es[1..]);
    }
  }

  // With a file that keeps its stamps, and a fresh process that never was without a way
  // out: a process restarts exactly when it has not done so yet, its probes have failed
  // max_failures times in a row, a fresh process does not fail too, and the last restart
  // of any process is the cooldown ago.
  lemma RestartsExactly(c: Config, w: World, es: seq<Event>, r: Round)
    requires c.cooldown >= 0.0 && First(w) && Legal(c, w, es) && Persistent(es) && NeverUnreachable(es)
    requires Run(c, w, es).clock <= r.now
    ensures var n := Run(c, w, es);
            Restarts(c, n.dog, r) <==>
              && n.here == 0 && !r.ok && n.streak + 1 >= c.maxFailures && r.reachable != Some(false)
              && (n.restarts == [] || r.now - n.restarts[|n.restarts| - 1] >= c.cooldown)
  {
    RunKeeps(c, w, es);
    LocalRun(c, w, es);
    FailuresAreStreak(c, w, es);
  }

  lemma {:induction false} FailuresBound(c: Config, w: World, es: seq<Event>)
    requires w.dog.failures >= 0 && forall e :: e in es ==> e.Tick?
    ensures Run(c, w, es).dog.failures <= w.dog.failures + |es|
    decreases |es|
  {
    if es != [] {
      assert es[0] in es && forall e :: e in es[1..] ==> e in es;
      FailuresBound(c, Next(c, w, es[0]), es[1..]);
    }
  }

  // When all calls for a restart but a fresh process has no way out either, the count
  // starts over: nothing happens for max_failures rounds more.
  lemma UplinkDownStartsOver(c: Config, w: World, r: Round, es: seq<Event>, q: Round)
    requires Restarts(c, w.dog, r.(reachable := None)) && r.reachable == Some(false)
    requires (forall e :: e in es ==> e.Tick?) && |es| + 1 < c.maxFailures
    ensures var n := Next(c, w, Tick(r));
            n.restarts == w.restarts && n.dog == Dog(0, w.dog.last, true) && !Restarts(c, Run(c, n, es).dog, q)
  {
    FailuresBound(c, Next(c, w, Tick(r)), es);
  }

  // A process that has not restarted anything still trusts the stamp it read.
  lemma {:induction false} TrustsItsStamp(c: Config, w: World, es: seq<Event>)
    requires w.dog.running && forall e :: e in es ==> e.Tick?
    ensures var n := Run(c, w, es);
            && |w.restarts| <= |n.restarts|
            && (|n.restarts| == |w.restarts| ==> n.dog.running && n.dog.last == w.dog.last)
    decreases |es|
  {
    if es != [] {
      assert es[0] in es;
      var n := Next(c, w, es[0]);
      if n.dog.running {
        TrustsItsStamp(c, n, es[1..]);
      } else {
        RestartsGrow(c, n, es[1..]);
      }
    }
  }

  lemma {:induction false} RestartsGrow(c: Config, w: World, es: seq<Event>)
    ensures |w.restarts| <= |Run(c, w, es).restarts|
    decreases |es|
  {
    if es != [] {
      RestartsGrow(c, Next(c, w, es[0]), es[1..]);
    }
  }

  // The next process respects a restart exactly when it was recorded: within the
  // cooldown, and with no earlier stamp in the way, enough failed probes make it
  // restart again just when the file could not be written.
  lemma RecordedExactly(c: Config, w: World, r: Round, es: seq<Event>, q: Round)
    requires Restarts(c, w.dog, r) && forall e :: e in es ==> e.Tick?
    requires var b := Next(c, Next(c, w, Tick(r)), Boot);
             Run(c, b, es).restarts == b.restarts && Run(c, b, es).dog.failures + 1 >= c.maxFailures
    requires !q.ok && q.reachable != Some(false) && r.now <= q.now < r.now + c.cooldown
    requires !CoolingDown(c, w.file, q.now)
    ensures var b := Next(c, Next(c, w, Tick(r)), Boot);
            Restarts(c, Run(c, b, es).dog, q) <==> !r.writable
  {
    TrustsItsStamp(c, Next(c, Next(c, w, Tick(r)), Boot), es);
  }

  ghost function Repeated(e: Event, n: nat): seq<Event> {
    if n == 0 then [] else [e] + Repeated(e, n - 1)
  }

  lemma {:induction false} RunConcat(c: Config, w: World, a: seq<Event>, b: seq<Event>)
    ensures Run(c, w, a + b) == Run(c, Run(c, w, a), b)
    ensures Legal(c, w, a) && Legal(c, Run(c, w, a), b) ==> Legal(c, w, a + b)
    decreases |a|
  {
    if a == [] {
      assert a + b == b;
    } else {
      assert (a + b)[1..] == a[1..] + b;
      RunConcat(c, Next(c, w, a[0]), a[1..], b);
    }
  }

  // As many failed probes as it takes, in a process that read no stamp: a restart,
  // and nothing in the file.
  lemma {:induction false} FailuresRestart(c: Config, w: World, t: real, n: nat)
    requires w.dog.running && w.dog.last == None && w.clock <= t
    requires n >= 1 && w.dog.failures >= 0
    requires w.dog.failures + n == (if c.maxFailures < 1 then 1 else c.maxFailures)
    ensures var es := Repeated(Tick(Round(false, t, None, false)), n);
            var m := Run(c, w, es);
            && Legal(c, w, es) && m.restarts == w.restarts + [t]
            && m.file == w.file && m.clock == t
    decreases n
  {
    var e := Tick(Round(false, t, None, false));
    assert Repeated(e, n)[0] == e && Repeated(e, n)[1..] == Repeated(e, n - 1);
    if n > 1 {
      FailuresRestart(c, Next(c, w, e), t, n - 1);
    }
  }

  // A file that cannot be written: the next process restarts at the same moment, so
  // restarts are not spaced, whatever the cooldown.
  lemma UnwritableFileRestartsAgain(c: Config, w: World, t: real)
    requires c.cooldown > 0.0 && First(w) && w.clock <= t
    ensures var n := if c.maxFailures < 1 then 1 else c.maxFailures;
            var fails := Repeated(Tick(Round(false, t, None, false)), n);
            var es := fails + ([Boot] + fails);
            && Legal(c, w, es)
            && Run(c, w, es).restarts == [t, t]
            && !Spaced(Run(c, w, es).restarts, c.cooldown)
  {
    var n := if c.maxFailures < 1 then 1 else c.maxFailures;
    var fails := Repeated(Tick(Round(false, t, None, false)), n);
    FailuresRestart(c, w, t, n);
    var w1 := Run(c, w, fails);
    FailuresRestart(c, Next(c, w1, Boot), t, n);
    assert ([Boot] + fails)[1..] == fails;
    RunConcat(c, w, fails, [Boot] + fails);
    var restarts := Run(c, w, fails + ([Boot] + fails)).restarts;
    assert restarts == [t, t] && restarts[1] - restarts[0] < c.cooldown;
  }
}
