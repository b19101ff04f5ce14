// Mode changes in all interleavings. A change commits the mode and resets the counters
// later (core/database.py); counters are written by sessions that read the row first
// (core/match_tracker.py); a decision reads the statistics, then the registry's row, and
// changes the mode after that (core/resilience.py).

module ModeChanges {
  import opened Options
  import opened MatchTracker
  import opened AutoSwitch

  // `ReadStats` takes the first half of a reading, `ReadMode` the second; `Promote` and
  // `Rollback` act on the reading with the given index. `Reset` is the second half of a
  // mode change.
  datatype Event =
    | BeginWrite
    | CommitWrite(batch: Cache)
    | AbortWrite
    | CommitMode(mode: Mode)
    | Reset(ok: bool)
    | SetAuto(auto: bool)
    | Learn(patterns: nat)
    | ReadStats
    | ReadMode(half: nat)
    | Promote(reading: nat, minPatterns: nat, minRate: nat)
    | Rollback(stale: nat)

  // When something was read: after how many mode changes, and whether the counters were
  // then those of the present mode.
  datatype Moment = Moment(epoch: nat, settled: bool)

  datatype Reading = Half(evidence: Evidence, moment: Moment) | Full(status: Status, moment: Moment)

  // The row a session has read and is going to write back with its batch added.
  datatype WriteSession = WriteSession(row: Stats, moment: Moment)

  // `resets` counts the mode changes whose reset is still to come, `written` the results
  // written since the last mode change. `settled` says that the counters were zeroed
  // since that change and not overwritten by a session that had read them before.
  datatype World = World(
    device: Device, write: Option<WriteSession>, resets: nat, written: nat, epoch: nat, settled: bool,
    readings: seq<Reading>)

  // One session writes at a time (the tracker's lock), and batches count their results.
  ghost predicate Allowed(w: World, e: Event) {
    match e
    case BeginWrite => w.write == None
    case CommitWrite(c) => w.write.Some? && |c.recent| <= c.updates
    case AbortWrite => w.write.Some?
    case Reset(_) => w.resets > 0
    case ReadMode(i) => i < |w.readings| && w.readings[i].Half?
    case Promote(i, _, _) => i < |w.readings| && w.readings[i].Full?
    case Rollback(i) => i < |w.readings| && w.readings[i].Full?
    case _ => true
  }

  ghost function Changed(w: World, mode: Mode): World {
    if w.device.mode == mode then w
    else
      w.(device := w.device.(mode := mode), resets := w.resets + 1, written := 0, epoch := w.epoch + 1,
         settled := false)
  }

  // The automatic change an event makes, if its reading calls for one.
  ghost predicate Acts(w: World, e: Event) {
    match e
    case Promote(i, minPatterns, minRate) =>
      i < |w.readings| && w.readings[i].Full? && Promotes(w.readings[i].status, minPatterns, minRate)
    case Rollback(i) => i < |w.readings| && w.readings[i].Full? && RollsBack(w.readings[i].status)
    case _ => false
  }

  ghost function Now(w: World): Moment {
    Moment(w.epoch, w.settled)
  }

  ghost function Next(w: World, e: Event): World
    requires Allowed(w, e)
  {
    match e
    case BeginWrite => w.(write := Some(WriteSession(w.device.stats, Now(w))))
    case CommitWrite(c) =>
      var session := w.write.value;
      w.(device := w.device.(stats := Moved(session.row, c)), write := None, written := w.written + c.updates,
         settled := session.moment == Moment(w.epoch, true))
    case AbortWrite => w.(write := None)
    case CommitMode(mode) => Changed(w, mode)
    case Reset(ok) =>
      if ok then w.(device := w.device.(stats := NO_STATS), resets := w.resets - 1, settled := true)
      else w.(resets := w.resets - 1)
    case SetAuto(auto) => w.(device := w.device.(auto := auto))
    case Learn(n) => w.(device := w.device.(patterns := n))
    case ReadStats => w.(readings := w.readings + [Half(EvidenceOf(w.device.stats, w.device.patterns), Now(w))])
    case ReadMode(i) =>
      var half := w.readings[i];
      w.(readings := w.readings[i := Full(WithRow(half.evidence, w.device.mode, w.device.auto), half.moment)])
    case Promote(_, _, _) => if Acts(w, e) then Changed(w, Production) else w
    case Rollback(_) => if Acts(w, e) then Changed(w, Learning) else w
  }

  ghost predicate Legal(w: World, es: seq<Event>)
    decreases |es|
  {
    es == [] || (Allowed(w, es[0]) && Legal(Next(w, es[0]), es[1..]))
  }

  ghost function Run(w: World, es: seq<Event>): World
    requires Legal(w, es)
    decreases |es|
  {
    if es == [] then w else Run(Next(w, es[0]), es[1..])
  }

  // A device whose statistics row is new.
  ghost predicate Fresh(w: World) {
    && w.device.stats == NO_STATS && w.write == None && w.resets == 0 && w.written == 0 && w.epoch == 0
    && w.settled && w.readings == []
  }

  ghost function SamplesOf(r: Reading): nat {
    if r.Half? then r.evidence.samples else r.status.samples
  }

  ghost predicate Within(stats: Stats, written: nat) {
    stats.total <= written && |stats.recent| <= written
  }

  // Read in the present mode, from counters of the present mode.
  ghost predicate Current(w: World, m: Moment) {
    m == Moment(w.epoch, true)
  }

  // Settled counters hold nothing but what was written since the last mode change, and
  // so does whatever was read from them.
  ghost predicate Inv(w: World) {
    && (w.settled ==> Within(w.device.stats, w.written))
    && (w.write.Some? ==>
          w.write.value.moment.epoch <= w.epoch
          && (Current(w, w.write.value.moment) ==> Within(w.write.value.row, w.written)))
    && (forall i :: 0 <= i < |w.readings| ==> w.readings[i].moment.epoch <= w.epoch)
    && (forall i :: 0 <= i < |w.readings| && Current(w, w.readings[i].moment) ==>
          SamplesOf(w.readings[i]) <= w.written)
  }

  lemma StepKeeps(w: World, e: Event)
    requires Inv(w) && Allowed(w, e)
    ensures Inv(Next(w, e))
  {
  }

  lemma {:induction false} RunKeeps(w: World, es: seq<Event>)
    requires Inv(w) && Legal(w, es)
    ensures Inv(Run(w, es))
    decreases |es|
  {
    if es != [] {
      StepKeeps(w, es[0]);
      RunKeeps(Next(w, es[0]), es[1..]);
    }
  }

  ghost function ReadingOf(w: World, e: Event): Reading
    requires Acts(w, e)
  {
    if e.Promote? then w.readings[e.reading] else w.readings[e.stale]
  }

  // What an automatic change has to show: fifty results written since the last change,
  // and its thresholds met.
  ghost predicate Justified(w: World, e: Event)
    requires Acts(w, e)
  {
    var s := ReadingOf(w, e).status;
    && w.written >= MIN_TOTAL_REQUESTS
    && (e.Promote? ==> s.auto && s.rate >= e.minRate && s.patterns >= e.minPatterns)
    && (e.Rollback? ==> s.auto && s.mode == Production && s.rate < ROLLBACK_MATCH_RATE)
  }

  // In every run, an automatic change is justified whose statistics were read in the
  // present mode after its counter reset, with no write straddling that reset.
  lemma SwitchNeedsFreshEvidence(w: World, es: seq<Event>, e: Event)
    requires Fresh(w) && Legal(w, es) && Acts(Run(w, es), e)
    requires Current(Run(w, es), ReadingOf(Run(w, es), e).moment)
    ensures Justified(Run(w, es), e)
  {
    RunKeeps(w, es);
  }

  // Calls that read and decide without interruption are justified whenever the counters
  // are settled.
  lemma UninterruptedDecision(w: World, e: Event)
    requires Inv(w) && w.settled
    requires e == Rollback(|w.readings|) || (e.Promote? && e.reading == |w.readings|)
    requires Acts(Next(Next(w, ReadStats), ReadMode(|w.readings|)), e)
    ensures Justified(Next(Next(w, ReadStats), ReadMode(|w.readings|)), e)
  {
    StepKeeps(w, ReadStats);
    StepKeeps(Next(w, ReadStats), ReadMode(|w.readings|));
  }

  // --- Orderly runs -------------------------------------------------------

  ghost predicate Changes(w: World, e: Event)
    requires Allowed(w, e)
  {
    Next(w, e).epoch != w.epoch
  }

  // Every change of mode is followed at once by its reset, which succeeds, and none
  // happens while a session is about to write.
  ghost predicate Orderly(w: World, es: seq<Event>)
    requires Legal(w, es)
    decreases |es|
  {
    es != [] ==>
      var n, rest := Next(w, es[0]), es[1..];
      assert Legal(n, rest);
      if Changes(w, es[0]) then
        w.write == None && rest != [] && rest[0] == Reset(true) && Orderly(Next(n, rest[0]), rest[1..])
      else Orderly(n, rest)
  }

  ghost predicate Calm(w: World) {
    && w.settled && w.resets == 0
    && (w.write.Some? ==> Current(w, w.write.value.moment))
    && forall i :: 0 <= i < |w.readings| ==> w.readings[i].moment.settled
  }

  lemma CalmStep(w: World, e: Event)
    requires Calm(w) && Allowed(w, e) && !Changes(w, e)
    ensures Calm(Next(w, e))
  {
  }

  lemma CalmChange(w: World, e: Event)
    requires Calm(w) && Allowed(w, e) && Changes(w, e) && w.write == None
    ensures Allowed(Next(w, e), Reset(true)) && Calm(Next(Next(w, e), Reset(true)))
  {
  }

  lemma {:induction false} OrderlyIsCalm(w: World, es: seq<Event>)
    requires Calm(w) && Legal(w, es) && Orderly(w, es)
    ensures Calm(Run(w, es))
    decreases |es|
  {
    if es != [] {
      if Changes(w, es[0]) {
        CalmChange(w, es[0]);
        var n, rest := Next(w, es[0]), es[1..];
        OrderlyIsCalm(Next(n, rest[0]), rest[1..]);
      } else {
        CalmStep(w, es[0]);
        OrderlyIsCalm(Next(w, es[0]), es[1..]);
      }
    }
  }

  // In orderly runs, every automatic change on a reading begun since the last change is
  // justified.
  lemma OrderlyChangesAreJustified(w: World, es: seq<Event>, e: Event)
    requires Fresh(w) && Legal(w, es) && Orderly(w, es) && Acts(Run(w, es), e)
    requires ReadingOf(Run(w, es), e).moment.epoch == Run(w, es).epoch
    ensures Justified(Run(w, es), e)
  {
    OrderlyIsCalm(w, es);
    SwitchNeedsFreshEvidence(w, es, e);
  }

  // --- Five ways to change a mode on old evidence -------------------------

  ghost predicate Reaches(w: World, es: seq<Event>, n: World) {
    Legal(w, es) && Run(w, es) == n
  }

  lemma {:induction false} OneMore(w: World, es: seq<Event>, m: World, e: Event)
    requires Reaches(w, es, m) && Allowed(m, e)
    ensures Reaches(w, es + [e], Next(m, e))
    decreases |es|
  {
    if es == [] {
      assert [e][1..] == [] && es + [e] == [e];
      assert Legal(Next(w, e), []) && Run(Next(w, e), []) == Next(w, e);
    } else {
      assert (es + [e])[1..] == es[1..] + [e];
      OneMore(Next(w, es[0]), es[1..], m, e);
    }
  }

  // A learning device that would be rolled back if it were in production.
  ghost predicate Failing(w: World) {
    && w.device.mode == Learning && w.device.auto
    && var e := EvidenceOf(w.device.stats, w.device.patterns);
       e.rate < ROLLBACK_MATCH_RATE && e.samples >= MIN_TOTAL_REQUESTS
  }

  ghost predicate AllMisses(recent: seq<Sample>) {
    forall i :: 0 <= i < |recent| ==> recent[i].result == CloudMiss
  }

  lemma {:induction false} MissesCount(recent: seq<Sample>)
    requires AllMisses(recent)
    ensures HitsIn(recent) == 0 && AttemptsIn(recent) == |recent|
  {
    if recent != [] {
      MissesCount(recent[..|recent| - 1]);
    }
  }

  // A batch of misses.
  ghost function Misses(n: nat): (c: Cache)
    ensures c.updates == |c.recent| == n && AllMisses(c.recent)
  {
    Cache(n, 0, n, 0, seq(n, _ => Sample(CloudMiss, 0)))
  }

  // Statistics whose window holds misses only, and enough of them.
  ghost predicate Hopeless(stats: Stats) {
    AllMisses(stats.recent) && MIN_TOTAL_REQUESTS <= |stats.recent|
  }

  lemma HopelessFails(stats: Stats, patterns: nat)
    requires Hopeless(stats)
    ensures EvidenceOf(stats, patterns).rate == 0 && EvidenceOf(stats, patterns).samples >= MIN_TOTAL_REQUESTS
  {
    MissesCount(stats.recent);
  }

  // A device gets there with fifty misses.
  lemma FiftyMisses(w: World) returns (n: World)
    requires Fresh(w) && w.device.mode == Learning && w.device.auto
    ensures Reaches(w, [] + [BeginWrite] + [CommitWrite(Misses(MIN_TOTAL_REQUESTS))], n)
    ensures Failing(n) && Hopeless(n.device.stats) && n.write == None
  {
    var batch := Misses(MIN_TOTAL_REQUESTS);
    assert [] + batch.recent == batch.recent;
    var w1 := Next(w, BeginWrite);
    n := Next(w1, CommitWrite(batch));
    HopelessFails(n.device.stats, n.device.patterns);
    OneMore(w, [], w, BeginWrite);
    OneMore(w, [] + [BeginWrite], w1, CommitWrite(batch));
  }

  // An uninterrupted reading after a run.
  lemma ThenReads(w: World, es: seq<Event>, m: World) returns (n: World)
    requires Reaches(w, es, m)
    ensures Reaches(w, es + [ReadStats] + [ReadMode(|m.readings|)], n)
    ensures n == m.(readings := m.readings + [Full(StatusOf(m.device), Now(m))])
  {
    var i, m1 := |m.readings|, Next(m, ReadStats);
    n := Next(m1, ReadMode(i));
    assert n.readings == m.readings + [Full(StatusOf(m.device), Now(m))];
    OneMore(w, es, m, ReadStats);
    OneMore(w, es + [ReadStats], m1, ReadMode(i));
  }

  // A mode change between the reading and the decision: a device that an operator has
  // just moved to learning is promoted with no result written since.
  lemma StaleReadingActs(w: World, minPatterns: nat, minRate: nat) returns (n: World)
    requires w.device.mode == Production && Promotes(StatusOf(w.device), minPatterns, minRate)
    ensures var i := |w.readings|;
            && Reaches(w, [] + [ReadStats] + [ReadMode(i)] + [CommitMode(Learning)] + [Reset(true)], n)
            && Acts(n, Promote(i, minPatterns, minRate)) && n.device.mode == Learning && n.written == 0
  {
    var i := |w.readings|;
    var w1 := Next(w, ReadStats);
    var w2 := Next(w1, ReadMode(i));
    var w3 := Next(w2, CommitMode(Learning));
    n := Next(w3, Reset(true));
    OneMore(w, [], w, ReadStats);
    OneMore(w, [] + [ReadStats], w1, ReadMode(i));
    OneMore(w, [] + [ReadStats] + [ReadMode(i)], w2, CommitMode(Learning));
    OneMore(w, [] + [ReadStats] + [ReadMode(i)] + [CommitMode(Learning)], w3, Reset(true));
  }

  // One in the middle of the reading: the statistics are the learning phase's, the row
  // says production, and the device an operator has just promoted is rolled back.
  lemma TornReadingActs(w: World) returns (n: World)
    requires Failing(w)
    ensures var i := |w.readings|;
            && Reaches(w, [] + [ReadStats] + [CommitMode(Production)] + [Reset(true)] + [ReadMode(i)], n)
            && Acts(n, Rollback(i)) && n.device.mode == Production && n.written == 0
  {
    var i := |w.readings|;
    var w1 := Next(w, ReadStats);
    var w2 := Next(w1, CommitMode(Production));
    var w3 := Next(w2, Reset(true));
    n := Next(w3, ReadMode(i));
    OneMore(w, [], w, ReadStats);
    OneMore(w, [] + [ReadStats], w1, CommitMode(Production));
    OneMore(w, [] + [ReadStats] + [CommitMode(Production)], w2, Reset(true));
    OneMore(w, [] + [ReadStats] + [CommitMode(Production)] + [Reset(true)], w3, ReadMode(i));
  }

  // A reading between the two halves of a mode change: old statistics, new mode.
  lemma EarlyReadingActs(w: World) returns (n: World)
    requires Failing(w)
    ensures var i := |w.readings|;
            && Reaches(w, [] + [CommitMode(Production)] + [ReadStats] + [ReadMode(i)], n)
            && Acts(n, Rollback(i)) && n.device.mode == Production && n.written == 0
            && n.readings[i].moment.epoch == n.epoch
  {
    OneMore(w, [], w, CommitMode(Production));
    n := ThenReads(w, [] + [CommitMode(Production)], Next(w, CommitMode(Production)));
  }

  // A reset that fails leaves the old counters: the next reading acts on them.
  lemma FailedResetActs(w: World) returns (n: World)
    requires Failing(w)
    ensures var i := |w.readings|;
            && Reaches(w, [] + [CommitMode(Production)] + [Reset(false)] + [ReadStats] + [ReadMode(i)], n)
            && Acts(n, Rollback(i)) && n.device.mode == Production && n.written == 0
  {
    var w1 := Next(w, CommitMode(Production));
    OneMore(w, [], w, CommitMode(Production));
    OneMore(w, [] + [CommitMode(Production)], w1, Reset(false));
    n := ThenReads(w, [] + [CommitMode(Production)] + [Reset(false)], Next(w1, Reset(false)));
  }

  // A mode change with its reset while a session is about to write one more miss.
  lemma StraddlingWrite(w: World) returns (n: World)
    requires Failing(w) && Hopeless(w.device.stats) && w.write == None
    ensures Reaches(w, [] + [BeginWrite] + [CommitMode(Production)] + [Reset(true)] + [CommitWrite(Misses(1))], n)
    ensures n.device.mode == Production && n.device.auto && Hopeless(n.device.stats)
    ensures n.written == 1 && n.epoch == w.epoch + 1 && n.resets == w.resets && n.readings == w.readings
  {
    var w1 := Next(w, BeginWrite);
    var w2 := Next(w1, CommitMode(Production));
    var w3 := Next(w2, Reset(true));
    n := Next(w3, CommitWrite(Misses(1)));
    OneMore(w, [], w, BeginWrite);
    OneMore(w, [] + [BeginWrite], w1, CommitMode(Production));
    OneMore(w, [] + [BeginWrite] + [CommitMode(Production)], w2, Reset(true));
    OneMore(w, [] + [BeginWrite] + [CommitMode(Production)] + [Reset(true)], w3, CommitWrite(Misses(1)));
  }

  // It brings the old counters back, and one result later the device is rolled back on
  // them, by a reading taken after change and reset.
  lemma StraddlingWriteActs(w: World) returns (n: World)
    requires Failing(w) && Hopeless(w.device.stats) && w.write == None
    ensures var i := |w.readings|;
            && Reaches(w, [] + [BeginWrite] + [CommitMode(Production)] + [Reset(true)] + [CommitWrite(Misses(1))]
                          + [ReadStats] + [ReadMode(i)], n)
            && Acts(n, Rollback(i)) && n.device.mode == Production && n.written == 1
            && n.readings[i].moment.epoch == n.epoch && n.resets == w.resets
  {
    var m := StraddlingWrite(w);
    HopelessFails(m.device.stats, m.device.patterns);
    n := ThenReads(w, [] + [BeginWrite] + [CommitMode(Production)] + [Reset(true)] + [CommitWrite(Misses(1))], m);
  }
}
