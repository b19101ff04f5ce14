// MatchRateTracker of core/match_tracker.py: match results counted in memory and
// moved to the stored statistics in batches, with a rolling window.

module MatchTracker {
  import opened Options

  const ROLLING_WINDOW := 1000
  const FLUSH_THRESHOLD := 50

  datatype Result = LocalHit | CloudMiss | Error

  // An entry of recent_results.
  datatype Sample = Sample(result: Result, at: int)

  // A device's entry of _stats_cache.
  datatype Cache = Cache(updates: nat, hits: nat, misses: nat, errors: nat, recent: seq<Sample>)

  // The counters of a match_stats row; `rate` is match_rate_pct in hundredths.
  datatype Stats = Stats(total: nat, hits: nat, misses: nat, errors: nat, rate: nat, recent: seq<Sample>)

  const NO_UPDATES := Cache(0, 0, 0, 0, [])
  const NO_STATS := Stats(0, 0, 0, 0, 0, [])

  function Last<T>(n: nat, s: seq<T>): seq<T> {
    if |s| <= n then s else s[|s| - n..]
  }

  // round(hits / total * 100, 2), in hundredths: to the nearest, ties to even.
  function Rate(hits: nat, total: nat): (r: nat)
    requires 0 < total && hits <= total
  {
    var q, rest := 10000 * hits / total, 10000 * hits % total;
    if 2 * rest < total || (2 * rest == total && q % 2 == 0) then q else q + 1
  }

  function Recorded(c: Cache, s: Sample): Cache {
    var recent := c.recent + [s];
    Cache(
      c.updates + 1,
      c.hits + (if s.result == LocalHit then 1 else 0),
      c.misses + (if s.result == CloudMiss then 1 else 0),
      c.errors + (if s.result == Error then 1 else 0),
      if |recent| > 2 * ROLLING_WINDOW then Last(ROLLING_WINDOW, recent) else recent)
  }

  // The stored row after a batch was moved into it.
  function Moved(st: Stats, c: Cache): Stats {
    var hits, misses := st.hits + c.hits, st.misses + c.misses;
    Stats(
      st.total + c.updates, hits, misses, st.errors + c.errors,
      if hits + misses > 0 then Rate(hits, hits + misses) else 0,
      Last(ROLLING_WINDOW, st.recent + c.recent))
  }

  function CacheOf(caches: map<string, Cache>, device: string): Cache {
    if device in caches then caches[device] else NO_UPDATES
  }

  function StatsOf(rows: map<string, Stats>, device: string): Stats {
    if device in rows then rows[device] else NO_STATS
  }

  class MatchRateTracker {
    var caches: map<string, Cache>
    var rows: map<string, Stats>

    constructor (rows: map<string, Stats>)
      ensures caches == map[] && this.rows == rows
    {
      caches := map[];
      this.rows := rows;
    }

    method FlushCache(device: string)
      modifies this
      ensures var c := CacheOf(old(caches), device);
              if c.updates == 0 then caches == old(caches) && rows == old(rows)
              else
                && caches == old(caches)[device := NO_UPDATES]
                && rows == old(rows)[device := Moved(StatsOf(old(rows), device), c)]
    {
      var c := CacheOf(caches, device);
      if c.updates == 0 {
        return;
      }
      var st := StatsOf(rows, device);
      var hits, misses := st.hits + c.hits, st.misses + c.misses;
      var attempted := hits + misses;
      var recent := st.recent + c.recent;
      if |recent| > ROLLING_WINDOW {
        recent := recent[|recent| - ROLLING_WINDOW..];
      }
      var rate := if attempted > 0 then Rate(hits, attempted) else 0;
      rows := rows[device := Stats(st.total + c.updates, hits, misses, st.errors + c.errors, rate, recent)];
      caches := caches[device := NO_UPDATES];
    }

    // A device's entry with one result more.
    method Count(entry: Cache, s: Sample) returns (c: Cache)
      ensures c == Recorded(entry, s)
    {
      c := entry.(updates := entry.updates + 1);
      match s.result {
        case LocalHit => c := c.(hits := c.hits + 1);
        case CloudMiss => c := c.(misses := c.misses + 1);
        case Error => c := c.(errors := c.errors + 1);
      }
      c := c.(recent := c.recent + [s]);
      if |c.recent| > 2 * ROLLING_WINDOW {
        c := c.(recent := c.recent[|c.recent| - ROLLING_WINDOW..]);
      }
    }

    method RecordResult(device: string, s: Sample)
      modifies this
      ensures var c := Recorded(CacheOf(old(caches), device), s);
              if c.updates < 50 then caches == old(caches)[device := c] && rows == old(rows)
              else
                && caches == old(caches)[device := NO_UPDATES]
                && rows == old(rows)[device := Moved(StatsOf(old(rows), device), c)]
    {
      var c := Count(CacheOf(caches, device), s);
      caches := caches[device := c];
      if c.updates >= FLUSH_THRESHOLD {
        FlushCache(device);
        assert caches == old(caches)[device := NO_UPDATES];
      }
    }
  }

  // --- Interleavings ------------------------------------------------------

  // A flush of one device reads the row, moves the batch into it and commits;
  // results may be recorded in between. The device's lock admits one flush.
  datatype Event = Record(sample: Sample) | ReadRow | MoveBatch | CommitRow

  datatype Session = Session(row: Stats, moved: bool)

  // `log` is every result ever recorded.
  datatype World = World(cache: Cache, stored: Stats, session: Option<Session>, log: seq<Sample>)

  ghost const START := World(NO_UPDATES, NO_STATS, None, [])

  predicate Allowed(w: World, e: Event) {
    match e
    case Record(_) => true
    case ReadRow => w.session.None?
    case MoveBatch => w.session.Some? && !w.session.value.moved
    case CommitRow => w.session.Some? && w.session.value.moved
  }

  function Next(w: World, e: Event): World
    requires Allowed(w, e)
  {
    match e
    case Record(s) => w.(cache := Recorded(w.cache, s), log := w.log + [s])
    case ReadRow => w.(session := Some(Session(w.stored, false)))
    case MoveBatch => w.(session := Some(Session(Moved(w.session.value.row, w.cache), true)), cache := NO_UPDATES)
    case CommitRow => w.(stored := w.session.value.row, session := None)
  }

  ghost predicate Legal(w: World, es: seq<Event>)
    decreases |es|
  {
    es == [] || (Allowed(w, es[0]) && Legal(Next(w, es[0]), es[1..]))
  }

  ghost function Run(w: World, es: seq<Event>): World
    requires Legal(w, es)
    decreases |es|
  {
    if es == [] then w else Run(Next(w, es[0]), es[1..])
  }

  ghost function CountOf(log: seq<Sample>, r: Result): nat {
    if log == [] then 0
    else CountOf(log[..|log| - 1], r) + if log[|log| - 1].result == r then 1 else 0
  }

  // The row as it will be once the session in progress has committed.
  ghost function Latest(w: World): Stats {
    if w.session.Some? then w.session.value.row else w.stored
  }

  // `rate` is the share of the hits in hundredths of a percent, to the nearest, and the
  // even one of two; zero when there was no attempt.
  ghost predicate Nearest(hits: nat, attempts: nat, rate: nat) {
    if attempts == 0 then rate == 0
    else
      var scaled, share := 2 * (attempts * rate), 20000 * hits;
      && scaled <= share + attempts && share <= scaled + attempts && rate <= 10000
      && (scaled == share + attempts || share == scaled + attempts ==> rate % 2 == 0)
  }

  ghost predicate Inv(w: World) {
    var st, c := Latest(w), w.cache;
    && st.hits + c.hits == CountOf(w.log, LocalHit)
    && st.misses + c.misses == CountOf(w.log, CloudMiss)
    && st.errors + c.errors == CountOf(w.log, Error)
    && st.total == st.hits + st.misses + st.errors && c.updates == c.hits + c.misses + c.errors
    && Last(ROLLING_WINDOW, st.recent + c.recent) == Last(ROLLING_WINDOW, w.log)
    && |st.recent| <= ROLLING_WINDOW && |c.recent| <= 2 * ROLLING_WINDOW
    && Nearest(st.hits, st.hits + st.misses, st.rate)
    && (w.session.Some? && !w.session.value.moved ==> w.session.value.row == w.stored)
  }

  // --- Windows ------------------------------------------------------------

  lemma LastAppend<T>(n: nat, a: seq<T>, b: seq<T>, x: T)
    requires Last(n, a) == Last(n, b)
    ensures Last(n, a + [x]) == Last(n, b + [x])
  {
    LastOfLast(n, a, [x]);
    LastOfLast(n, b, [x]);
  }

  lemma LastOfLast<T>(n: nat, a: seq<T>, b: seq<T>)
    ensures Last(n, Last(n, a) + b) == Last(n, a + b)
  {
  }

  // Truncating the pending list does not touch the window.
  lemma RecordKeepsWindow(row: seq<Sample>, c: Cache, log: seq<Sample>, s: Sample)
    requires Last(ROLLING_WINDOW, row + c.recent) == Last(ROLLING_WINDOW, log)
    ensures Last(ROLLING_WINDOW, row + Recorded(c, s).recent) == Last(ROLLING_WINDOW, log + [s])
  {
    LastAppend(ROLLING_WINDOW, row + c.recent, log, s);
    assert row + c.recent + [s] == row + (c.recent + [s]);
  }

  lemma StepKeeps(w: World, e: Event)
    requires Inv(w) && Allowed(w, e)
    ensures Inv(Next(w, e))
  {
    match e {
      case Record(s) =>
        assert (w.log + [s])[..|w.log|] == w.log;
        RecordKeepsWindow(Latest(w).recent, w.cache, w.log, s);
      case MoveBatch =>
        var all := Latest(w).recent + w.cache.recent;
        LastOfLast(ROLLING_WINDOW, all, []);
        assert Last(ROLLING_WINDOW, all) + [] == Last(ROLLING_WINDOW, all) && all + [] == all;
        MovedRate(Latest(w), w.cache);
      case _ =>
    }
  }

  lemma {:induction false} RunKeeps(w: World, es: seq<Event>)
    requires Inv(w) && Legal(w, es)
    ensures Inv(Run(w, es))
    decreases |es|
  {
    if es != [] {
      StepKeeps(w, es[0]);
      RunKeeps(Next(w, es[0]), es[1..]);
    }
  }

  ghost predicate Exact(w: World) {
    && w.stored.hits + w.cache.hits == CountOf(w.log, LocalHit)
    && w.stored.misses + w.cache.misses == CountOf(w.log, CloudMiss)
    && w.stored.errors + w.cache.errors == CountOf(w.log, Error)
    && w.stored.total + w.cache.updates == |w.log|
    && Nearest(w.stored.hits, w.stored.hits + w.stored.misses, w.stored.rate)
    && SameEnd(w.stored.recent + w.cache.recent, w.log, 1000)
    && |w.stored.recent| <= 1000 && |w.cache.recent| <= 2000
  }

  // However records and flushes interleave: what is stored plus what is pending is
  // exactly what was recorded, the stored rate is that of the stored counts, and the
  // stored window followed by the pending results ends in the last 1000 results ever
  // recorded. (Between flushes; while one runs, the row it is about to commit stands for
  // the stored one.)
  lemma CountsAreExact(es: seq<Event>)
    requires Legal(START, es) && Run(START, es).session == None
    ensures Exact(Run(START, es))
  {
    StartIsExact();
    RunKeeps(START, es);
    BetweenFlushes(Run(START, es));
  }

  lemma StartIsExact()
    ensures Inv(START)
  {
  }

  lemma BetweenFlushes(w: World)
    requires Inv(w) && w.session == None
    ensures Exact(w)
  {
    EveryResultCounts(w.log);
    WindowBetweenFlushes(w);
  }

  lemma WindowBetweenFlushes(w: World)
    requires Inv(w) && w.session == None
    ensures SameEnd(w.stored.recent + w.cache.recent, w.log, 1000)
  {
    SameLast(w.stored.recent + w.cache.recent, w.log);
  }

  // `s` ends in the last `n` entries of `log`, or in all of it when it is shorter.
  ghost predicate SameEnd(s: seq<Sample>, log: seq<Sample>, n: nat) {
    var k := if |log| < n then |log| else n;
    k <= |s| && s[|s| - k..] == log[|log| - k..]
  }

  lemma SameLast(s: seq<Sample>, log: seq<Sample>)
    requires Last(ROLLING_WINDOW, s) == Last(ROLLING_WINDOW, log)
    ensures SameEnd(s, log, 1000)
  {
    var k := if |log| < 1000 then |log| else 1000;
    assert Last(1000, log) == log[|log| - k..];
    assert Last(1000, s) == s[|s| - |Last(1000, s)|..];
  }

  lemma {:induction false} EveryResultCounts(log: seq<Sample>)
    ensures CountOf(log, LocalHit) + CountOf(log, CloudMiss) + CountOf(log, Error) == |log|
  {
    if log != [] {
      EveryResultCounts(log[..|log| - 1]);
    }
  }

  lemma Quotient(n: nat, total: nat, bound: nat)
    requires 0 < total && n <= bound * total
    ensures var q, rest := n / total, n % total;
            n == total * q + rest && rest < total && (q < bound || (q == bound && rest == 0))
  {
    var q, rest := n / total, n % total;
    assert n == total * q + rest;
    Larger(total, q, bound);
  }

  lemma {:induction false} Larger(total: nat, q: nat, bound: nat)
    ensures q > bound ==> total * q >= total * bound + total
    decreases q
  {
    if q > bound {
      assert total * q == total * (q - 1) + total;
      Larger(total, q - 1, bound);
    }
  }

  // The rate is the nearest hundredth of a percent.
  lemma RateIsNearest(hits: nat, total: nat)
    requires 0 < total && hits <= total
    ensures Nearest(hits, total, Rate(hits, total))
  {
    var n, rate := 10000 * hits, Rate(hits, total);
    var q, rest := n / total, n % total;
    Quotient(n, total, 10000);
    Rounded(n, total, q, rest, rate);
    NearestIs(hits, total, rate, total * rate);
  }

  // What rounding a quotient makes of it.
  lemma Rounded(n: nat, total: nat, q: nat, rest: nat, rate: nat)
    requires n == total * q + rest && rest < total
    requires rate == if 2 * rest < total || (2 * rest == total && q % 2 == 0) then q else q + 1
    ensures 2 * (total * rate) <= 2 * n + total && 2 * n <= 2 * (total * rate) + total
    ensures 2 * (total * rate) == 2 * n + total || 2 * n == 2 * (total * rate) + total ==> rate % 2 == 0
  {
    assert total * (q + 1) == total * q + total;
  }

  lemma NearestIs(hits: nat, total: nat, rate: nat, scaled: nat)
    requires total > 0 && scaled == total * rate && rate <= 10000
    requires 2 * scaled <= 20000 * hits + total && 20000 * hits <= 2 * scaled + total
    requires 2 * scaled == 20000 * hits + total || 20000 * hits == 2 * scaled + total ==> rate % 2 == 0
    ensures Nearest(hits, total, rate)
  {
  }

  // A moved batch leaves the rate of the counts it leaves.
  lemma MovedRate(st: Stats, c: Cache)
    ensures var m := Moved(st, c);
            Nearest(m.hits, m.hits + m.misses, m.rate)
  {
    var hits, total := st.hits + c.hits, st.hits + c.hits + st.misses + c.misses;
    if total > 0 {
      RateIsNearest(hits, total);
    }
  }
}
