// Pairing responses with captured requests (LearningPipeline in core/pipeline.py):
// a bounded in-memory deque and a persisted table, for one device.

module Correlation {
  import opened Options

  const MEMORY_LIMIT := 1000
  const FALLBACK_LIMIT := 10

  // A captured request. `content` stands for method, path, headers, body and query.
  datatype Request = Request(key: string, protocol: string, at: int, content: string)

  // A session_cache row.
  datatype Row = Row(request: Request, correlated: bool)

  datatype State = State(memory: seq<Request>, rows: seq<Row>)

  // --- What each call does ------------------------------------------------

  function Registered(s: State, r: Request): State {
    var kept := if |s.memory| < MEMORY_LIMIT then s.memory else s.memory[|s.memory| - MEMORY_LIMIT + 1..];
    State(kept + [r], s.rows + [Row(r, false)])
  }

  // Whether the response asks for `r` (the filter of _pop_pending).
  predicate Answers(r: Request, key: Option<string>, protocol: string, cutoff: int) {
    if key.Some? then r.key == key.value else r.protocol == protocol && cutoff <= r.at
  }

  // The position of the first request the response asks for, or the length.
  function FirstAnswer(memory: seq<Request>, key: Option<string>, protocol: string, cutoff: int): (i: nat)
    ensures i <= |memory|
    ensures i < |memory| ==> Answers(memory[i], key, protocol, cutoff)
    ensures forall j :: 0 <= j < i ==> !Answers(memory[j], key, protocol, cutoff)
  {
    if memory == [] then 0
    else if Answers(memory[0], key, protocol, cutoff) then 0
    else 1 + FirstAnswer(memory[1..], key, protocol, cutoff)
  }

  function Without<T>(s: seq<T>, i: nat): seq<T>
    requires i < |s|
  {
    s[..i] + s[i + 1..]
  }

  // UPDATE session_cache SET correlated WHERE correlation_key = key.
  function Marked(rows: seq<Row>, key: string): (m: seq<Row>)
    ensures |m| == |rows|
    ensures forall i :: 0 <= i < |rows| ==>
              m[i] == if rows[i].request.key == key then Row(rows[i].request, true) else rows[i]
  {
    seq(|rows|, i requires 0 <= i < |rows| =>
      if rows[i].request.key == key then Row(rows[i].request, true) else rows[i])
  }

  predicate PendingRow(row: Row, key: string) {
    row.request.key == key && !row.correlated
  }

  // The pending row with this key, if there is one.
  function RowOf(rows: seq<Row>, key: string): Option<Request> {
    if rows == [] then None
    else if PendingRow(rows[0], key) then Some(rows[0].request)
    else RowOf(rows[1..], key)
  }

  // DELETE FROM session_cache WHERE correlation_key = key AND NOT correlated.
  function Dropped(rows: seq<Row>, key: string): seq<Row> {
    if rows == [] then []
    else if PendingRow(rows[0], key) then Dropped(rows[1..], key)
    else [rows[0]] + Dropped(rows[1..], key)
  }

  // The pending requests of the table that are not older than `cutoff`.
  ghost function Eligible(rows: seq<Row>, cutoff: int): set<Request> {
    set row | row in rows && !row.correlated && cutoff <= row.request.at :: row.request
  }

  // What the database may answer to "the ten newest pending rows": rows with equal
  // timestamps come in any order.
  ghost predicate NewestPending(answer: seq<Request>, rows: seq<Row>, cutoff: int) {
    && (forall i :: 0 <= i < |answer| ==> answer[i] in Eligible(rows, cutoff))
    && (forall i, j :: 0 <= i < j < |answer| ==> answer[i] != answer[j] && answer[j].at <= answer[i].at)
    && |answer| <= FALLBACK_LIMIT
    && (forall r, i :: r in Eligible(rows, cutoff) && r !in answer && 0 <= i < |answer| ==> r.at <= answer[i].at)
    && (forall r :: r in Eligible(rows, cutoff) && r !in answer ==> |answer| == FALLBACK_LIMIT)
  }

  function FirstOfProtocol(answer: seq<Request>, protocol: string): Option<Request> {
    if answer == [] then None
    else if answer[0].protocol == protocol then Some(answer[0])
    else FirstOfProtocol(answer[1..], protocol)
  }

  // match_response, as one atomic step: the new state and the request paired.
  function Matched(s: State, key: Option<string>, protocol: string, cutoff: int, answer: seq<Request>)
    : (State, Option<Request>)
  {
    var i := FirstAnswer(s.memory, key, protocol, cutoff);
    if i < |s.memory| then
      var r := s.memory[i];
      (State(Without(s.memory, i), Marked(s.rows, r.key)), Some(r))
    else
      var found := if key.Some? then RowOf(s.rows, key.value) else FirstOfProtocol(answer, protocol);
      if found.None? then (s, None)
      else (State(s.memory, Marked(s.rows, found.value.key)), found)
  }

  function Discarded(s: State, key: string): State {
    var i := FirstAnswer(s.memory, Some(key), "", 0);
    State(if i < |s.memory| then Without(s.memory, i) else s.memory, Dropped(s.rows, key))
  }

  // --- The pipeline -------------------------------------------------------

  class LearningPipeline {
    var memory: seq<Request>
    var rows: seq<Row>

    ghost function View(): State
      reads this
    {
      State(memory, rows)
    }

    // A new process: the table persists, the memory does not.
    constructor (persisted: seq<Row>)
      ensures View() == State([], persisted)
    {
      memory, rows := [], persisted;
    }

    method RegisterRequest(r: Request)
      modifies this
      ensures View() == Registered(old(View()), r)
    {
      memory := memory + [r];
      if |memory| > MEMORY_LIMIT {
        memory := memory[|memory| - MEMORY_LIMIT..];
      }
      rows := rows + [Row(r, false)];
    }

    method PopPending(key: Option<string>, protocol: string, cutoff: int) returns (matched: Option<Request>)
      modifies this`memory
      ensures var i := FirstAnswer(old(memory), key, protocol, cutoff);
              if i < |old(memory)| then
                matched == Some(old(memory)[i]) && memory == Without(old(memory), i)
              else matched == None && memory == old(memory)
    {
      var i := 0;
      while i < |memory|
        invariant 0 <= i <= |memory| && memory == old(memory)
        invariant forall j :: 0 <= j < i ==> !Answers(memory[j], key, protocol, cutoff)
      {
        if Answers(memory[i], key, protocol, cutoff) {
          matched := Some(memory[i]);
          memory := Without(memory, i);
          return;
        }
        i := i + 1;
      }
      return None;
    }

    method ClaimKeyedRow(key: string) returns (matched: Option<Request>)
      modifies this`rows
      ensures matched == RowOf(old(rows), key)
      ensures rows == if matched.Some? then Marked(old(rows), key) else old(rows)
    {
      matched := RowOf(rows, key);
      if matched.Some? {
        rows := Marked(rows, key);
      }
    }

    // `answer` is the database's reply, needed only without a key.
    method MatchResponse(key: Option<string>, protocol: string, cutoff: int, answer: seq<Request>)
      returns (matched: Option<Request>)
      modifies this
      ensures (View(), matched) == Matched(old(View()), key, protocol, cutoff, answer)
    {
      matched := PopPending(key, protocol, cutoff);
      if matched.Some? {
        rows := Marked(rows, matched.value.key);
      } else if key.Some? {
        matched := ClaimKeyedRow(key.value);
        if matched.Some? {
          RowOfKey(old(rows), key.value);
        }
      } else {
        var i := 0;
        while i < |answer|
          invariant 0 <= i <= |answer| && View() == old(View())
          invariant FirstOfProtocol(answer[i..], protocol) == FirstOfProtocol(answer, protocol)
        {
          if answer[i].protocol == protocol {
            matched := Some(answer[i]);
            rows := Marked(rows, answer[i].key);
            return;
          }
          i := i + 1;
        }
      }
    }

    // `error` tells the match tracker of a request that failed.
    method DiscardRequest(key: string, countAsError: bool) returns (removed: bool, error: bool)
      modifies this
      ensures View() == Discarded(old(View()), key)
      ensures removed <==> View() != old(View())
      ensures error <==> countAsError && exists i :: 0 <= i < |old(memory)| && old(memory)[i].key == key
    {
      var popped := PopPending(Some(key), "", 0);
      ghost var i := FirstAnswer(old(memory), Some(key), "", 0);
      assert FirstAnswer(old(memory), Some(key), "", 0) == i;
      var rest := Dropped(rows, key);
      DroppedIsShorter(rows, key);
      error := popped.Some? && countAsError;
      removed := popped.Some? || |rest| < |rows|;
      rows := rest;
    }

    method Restart()
      modifies this`memory
      ensures View() == old(View()).(memory := [])
    {
      memory := [];
    }

    // clear_cache of the buffer store, after a successful flush.
    method ClearCache()
      modifies this`rows
      ensures View() == old(View()).(rows := [])
    {
      rows := [];
    }
  }

  lemma {:induction false} RowOfKey(rows: seq<Row>, key: string)
    ensures RowOf(rows, key).Some? ==> Row(RowOf(rows, key).value, false) in rows && RowOf(rows, key).value.key == key
    ensures RowOf(rows, key).None? ==> forall row :: row in rows ==> !PendingRow(row, key)
  {
    if rows != [] {
      RowOfKey(rows[1..], key);
    }
  }

  lemma {:induction false} DroppedExactly(rows: seq<Row>, key: string)
    ensures forall row :: row in Dropped(rows, key) <==> row in rows && !PendingRow(row, key)
  {
    if rows != [] {
      DroppedExactly(rows[1..], key);
    }
  }

  lemma {:induction false} DroppedIsShorter(rows: seq<Row>, key: string)
    ensures |Dropped(rows, key)| <= |rows|
    ensures |Dropped(rows, key)| == |rows| ==> Dropped(rows, key) == rows
  {
    if rows != [] {
      DroppedIsShorter(rows[1..], key);
    }
  }

  // --- Runs ---------------------------------------------------------------

  datatype Event =
    | Register(request: Request)
    | Respond(key: Option<string>, protocol: string, cutoff: int, answer: seq<Request>)
    | Discard(discarded: string)
    | Restart
    | ClearCache

  // The outcome of a call, as its caller sees it.
  datatype Outcome = Paired(request: Request) | Dismissed(key: string)

  // A state with what happened before: the requests captured, the keys seen and
  // the outcomes in order.
  datatype World = World(s: State, captured: set<Request>, seen: set<string>, log: seq<Outcome>)

  ghost const START := World(State([], []), {}, {}, [])

  // Keys are fresh, and the database answers as asked.
  ghost predicate Allowed(w: World, e: Event) {
    match e
    case Register(r) => r.key !in w.seen
    case Respond(key, _, cutoff, answer) => key.None? ==> NewestPending(answer, w.s.rows, cutoff)
    case _ => true
  }

  ghost function Next(w: World, e: Event): World {
    match e
    case Register(r) => World(Registered(w.s, r), w.captured + {r}, w.seen + {r.key}, w.log)
    case Respond(key, protocol, cutoff, answer) =>
      var (s, found) := Matched(w.s, key, protocol, cutoff, answer);
      World(s, w.captured, w.seen, w.log + (if found.Some? then [Paired(found.value)] else []))
    case Discard(k) => World(Discarded(w.s, k), w.captured, w.seen + {k}, w.log + [Dismissed(k)])
    case Restart => w.(s := w.s.(memory := []))
    case ClearCache => w.(s := w.s.(rows := []))
  }

  ghost predicate Legal(w: World, es: seq<Event>)
    decreases |es|
  {
    es == [] || (Allowed(w, es[0]) && Legal(Next(w, es[0]), es[1..]))
  }

  ghost function Run(w: World, es: seq<Event>): World
    decreases |es|
  {
    if es == [] then w else Run(Next(w, es[0]), es[1..])
  }

  // The keys that may not be paired any more.
  ghost predicate Spent(w: World, key: string) {
    exists i :: 0 <= i < |w.log| && KeyOf(w.log[i]) == key
  }

  ghost function KeyOf(o: Outcome): string {
    match o case Paired(r) => r.key case Dismissed(k) => k
  }

  // Every pairing is of a request that no earlier outcome was about.
  ghost predicate OnceOnly(log: seq<Outcome>) {
    forall i, j :: 0 <= i < j < |log| && log[j].Paired? ==> KeyOf(log[i]) != KeyOf(log[j])
  }

  ghost predicate Inv(w: World) {
    && (forall i :: 0 <= i < |w.s.memory| ==> w.s.memory[i] in w.captured && !Spent(w, w.s.memory[i].key))
    && (forall i, j :: 0 <= i < j < |w.s.memory| ==> w.s.memory[i].key != w.s.memory[j].key)
    && (forall row :: row in w.s.rows ==> row.request in w.captured && (!row.correlated ==> !Spent(w, row.request.key)))
    // a request still in memory is not marked correlated in the table
    && (forall i, row :: 0 <= i < |w.s.memory| && row in w.s.rows && row.request.key == w.s.memory[i].key ==>
          !row.correlated)
    && (forall r :: r in w.captured ==> r.key in w.seen)
    && (forall r, q :: r in w.captured && q in w.captured && r.key == q.key ==> r == q)
    && (forall i :: 0 <= i < |w.log| ==> KeyOf(w.log[i]) in w.seen)
    && (forall i :: 0 <= i < |w.log| && w.log[i].Paired? ==> w.log[i].request in w.captured)
    && OnceOnly(w.log)
  }

  lemma {:induction false} FirstOfProtocolIs(answer: seq<Request>, protocol: string) returns (i: nat)
    ensures i <= |answer|
    ensures forall j :: 0 <= j < i ==> answer[j].protocol != protocol
    ensures FirstOfProtocol(answer, protocol) ==
            if i < |answer| then Some(answer[i]) else None
    ensures i < |answer| ==> answer[i].protocol == protocol
  {
    if answer == [] || answer[0].protocol == protocol {
      i := 0;
    } else {
      var k := FirstOfProtocolIs(answer[1..], protocol);
      i := k + 1;
    }
  }

  // What a match takes: a request in memory, or a pending row whose request is
  // not in memory.
  lemma MatchTakes(w: World, e: Event)
    requires Inv(w) && e.Respond? && Allowed(w, e)
    ensures var (s, found) := Matched(w.s, e.key, e.protocol, e.cutoff, e.answer);
            found.Some? ==>
              && found.value in w.captured && !Spent(w, found.value.key)
              && Answers(found.value, e.key, e.protocol, e.cutoff)
              && s.rows == Marked(w.s.rows, found.value.key)
              && (forall r :: r in s.memory ==> r in w.s.memory && r.key != found.value.key)
              && (forall i, j :: 0 <= i < j < |s.memory| ==> s.memory[i].key != s.memory[j].key)
  {
    var i := FirstAnswer(w.s.memory, e.key, e.protocol, e.cutoff);
    if i == |w.s.memory| {
      if e.key.Some? {
        RowOfKey(w.s.rows, e.key.value);
      } else {
        var k := FirstOfProtocolIs(e.answer, e.protocol);
      }
    }
  }

  // Rows marked for a key: those left pending were pending and have other keys.
  lemma MarkedRow(rows: seq<Row>, key: string, row: Row)
    requires row in Marked(rows, key)
    ensures row in rows || (row.correlated && Row(row.request, false) in rows)
    ensures !row.correlated ==> row in rows && row.request.key != key
    ensures row.request.key != key ==> row in rows
  {
    var i :| 0 <= i < |rows| && Marked(rows, key)[i] == row;
    assert rows[i] in rows;
    assert rows[i] == Row(row.request, false) || rows[i] == Row(row.request, true);
  }

  // Pairing a request of the world with a response.
  lemma PairingKeeps(w: World, n: World, found: Request)
    requires Inv(w) && found in w.captured && !Spent(w, found.key)
    requires n.captured == w.captured && n.seen == w.seen && n.log == w.log + [Paired(found)]
    requires n.s.rows == Marked(w.s.rows, found.key)
    requires forall r :: r in n.s.memory ==> r in w.s.memory && r.key != found.key
    requires forall i, j :: 0 <= i < j < |n.s.memory| ==> n.s.memory[i].key != n.s.memory[j].key
    ensures Inv(n)
  {
    SpentAfter(w, n, found.key);
    forall i | 0 <= i < |n.s.memory|
      ensures n.s.memory[i] in n.captured && !Spent(n, n.s.memory[i].key)
    {
      assert n.s.memory[i] in n.s.memory && n.s.memory[i] in w.s.memory;
    }
    forall row | row in n.s.rows
      ensures row.request in n.captured && (!row.correlated ==> !Spent(n, row.request.key))
      ensures forall i :: 0 <= i < |n.s.memory| && row.request.key == n.s.memory[i].key ==> !row.correlated
    {
      MarkedRow(w.s.rows, found.key, row);
    }
    assert OnceOnly(n.log) by {
      forall i | 0 <= i < |w.log|
        ensures KeyOf(w.log[i]) != found.key
      {
        assert !Spent(w, found.key);
      }
    }
  }

  lemma RespondKeeps(w: World, e: Event)
    requires Inv(w) && e.Respond? && Allowed(w, e)
    ensures Inv(Next(w, e))
  {
    MatchTakes(w, e);
    var found := Matched(w.s, e.key, e.protocol, e.cutoff, e.answer).1;
    if found.Some? {
      PairingKeeps(w, Next(w, e), found.value);
    } else {
      assert Next(w, e).log == w.log && Next(w, e).s == w.s;
    }
  }

  // One outcome more spends exactly one key more.
  lemma SpentAfter(w: World, n: World, key: string)
    requires |n.log| == |w.log| + 1 && n.log[..|w.log|] == w.log && KeyOf(n.log[|w.log|]) == key
    ensures forall k :: Spent(n, k) <==> Spent(w, k) || k == key
  {
    forall k | Spent(w, k)
      ensures Spent(n, k)
    {
      var i :| 0 <= i < |w.log| && KeyOf(w.log[i]) == k;
      assert n.log[i] == n.log[..|w.log|][i];
    }
    assert KeyOf(n.log[|w.log|]) == key;
    forall k | Spent(n, k)
      ensures Spent(w, k) || k == key
    {
      var i :| 0 <= i < |n.log| && KeyOf(n.log[i]) == k;
      assert i < |w.log| ==> w.log[i] == n.log[..|w.log|][i];
    }
  }

  lemma RegisterKeeps(w: World, e: Event)
    requires Inv(w) && e.Register? && Allowed(w, e)
    ensures Inv(Next(w, e))
  {
    var n := Next(w, e);
    assert forall k :: Spent(n, k) <==> Spent(w, k);
    assert !Spent(w, e.request.key);
    forall i | 0 <= i < |n.s.memory| - 1
      ensures n.s.memory[i] in w.s.memory
    {
    }
  }

  lemma DiscardKeeps(w: World, e: Event)
    requires Inv(w) && e.Discard?
    ensures Inv(Next(w, e))
  {
    var n := Next(w, e);
    SpentAfter(w, n, e.discarded);
    DroppedExactly(w.s.rows, e.discarded);
    MemoryWithout(w.s.memory, e.discarded);
    DiscardKeepsLog(w, n, e.discarded);
  }

  lemma DiscardKeepsLog(w: World, n: World, key: string)
    requires Inv(w) && n.log == w.log + [Dismissed(key)] && n.captured == w.captured && n.seen == w.seen + {key}
    ensures OnceOnly(n.log)
    ensures forall i :: 0 <= i < |n.log| ==> KeyOf(n.log[i]) in n.seen
    ensures forall i :: 0 <= i < |n.log| && n.log[i].Paired? ==> n.log[i].request in n.captured
  {
  }

  // Memory without the request of a key.
  lemma MemoryWithout(memory: seq<Request>, key: string)
    requires forall i, j :: 0 <= i < j < |memory| ==> memory[i].key != memory[j].key
    ensures var i := FirstAnswer(memory, Some(key), "", 0);
            var rest := if i < |memory| then Without(memory, i) else memory;
            && (forall j :: 0 <= j < |rest| ==> rest[j] in memory && rest[j].key != key)
            && (forall j, k :: 0 <= j < k < |rest| ==> rest[j].key != rest[k].key)
  {
    var i := FirstAnswer(memory, Some(key), "", 0);
    if i < |memory| {
      assert Answers(memory[i], Some(key), "", 0);
      WithoutOne(memory, i);
    } else {
      assert forall j :: 0 <= j < i ==> !Answers(memory[j], Some(key), "", 0);
    }
  }

  lemma WithoutOne(memory: seq<Request>, i: nat)
    requires i < |memory| && forall j, k :: 0 <= j < k < |memory| ==> memory[j].key != memory[k].key
    ensures var rest := Without(memory, i);
            && (forall j :: 0 <= j < |rest| ==> rest[j] in memory && rest[j].key != memory[i].key)
            && (forall j, k :: 0 <= j < k < |rest| ==> rest[j].key != rest[k].key)
  {
    var rest := Without(memory, i);
    forall j | 0 <= j < |rest|
      ensures rest[j] == memory[if j < i then j else j + 1]
    {
    }
  }

  lemma StepKeeps(w: World, e: Event)
    requires Inv(w) && Allowed(w, e)
    ensures Inv(Next(w, e))
  {
    match e {
      case Register(_) => RegisterKeeps(w, e);
      case Respond(_, _, _, _) => RespondKeeps(w, e);
      case Discard(_) => DiscardKeeps(w, e);
      case _ => assert forall k :: Spent(Next(w, e), k) <==> Spent(w, k);
    }
  }

  lemma {:induction false} RunKeeps(w: World, es: seq<Event>)
    requires Inv(w) && Legal(w, es)
    ensures Inv(Run(w, es))
    decreases |es|
  {
    if es != [] {
      StepKeeps(w, es[0]);
      RunKeeps(Next(w, es[0]), es[1..]);
    }
  }

  // In every run, whatever is evicted, restarted or cleared: no request is paired
  // twice, none is paired after it was discarded, and every pairing is of a
  // request that was captured.
  lemma PairedAtMostOnce(es: seq<Event>)
    requires Legal(START, es)
    ensures OnceOnly(Run(START, es).log)
    ensures forall o :: o in Run(START, es).log && o.Paired? ==> o.request in Run(START, es).captured
  {
    RunKeeps(START, es);
  }

  // --- What a response gets -----------------------------------------------

  // A keyed response gets the request captured under its key as long as that is
  // pending in memory or in the table, and nothing else ever.
  lemma KeyedExactly(w: World, key: string, protocol: string, cutoff: int, r: Request)
    requires Inv(w) && r in w.captured && r.key == key
    ensures var found := Matched(w.s, Some(key), protocol, cutoff, []).1;
            && (found == None || found == Some(r))
            && (found == Some(r) <==> r in w.s.memory || Row(r, false) in w.s.rows)
  {
    MatchTakes(w, Respond(Some(key), protocol, cutoff, []));
    RowOfKey(w.s.rows, key);
  }

  lemma UnknownKeyGetsNothing(w: World, key: string, protocol: string, cutoff: int)
    requires Inv(w) && key !in w.seen
    ensures Matched(w.s, Some(key), protocol, cutoff, []).1 == None
  {
    MatchTakes(w, Respond(Some(key), protocol, cutoff, []));
  }

  lemma RowStays(w: World, e: Event, r: Request)
    requires Inv(w) && Allowed(w, e) && Row(r, false) in w.s.rows && !e.ClearCache?
    ensures Spent(Next(w, e), r.key) || Row(r, false) in Next(w, e).s.rows
  {
    var n := Next(w, e);
    match e {
      case Respond(_, _, _, _) =>
        MatchTakes(w, e);
        var i :| 0 <= i < |w.s.rows| && w.s.rows[i] == Row(r, false);
        if n.log != w.log {
          SpentAfter(w, n, n.log[|w.log|].request.key);
          assert n.s.rows[i] in n.s.rows;
        }
      case Discard(k) =>
        SpentAfter(w, n, k);
        DroppedExactly(w.s.rows, k);
      case _ =>
    }
  }

  lemma SpentStays(w: World, e: Event, key: string)
    requires Spent(w, key)
    ensures Spent(Next(w, e), key)
  {
    var i :| 0 <= i < |w.log| && KeyOf(w.log[i]) == key;
    assert Next(w, e).log[i] == w.log[i];
  }

  lemma {:induction false} SpentForGood(w: World, es: seq<Event>, key: string)
    requires Spent(w, key)
    ensures Spent(Run(w, es), key)
    decreases |es|
  {
    if es != [] {
      SpentStays(w, es[0], key);
      SpentForGood(Next(w, es[0]), es[1..], key);
    }
  }

  lemma {:induction false} PendingForGood(w: World, es: seq<Event>, r: Request)
    requires Inv(w) && Legal(w, es) && Row(r, false) in w.s.rows && ClearCache !in es
    ensures Spent(Run(w, es), r.key) || Row(r, false) in Run(w, es).s.rows
    decreases |es|
  {
    if es != [] {
      StepKeeps(w, es[0]);
      RowStays(w, es[0], r);
      if Spent(Next(w, es[0]), r.key) {
        SpentForGood(Next(w, es[0]), es[1..], r.key);
      } else {
        PendingForGood(Next(w, es[0]), es[1..], r);
      }
    }
  }

  // A captured request is not lost: through evictions and restarts a keyed response
  // finds it, until it is paired or discarded or the table is cleared.
  lemma CapturedIsFound(w: World, r: Request, es: seq<Event>, protocol: string, cutoff: int)
    requires Inv(w) && Legal(w, [Register(r)] + es) && ClearCache !in es
    ensures var n := Run(w, [Register(r)] + es);
            Spent(n, r.key) || Matched(n.s, Some(r.key), protocol, cutoff, []).1 == Some(r)
  {
    var all := [Register(r)] + es;
    assert all[1..] == es;
    var w1 := Next(w, Register(r));
    StepKeeps(w, Register(r));
    RunKeeps(w1, es);
    assert w1.s.rows[|w.s.rows|] == Row(r, false);
    PendingForGood(w1, es, r);
    CapturedGrows(w1, es);
    if !Spent(Run(w1, es), r.key) {
      KeyedExactly(Run(w1, es), r.key, protocol, cutoff, r);
    }
  }

  lemma {:induction false} CapturedGrows(w: World, es: seq<Event>)
    ensures w.captured <= Run(w, es).captured
    decreases |es|
  {
    if es != [] {
      CapturedGrows(Next(w, es[0]), es[1..]);
    }
  }

  ghost predicate InOrder(memory: seq<Request>) {
    forall i, j :: 0 <= i < j < |memory| ==> memory[i].at <= memory[j].at
  }

  // With a clock that does not run backwards, memory stays in capture order.
  lemma OrderKept(w: World, e: Event)
    requires Inv(w) && Allowed(w, e) && InOrder(w.s.memory)
    requires e.Register? ==> forall r :: r in w.captured ==> r.at <= e.request.at
    ensures InOrder(Next(w, e).s.memory)
  {
    match e {
      case Register(r) =>
        var m := Next(w, e).s.memory;
        forall i | 0 <= i < |m| - 1
          ensures m[i] in w.s.memory
        {
        }
      case Respond(key, protocol, cutoff, _) =>
        WithoutInOrder(w.s.memory, FirstAnswer(w.s.memory, key, protocol, cutoff));
      case Discard(k) =>
        WithoutInOrder(w.s.memory, FirstAnswer(w.s.memory, Some(k), "", 0));
      case _ =>
    }
  }

  lemma WithoutInOrder(memory: seq<Request>, i: nat)
    requires InOrder(memory)
    ensures i < |memory| ==> InOrder(Without(memory, i))
  {
  }

  // Requests are registered with a clock that does not run backwards.
  ghost predicate OnTime(w: World, es: seq<Event>)
    decreases |es|
  {
    es != [] ==>
      && (es[0].Register? ==> forall r :: r in w.captured ==> r.at <= es[0].request.at)
      && OnTime(Next(w, es[0]), es[1..])
  }

  lemma {:induction false} OrderKeptForGood(w: World, es: seq<Event>)
    requires Inv(w) && Legal(w, es) && OnTime(w, es) && InOrder(w.s.memory)
    ensures InOrder(Run(w, es).s.memory)
    decreases |es|
  {
    if es != [] {
      OrderKept(w, es[0]);
      StepKeeps(w, es[0]);
      OrderKeptForGood(Next(w, es[0]), es[1..]);
    }
  }

  // An unkeyed response gets a request of its protocol inside the window.
  lemma UnkeyedFits(w: World, protocol: string, cutoff: int, answer: seq<Request>)
    requires Inv(w) && NewestPending(answer, w.s.rows, cutoff)
    ensures var found := Matched(w.s, None, protocol, cutoff, answer).1;
            found.Some? ==> found.value in w.captured && found.value.protocol == protocol && cutoff <= found.value.at
  {
    MatchTakes(w, Respond(None, protocol, cutoff, answer));
  }

  // Memory comes first, and from memory it is the oldest such request.
  lemma UnkeyedFromMemory(s: State, protocol: string, cutoff: int, answer: seq<Request>, r: Request)
    requires InOrder(s.memory)
    requires r in s.memory && r.protocol == protocol && cutoff <= r.at
    ensures var found := Matched(s, None, protocol, cutoff, answer).1;
            && found.Some? && found.value in s.memory && found.value.at <= r.at
            && found.value.protocol == protocol && cutoff <= found.value.at
  {
    var i := FirstAnswer(s.memory, None, protocol, cutoff);
    var j :| 0 <= j < |s.memory| && s.memory[j] == r;
    assert Answers(r, None, protocol, cutoff);
    assert i <= j;
  }

  // After every run with such a clock, memory serves an unkeyed response whenever it
  // can, with the oldest request of the protocol inside the window.
  lemma OldestFromMemory(es: seq<Event>, protocol: string, cutoff: int, answer: seq<Request>)
    requires Legal(START, es) && OnTime(START, es)
    ensures var s := Run(START, es).s;
            var found := Matched(s, None, protocol, cutoff, answer).1;
            forall r :: r in s.memory && r.protocol == protocol && cutoff <= r.at ==>
              found.Some? && found.value in s.memory && found.value.at <= r.at
              && found.value.protocol == protocol && cutoff <= found.value.at
  {
    OrderKeptForGood(START, es);
    var s := Run(START, es).s;
    forall r | r in s.memory && r.protocol == protocol && cutoff <= r.at
      ensures var found := Matched(s, None, protocol, cutoff, answer).1;
              found.Some? && found.value in s.memory && found.value.at <= r.at
              && found.value.protocol == protocol && cutoff <= found.value.at
    {
      UnkeyedFromMemory(s, protocol, cutoff, answer, r);
    }
  }

  // --- The oldest pending request -----------------------------------------

  ghost predicate IsPending(s: State, r: Request) {
    r in s.memory || Row(r, false) in s.rows
  }

  ghost predicate Fits(r: Request, protocol: string, cutoff: int) {
    r.protocol == protocol && cutoff <= r.at
  }

  // What memory serves is the oldest of all pending requests exactly when no pending
  // row outside memory is older than everything memory has to offer.
  lemma OldestPendingExactly(es: seq<Event>, protocol: string, cutoff: int, answer: seq<Request>, r: Request)
    requires Legal(START, es) && OnTime(START, es)
    requires r in Run(START, es).s.memory && Fits(r, protocol, cutoff)
    ensures var s := Run(START, es).s;
            var found := Matched(s, None, protocol, cutoff, answer).1;
            && found.Some? && found.value in s.memory && Fits(found.value, protocol, cutoff)
            && ((forall q :: IsPending(s, q) && Fits(q, protocol, cutoff) ==> found.value.at <= q.at) <==>
                (forall q :: Row(q, false) in s.rows && q !in s.memory && Fits(q, protocol, cutoff) ==>
                   exists m :: m in s.memory && Fits(m, protocol, cutoff) && m.at <= q.at))
  {
    OldestFromMemory(es, protocol, cutoff, answer);
    var s := Run(START, es).s;
    var found := Matched(s, None, protocol, cutoff, answer).1.value;
    if forall q :: IsPending(s, q) && Fits(q, protocol, cutoff) ==> found.at <= q.at {
      forall q | Row(q, false) in s.rows && q !in s.memory && Fits(q, protocol, cutoff)
        ensures exists m :: m in s.memory && Fits(m, protocol, cutoff) && m.at <= q.at
      {
        assert IsPending(s, q);
        assert found in s.memory && Fits(found, protocol, cutoff) && found.at <= q.at;
      }
    }
  }

  // A restart is enough to hide an older one.
  lemma RestartHidesOlder(older: Request, younger: Request, cutoff: int, answer: seq<Request>)
    requires older.protocol == younger.protocol && older.key != younger.key && cutoff <= older.at < younger.at
    ensures var es := [Register(older)] + ([Restart] + ([Register(younger)] + []));
            && Legal(START, es) && OnTime(START, es)
            && var s := Run(START, es).s;
               && IsPending(s, older)
               && Matched(s, None, older.protocol, cutoff, answer).1 == Some(younger)
  {
    var e1, e3 := Register(older), Register(younger);
    var w1 := Next(START, e1);
    var w2 := Next(w1, Restart);
    var w3 := Next(w2, e3);
    assert Legal(w3, []) && OnTime(w3, []) && Run(w3, []) == w3;
    Unfold(w2, e3, []);
    Unfold(w1, Restart, [e3] + []);
    Unfold(START, e1, [Restart] + ([e3] + []));
    assert w3.s.rows[0] == Row(older, false) && w3.s.memory == [younger];
    assert FirstAnswer([younger], None, older.protocol, cutoff) == 0;
  }

  lemma Unfold(w: World, e: Event, es: seq<Event>)
    ensures Run(w, [e] + es) == Run(Next(w, e), es)
    ensures Allowed(w, e) && Legal(Next(w, e), es) ==> Legal(w, [e] + es)
    ensures OnTime(Next(w, e), es) && (e.Register? ==> forall r :: r in w.captured ==> r.at <= e.request.at) ==>
              OnTime(w, [e] + es)
  {
    assert ([e] + es)[1..] == es;
  }

  // Every pending request is in memory.
  ghost predicate Remembers(s: State) {
    forall row :: row in s.rows && !row.correlated ==> row.request in s.memory
  }

  // No restart, and no registration with a full memory.
  ghost predicate Lossless(w: World, es: seq<Event>)
    decreases |es|
  {
    es != [] ==>
      && !es[0].Restart? && (es[0].Register? ==> |w.s.memory| < MEMORY_LIMIT)
      && Lossless(Next(w, es[0]), es[1..])
  }

  lemma StillThere(memory: seq<Request>, i: nat, r: Request)
    requires i < |memory| && r in memory && r != memory[i]
    ensures r in Without(memory, i)
  {
    var j :| 0 <= j < |memory| && memory[j] == r;
    var rest := Without(memory, i);
    assert if j < i then rest[j] == r else rest[j - 1] == r;
  }

  lemma RemembersAfterMatch(w: World, e: Event)
    requires Inv(w) && Allowed(w, e) && e.Respond? && Remembers(w.s)
    ensures Remembers(Next(w, e).s)
  {
    MatchTakes(w, e);
    var i := FirstAnswer(w.s.memory, e.key, e.protocol, e.cutoff);
    var (s, found) := Matched(w.s, e.key, e.protocol, e.cutoff, e.answer);
    if found.Some? {
      forall row | row in s.rows && !row.correlated
        ensures row.request in s.memory
      {
        MarkedRow(w.s.rows, found.value.key, row);
        if i < |w.s.memory| {
          StillThere(w.s.memory, i, row.request);
        }
      }
    }
  }

  lemma RemembersAfterDiscard(w: World, key: string)
    requires Inv(w) && Remembers(w.s)
    ensures Remembers(Discarded(w.s, key))
  {
    var i, s := FirstAnswer(w.s.memory, Some(key), "", 0), Discarded(w.s, key);
    DroppedExactly(w.s.rows, key);
    forall row | row in s.rows && !row.correlated
      ensures row.request in s.memory
    {
      if i < |w.s.memory| {
        StillThere(w.s.memory, i, row.request);
      }
    }
  }

  lemma {:induction false} LosslessRemembers(w: World, es: seq<Event>)
    requires Inv(w) && Legal(w, es) && Lossless(w, es) && Remembers(w.s)
    ensures Remembers(Run(w, es).s)
    decreases |es|
  {
    if es != [] {
      var e := es[0];
      StepKeeps(w, e);
      match e {
        case Respond(_, _, _, _) => RemembersAfterMatch(w, e);
        case Discard(key) => RemembersAfterDiscard(w, key);
        case _ =>
      }
      LosslessRemembers(Next(w, e), es[1..]);
    }
  }

  // As long as memory loses nothing, an unkeyed response gets the oldest pending
  // request, as documented, whenever one fits.
  lemma OldestWithoutLoss(es: seq<Event>, protocol: string, cutoff: int, answer: seq<Request>, r: Request)
    requires Legal(START, es) && OnTime(START, es) && Lossless(START, es)
    requires IsPending(Run(START, es).s, r) && Fits(r, protocol, cutoff)
    ensures var s := Run(START, es).s;
            var found := Matched(s, None, protocol, cutoff, answer).1;
            && found.Some? && Fits(found.value, protocol, cutoff)
            && forall q :: IsPending(s, q) && Fits(q, protocol, cutoff) ==> found.value.at <= q.at
  {
    LosslessRemembers(START, es);
    OldestPendingExactly(es, protocol, cutoff, answer, r);
  }
}
