// What the persisted table gives a response without a key (the fallback of
// match_response in core/pipeline.py): the newest request of its protocol, out of ten
// rows.

module UnkeyedFallback {
  import opened Options
  import opened Correlation

  // The requests the table may offer an unkeyed response.
  ghost function Offered(rows: seq<Row>, protocol: string, cutoff: int): set<Request> {
    set r | r in Eligible(rows, cutoff) && r.protocol == protocol
  }

  // The pending rows newer than `r`.
  ghost function Newer(rows: seq<Row>, cutoff: int, r: Request): set<Request> {
    set q | q in Eligible(rows, cutoff) && r.at < q.at
  }

  // All captured at the same moment.
  ghost predicate AllAlike(requests: set<Request>) {
    forall p, q :: p in requests && q in requests ==> p.at == q.at
  }

  // Without a key and with nothing in memory, the table gives the newest request
  // of the protocol, although match_response documents the oldest: the two agree
  // exactly when all requests on offer were captured at the same moment.
  lemma FallbackIsNewest(s: State, protocol: string, cutoff: int, answer: seq<Request>)
    requires NewestPending(answer, s.rows, cutoff)
    requires FirstAnswer(s.memory, None, protocol, cutoff) == |s.memory|
    requires Matched(s, None, protocol, cutoff, answer).1.Some?
    ensures var r := Matched(s, None, protocol, cutoff, answer).1.value;
            && r in Offered(s.rows, protocol, cutoff)
            && (forall q :: q in Offered(s.rows, protocol, cutoff) ==> q.at <= r.at)
            && ((forall q :: q in Offered(s.rows, protocol, cutoff) ==> r.at <= q.at) <==>
                AllAlike(Offered(s.rows, protocol, cutoff)))
  {
    var i := FirstOfProtocolIs(answer, protocol);
    forall q | q in Offered(s.rows, protocol, cutoff)
      ensures q.at <= answer[i].at
    {
      if q in answer {
        var j :| 0 <= j < |answer| && answer[j] == q;
      }
    }
  }

  lemma FallbackTakesTheYounger(older: Request, younger: Request, cutoff: int)
    requires older.protocol == younger.protocol && cutoff <= older.at < younger.at && older.key != younger.key
    ensures var s := State([], [Row(older, false), Row(younger, false)]);
            && NewestPending([younger, older], s.rows, cutoff)
            && Matched(s, None, older.protocol, cutoff, [younger, older]).1 == Some(younger)
  {
    var rows := [Row(older, false), Row(younger, false)];
    assert rows[0] in rows && rows[1] in rows;
  }

  lemma {:induction false} PrefixSet(answer: seq<Request>, n: nat) returns (p: set<Request>)
    requires n <= |answer|
    requires forall i, j :: 0 <= i < j < |answer| ==> answer[i] != answer[j]
    ensures |p| == n && forall r :: r in p <==> exists i :: 0 <= i < n && answer[i] == r
  {
    if n == 0 {
      p := {};
    } else {
      var q := PrefixSet(answer, n - 1);
      assert answer[n - 1] !in q;
      p := q + {answer[n - 1]};
    }
  }

  lemma SubsetSize<T>(a: set<T>, b: set<T>)
    requires a <= b
    ensures |a| <= |b|
  {
    assert b == a + (b - a);
  }

  // No request has the timestamp of another.
  ghost predicate DistinctTimes(rows: seq<Row>, cutoff: int) {
    forall q, r :: q in Eligible(rows, cutoff) && r in Eligible(rows, cutoff) && q.at == r.at ==> q == r
  }

  // What the answer gives at position `i` has at most `i` newer pending rows.
  lemma FewNewer(rows: seq<Row>, cutoff: int, answer: seq<Request>, i: nat)
    requires NewestPending(answer, rows, cutoff) && i < |answer|
    ensures |Newer(rows, cutoff, answer[i])| <= i
  {
    var before := PrefixSet(answer, i);
    forall q | q in Newer(rows, cutoff, answer[i])
      ensures q in before
    {
      var j :| 0 <= j < |answer| && answer[j] == q;
      assert j < i;
    }
    SubsetSize(Newer(rows, cutoff, answer[i]), before);
  }

  // A pending row the answer leaves out has ten newer ones.
  lemma ManyNewer(rows: seq<Row>, cutoff: int, answer: seq<Request>, r: Request)
    requires NewestPending(answer, rows, cutoff) && DistinctTimes(rows, cutoff)
    requires r in Eligible(rows, cutoff) && r !in answer
    ensures |Newer(rows, cutoff, r)| >= FALLBACK_LIMIT
  {
    var all := PrefixSet(answer, |answer|);
    forall q | q in all
      ensures q in Newer(rows, cutoff, r)
    {
      var j :| 0 <= j < |answer| && answer[j] == q;
      assert r.at <= q.at && q in Eligible(rows, cutoff);
    }
    SubsetSize(all, Newer(rows, cutoff, r));
  }

  // Without such ties, the table finds something exactly when a pending request of the
  // protocol has fewer than ten newer pending rows, of whatever protocol.
  lemma FallbackFindsExactly(s: State, protocol: string, cutoff: int, answer: seq<Request>)
    requires NewestPending(answer, s.rows, cutoff) && DistinctTimes(s.rows, cutoff)
    requires FirstAnswer(s.memory, None, protocol, cutoff) == |s.memory|
    ensures Matched(s, None, protocol, cutoff, answer).1.Some? <==>
            exists r :: r in Offered(s.rows, protocol, cutoff) && |Newer(s.rows, cutoff, r)| < 10
  {
    var i := FirstOfProtocolIs(answer, protocol);
    if i < |answer| {
      FewNewer(s.rows, cutoff, answer, i);
      assert answer[i] in Offered(s.rows, protocol, cutoff);
    } else {
      forall r | r in Offered(s.rows, protocol, cutoff)
        ensures |Newer(s.rows, cutoff, r)| >= FALLBACK_LIMIT
      {
        assert r !in answer;
        ManyNewer(s.rows, cutoff, answer, r);
      }
    }
  }

  // --- Ties ---------------------------------------------------------------

  // A latest request; among equals one of the preferred.
  lemma {:induction false} Latest(all: set<Request>, preferred: set<Request>) returns (r: Request)
    requires all != {}
    ensures r in all && forall q :: q in all ==> Precedes(r, q, preferred)
    decreases |all|
  {
    r :| r in all;
    if all != {r} {
      assert all == all - {r} + {r};
      var other := Latest(all - {r}, preferred);
      if r.at < other.at || (r.at == other.at && r !in preferred) {
        r := other;
      }
    }
  }

  ghost predicate LatestFirst(answer: seq<Request>) {
    forall i, j :: 0 <= i < j < |answer| ==> answer[i] != answer[j] && answer[j].at <= answer[i].at
  }

  // Some `n` latest of a set, latest first, ties decided by preference.
  ghost predicate LatestOf(answer: seq<Request>, all: set<Request>, preferred: set<Request>, n: nat) {
    && |answer| <= n && LatestFirst(answer)
    && (forall q :: q in answer ==> q in all)
    && (forall r :: r in all && r !in answer ==> |answer| == n)
    && (forall r, q :: r in all && r !in answer && q in answer ==> Precedes(q, r, preferred))
  }

  ghost predicate Precedes(q: Request, r: Request, preferred: set<Request>) {
    r.at <= q.at && (r.at == q.at && r in preferred ==> q in preferred)
  }

  lemma {:induction false} ChooseLatest(all: set<Request>, preferred: set<Request>, n: nat)
    returns (answer: seq<Request>)
    ensures LatestOf(answer, all, preferred, n)
    decreases n
  {
    answer := [];
    if n > 0 && all != {} {
      var r := Latest(all, preferred);
      var rest := ChooseLatest(all - {r}, preferred, n - 1);
      LatestMore(all, preferred, n, r, rest);
      answer := [r] + rest;
    }
  }

  lemma LatestMore(all: set<Request>, preferred: set<Request>, n: nat, r: Request, rest: seq<Request>)
    requires n > 0 && r in all && forall q :: q in all ==> Precedes(r, q, preferred)
    requires LatestOf(rest, all - {r}, preferred, n - 1)
    ensures LatestOf([r] + rest, all, preferred, n)
  {
    var answer := [r] + rest;
    assert forall q :: q in answer <==> q == r || q in rest;
    forall i, j | 0 <= i < j < |answer|
      ensures answer[i] != answer[j] && answer[j].at <= answer[i].at
    {
      assert answer[j] == rest[j - 1] && rest[j - 1] in rest;
      assert i > 0 ==> answer[i] == rest[i - 1];
      assert Precedes(r, answer[j], preferred);
    }
  }

  // What the database may answer when it prefers some rows among equal timestamps.
  lemma AnswerPreferring(rows: seq<Row>, cutoff: int, preferred: set<Request>) returns (answer: seq<Request>)
    ensures NewestPending(answer, rows, cutoff)
    ensures forall r, i :: r in Eligible(rows, cutoff) && r !in answer && 0 <= i < |answer| ==>
              (r.at == answer[i].at && r in preferred ==> answer[i] in preferred)
  {
    answer := ChooseLatest(Eligible(rows, cutoff), preferred, FALLBACK_LIMIT);
    forall r, i | r in Eligible(rows, cutoff) && r !in answer && 0 <= i < |answer|
      ensures r.at <= answer[i].at && (r.at == answer[i].at && r in preferred ==> answer[i] in preferred)
    {
      assert Precedes(answer[i], r, preferred);
    }
  }

  // An answer that leaves something out is ten requests.
  lemma FullAnswer(answer: seq<Request>, within: set<Request>)
    requires forall i, j :: 0 <= i < j < |answer| ==> answer[i] != answer[j]
    requires forall i :: 0 <= i < |answer| ==> answer[i] in within
    ensures |answer| <= |within|
  {
    var all := PrefixSet(answer, |answer|);
    SubsetSize(all, within);
  }

  // A pending row with fewer than ten newer ones may be in the answer.
  lemma AnswerWith(rows: seq<Row>, cutoff: int, r: Request) returns (answer: seq<Request>)
    requires r in Eligible(rows, cutoff) && |Newer(rows, cutoff, r)| < FALLBACK_LIMIT
    ensures NewestPending(answer, rows, cutoff) && r in answer
  {
    answer := AnswerPreferring(rows, cutoff, {r});
    if r !in answer {
      forall i | 0 <= i < |answer|
        ensures answer[i] in Newer(rows, cutoff, r)
      {
        assert answer[i] in answer;
      }
      FullAnswer(answer, Newer(rows, cutoff, r));
    }
  }

  // Whatever timestamps coincide: some answer of the database lets the table find
  // something exactly when a pending request of the protocol has fewer than ten newer
  // pending rows.
  lemma FallbackMayFindExactly(s: State, protocol: string, cutoff: int)
    requires FirstAnswer(s.memory, None, protocol, cutoff) == |s.memory|
    ensures (exists answer ::
               NewestPending(answer, s.rows, cutoff) && Matched(s, None, protocol, cutoff, answer).1.Some?) <==>
            exists r :: r in Offered(s.rows, protocol, cutoff) && |Newer(s.rows, cutoff, r)| < 10
  {
    if answer :| NewestPending(answer, s.rows, cutoff) && Matched(s, None, protocol, cutoff, answer).1.Some? {
      var i := FirstOfProtocolIs(answer, protocol);
      FewNewer(s.rows, cutoff, answer, i);
      assert answer[i] in Offered(s.rows, protocol, cutoff);
    }
    if r :| r in Offered(s.rows, protocol, cutoff) && |Newer(s.rows, cutoff, r)| < FALLBACK_LIMIT {
      var answer := AnswerWith(s.rows, cutoff, r);
      var i := FirstOfProtocolIs(answer, protocol);
      assert NewestPending(answer, s.rows, cutoff) && Matched(s, None, protocol, cutoff, answer).1.Some?;
    }
  }

  // The pending rows of other protocols that are at least as new as `r`.
  ghost function Rivals(rows: seq<Row>, protocol: string, cutoff: int, r: Request): set<Request> {
    set q | q in Eligible(rows, cutoff) && q.protocol != protocol && r.at <= q.at
  }

  // Every answer does exactly when a pending request of the protocol has fewer than
  // ten rivals.
  lemma FallbackAlwaysFindsExactly(s: State, protocol: string, cutoff: int)
    requires FirstAnswer(s.memory, None, protocol, cutoff) == |s.memory|
    ensures (forall answer ::
               NewestPending(answer, s.rows, cutoff) ==> Matched(s, None, protocol, cutoff, answer).1.Some?) <==>
            exists r :: r in Offered(s.rows, protocol, cutoff) && |Rivals(s.rows, protocol, cutoff, r)| < 10
  {
    if r :| r in Offered(s.rows, protocol, cutoff) && |Rivals(s.rows, protocol, cutoff, r)| < FALLBACK_LIMIT {
      forall answer | NewestPending(answer, s.rows, cutoff)
        ensures Matched(s, None, protocol, cutoff, answer).1.Some?
      {
        RivalsLeaveRoom(s.rows, protocol, cutoff, answer, r);
      }
    } else {
      var answer := AnswerWithout(s.rows, protocol, cutoff);
      assert Matched(s, None, protocol, cutoff, answer).1.None?;
    }
  }

  // What the database may answer when it prefers the other protocols.
  lemma AnswerAvoiding(rows: seq<Row>, protocol: string, cutoff: int) returns (answer: seq<Request>)
    ensures NewestPending(answer, rows, cutoff)
    ensures forall r, i :: r in Eligible(rows, cutoff) && r !in answer && 0 <= i < |answer| ==>
              (r.at == answer[i].at && r.protocol != protocol ==> answer[i].protocol != protocol)
  {
    var others := Eligible(rows, cutoff) - Offered(rows, protocol, cutoff);
    answer := AnswerPreferring(rows, cutoff, others);
    forall r, i | r in Eligible(rows, cutoff) && r !in answer && 0 <= i < |answer| && r.protocol != protocol
      ensures r.at == answer[i].at ==> answer[i].protocol != protocol
    {
      assert r in others;
    }
  }

  // When every request of a protocol has ten rivals, the answer may have none.
  lemma AnswerWithout(rows: seq<Row>, protocol: string, cutoff: int) returns (answer: seq<Request>)
    requires forall r :: r in Offered(rows, protocol, cutoff) ==> |Rivals(rows, protocol, cutoff, r)| >= FALLBACK_LIMIT
    ensures NewestPending(answer, rows, cutoff) && FirstOfProtocol(answer, protocol).None?
  {
    answer := AnswerAvoiding(rows, protocol, cutoff);
    var i := FirstOfProtocolIs(answer, protocol);
    if i < |answer| {
      assert answer[i] in Offered(rows, protocol, cutoff);
      RivalsCrowdOut(rows, protocol, cutoff, answer, i);
    }
  }

  lemma RivalsLeaveRoom(rows: seq<Row>, protocol: string, cutoff: int, answer: seq<Request>, r: Request)
    requires NewestPending(answer, rows, cutoff)
    requires r in Offered(rows, protocol, cutoff) && |Rivals(rows, protocol, cutoff, r)| < FALLBACK_LIMIT
    ensures FirstOfProtocol(answer, protocol).Some?
  {
    var i := FirstOfProtocolIs(answer, protocol);
    if i == |answer| {
      assert r !in answer;
      FullAnswer(answer, Rivals(rows, protocol, cutoff, r));
    }
  }

  // An answer that prefers the other protocols, and still gives a request of this one.
  lemma RivalsCrowdOut(rows: seq<Row>, protocol: string, cutoff: int, answer: seq<Request>, i: nat)
    requires NewestPending(answer, rows, cutoff)
    requires forall r, i :: r in Eligible(rows, cutoff) && r !in answer && 0 <= i < |answer| ==>
               (r.at == answer[i].at && r.protocol != protocol ==> answer[i].protocol != protocol)
    requires i < |answer| && answer[i].protocol == protocol
    ensures |Rivals(rows, protocol, cutoff, answer[i])| < FALLBACK_LIMIT
  {
    var r := answer[i];
    var rivals := Rivals(rows, protocol, cutoff, r);
    var all := PrefixSet(answer, |answer|);
    forall q | q in rivals
      ensures q in all - {r}
    {
      assert q in answer;
    }
    SubsetSize(rivals, all - {r});
  }

  // --- A request that is crowded out --------------------------------------

  // A request of one protocol, and ten of another a moment later.
  ghost function Burst(): (rs: seq<Request>)
    ensures |rs| == 11 && forall i :: 0 <= i < 11 ==> |rs[i].key| == i
    ensures forall i :: 0 <= i < 11 ==>
              rs[i].protocol == (if i == 0 then "mqtt" else "http") && rs[i].at == if i == 0 then 0 else 1
  {
    seq(11, i requires 0 <= i < 11 =>
      if i == 0 then Request("", "mqtt", 0, "") else Request(seq(i, _ => 'k'), "http", 1, ""))
  }

  ghost function Registrations(rs: seq<Request>): seq<Event> {
    if rs == [] then [] else [Register(rs[0])] + Registrations(rs[1..])
  }

  ghost function PendingRows(rs: seq<Request>): (rows: seq<Row>)
    ensures |rows| == |rs| && forall i :: 0 <= i < |rs| ==> rows[i] == Row(rs[i], false)
  {
    seq(|rs|, i requires 0 <= i < |rs| => Row(rs[i], false))
  }

  ghost predicate DistinctKeys(rs: seq<Request>) {
    forall i, j :: 0 <= i < j < |rs| ==> rs[i].key != rs[j].key
  }

  ghost predicate Fresh(w: World, rs: seq<Request>) {
    DistinctKeys(rs) && forall r :: r in rs ==> r.key !in w.seen
  }

  lemma {:induction false} RegistrationsRun(w: World, rs: seq<Request>)
    requires Fresh(w, rs)
    ensures Legal(w, Registrations(rs)) && Run(w, Registrations(rs)).s.rows == w.s.rows + PendingRows(rs)
    decreases |rs|
  {
    if rs == [] {
      assert w.s.rows + PendingRows(rs) == w.s.rows;
    } else {
      var n := RegistrationsStep(w, rs);
      RegistrationsRun(n, rs[1..]);
      RowsMore(w.s.rows, rs);
    }
  }

  lemma RowsMore(rows: seq<Row>, rs: seq<Request>)
    requires rs != []
    ensures rows + [Row(rs[0], false)] + PendingRows(rs[1..]) == rows + PendingRows(rs)
  {
    assert [Row(rs[0], false)] + PendingRows(rs[1..]) == PendingRows(rs);
  }

  lemma RegistrationsStep(w: World, rs: seq<Request>) returns (n: World)
    requires rs != [] && Fresh(w, rs)
    ensures Fresh(n, rs[1..]) && n.s.rows == w.s.rows + [Row(rs[0], false)]
    ensures Run(w, Registrations(rs)) == Run(n, Registrations(rs[1..]))
    ensures Legal(n, Registrations(rs[1..])) ==> Legal(w, Registrations(rs))
  {
    n := Next(w, Register(rs[0]));
    var es := Registrations(rs);
    assert es[0] == Register(rs[0]) && es[1..] == Registrations(rs[1..]);
    forall i | 0 <= i < |rs[1..]|
      ensures rs[1..][i].key !in n.seen
    {
      assert rs[1..][i] == rs[i + 1];
    }
  }

  lemma {:induction false} RunConcat(w: World, a: seq<Event>, b: seq<Event>)
    ensures Run(w, a + b) == Run(Run(w, a), b)
    ensures Legal(w, a) && Legal(Run(w, a), b) ==> Legal(w, a + b)
    decreases |a|
  {
    if a == [] {
      assert a + b == b;
    } else {
      assert (a + b)[1..] == a[1..] + b;
      RunConcat(Next(w, a[0]), a[1..], b);
    }
  }

  // The rows of requests that are all inside the window.
  lemma EligibleRows(rs: seq<Request>, cutoff: int)
    requires forall i :: 0 <= i < |rs| ==> cutoff <= rs[i].at
    ensures forall r :: r in Eligible(PendingRows(rs), cutoff) <==> r in rs
  {
    var rows := PendingRows(rs);
    forall r | r in rs
      ensures r in Eligible(rows, cutoff)
    {
      var i :| 0 <= i < |rs| && rs[i] == r;
      assert rows[i] in rows;
    }
    forall r | r in Eligible(rows, cutoff)
      ensures r in rs
    {
      var row :| row in rows && row.request == r;
      var i :| 0 <= i < |rows| && rows[i] == row;
      assert rs[i] == r;
    }
  }

  // One old request and ten equally new ones: these are what the database answers.
  lemma NewestOf(older: Request, newer: seq<Request>, cutoff: int)
    requires |newer| == FALLBACK_LIMIT && cutoff <= older.at
    requires forall i :: 0 <= i < |newer| ==> newer[i].at == newer[0].at && older.at <= newer[i].at
    requires forall i, j :: 0 <= i < j < |newer| ==> newer[i] != newer[j]
    ensures NewestPending(newer, PendingRows([older] + newer), cutoff)
  {
    var rs := [older] + newer;
    assert forall i :: 0 <= i < |newer| ==> rs[i + 1] == newer[i];
    EligibleRows(rs, cutoff);
    NewestOfMembers(older, newer, Eligible(PendingRows(rs), cutoff));
    assert forall i :: 0 <= i < |newer| ==> newer[i] in rs;
  }

  lemma NewestOfMembers(older: Request, newer: seq<Request>, all: set<Request>)
    requires |newer| == FALLBACK_LIMIT && forall r :: r in all <==> r in [older] + newer
    requires forall i :: 0 <= i < |newer| ==> newer[i].at == newer[0].at && older.at <= newer[i].at
    ensures forall i :: 0 <= i < |newer| ==> newer[i] in all
    ensures forall r, i :: r in all && r !in newer && 0 <= i < |newer| ==> r.at <= newer[i].at
  {
    forall i | 0 <= i < |newer|
      ensures newer[i] in all
    {
      assert ([older] + newer)[i + 1] == newer[i];
    }
    assert forall r :: r in [older] + newer ==> r == older || r in newer;
  }

  lemma BurstKeys()
    ensures DistinctKeys(Burst())
  {
    var rs := Burst();
    forall i, j | 0 <= i < j < 11
      ensures rs[i].key != rs[j].key
    {
      assert |rs[i].key| != |rs[j].key|;
    }
  }

  // A restart after some registrations, from nothing.
  lemma RestartAfter(rs: seq<Request>)
    requires DistinctKeys(rs)
    ensures Legal(START, Registrations(rs) + [Restart])
    ensures Run(START, Registrations(rs) + [Restart]).s == State([], PendingRows(rs))
  {
    RegistrationsRun(START, rs);
    var w := Run(START, Registrations(rs));
    RunConcat(START, Registrations(rs), [Restart]);
    assert [Restart][1..] == [] && Run(w, [Restart]) == Run(Next(w, Restart), []);
    assert [] + PendingRows(rs) == PendingRows(rs);
  }

  lemma BurstAnswered()
    ensures var rows := PendingRows(Burst());
            && NewestPending(Burst()[1..], rows, 0) && Row(Burst()[0], false) in rows
            && FirstOfProtocol(Burst()[1..], "mqtt") == None
  {
    var rs := Burst();
    var newer := rs[1..];
    BurstKeys();
    assert rs == [rs[0]] + newer;
    assert forall i :: 0 <= i < |newer| ==> newer[i] == rs[i + 1];
    NewestOf(rs[0], newer, 0);
    NoneOfProtocol(newer, "mqtt");
    assert PendingRows(rs)[0] in PendingRows(rs);
  }

  // Eleven requests and a restart: the response gets nothing although its request is
  // pending.
  lemma CrowdedOut()
    ensures var es := Registrations(Burst()) + [Restart];
            var w := Run(START, es);
            var e := Respond(None, "mqtt", 0, Burst()[1..]);
            && Legal(START, es) && Allowed(w, e)
            && Row(Burst()[0], false) in w.s.rows && Next(w, e).log == w.log
  {
    BurstKeys();
    RestartAfter(Burst());
    BurstAnswered();
    NothingFound(Run(START, Registrations(Burst()) + [Restart]), "mqtt", 0, Burst()[1..]);
  }

  lemma NothingFound(w: World, protocol: string, cutoff: int, answer: seq<Request>)
    requires w.s.memory == [] && FirstOfProtocol(answer, protocol) == None
    ensures Next(w, Respond(None, protocol, cutoff, answer)).log == w.log
  {
  }

  lemma {:induction false} NoneOfProtocol(answer: seq<Request>, protocol: string)
    requires forall i :: 0 <= i < |answer| ==> answer[i].protocol != protocol
    ensures FirstOfProtocol(answer, protocol) == None
  {
    if answer != [] {
      NoneOfProtocol(answer[1..], protocol);
    }
  }
}
