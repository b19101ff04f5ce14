// What the calls of LearningPipeline (core/pipeline.py) leave in its deque and its table:
// which requests go, which stay, and in what order.

module PendingMemory {
  import opened Options
  import opened Correlation

  // `after` is `before` without `r`, which was there; the order stays.
  ghost predicate TakenOut(before: seq<Request>, after: seq<Request>, r: Request) {
    exists a, b :: before == a + [r] + b && after == a + b
  }

  // Exactly the rows with this key are marked.
  ghost predicate MarksOnly(before: seq<Row>, after: seq<Row>, key: string) {
    && |after| == |before|
    && forall i :: 0 <= i < |before| ==>
         && after[i].request == before[i].request
         && (after[i].correlated <==> before[i].correlated || before[i].request.key == key)
  }

  lemma WithoutTakes(memory: seq<Request>, i: nat)
    requires i < |memory|
    ensures TakenOut(memory, Without(memory, i), memory[i])
  {
    assert memory == memory[..i] + [memory[i]] + memory[i + 1..];
  }

  // A match takes the request it returns out of memory and marks its rows; a request it
  // finds in the table alone, and a match that finds none, leave memory as it is.
  lemma MatchLeaves(w: World, e: Event)
    requires Correlation.Inv(w) && e.Respond? && Correlation.Allowed(w, e)
    ensures var (s, found) := Matched(w.s, e.key, e.protocol, e.cutoff, e.answer);
            && (found.None? ==> s == w.s)
            && (found.Some? ==> MarksOnly(w.s.rows, s.rows, found.value.key))
            && if found.Some? && found.value in w.s.memory then TakenOut(w.s.memory, s.memory, found.value)
               else s.memory == w.s.memory
  {
    var i := FirstAnswer(w.s.memory, e.key, e.protocol, e.cutoff);
    if i < |w.s.memory| {
      WithoutTakes(w.s.memory, i);
    } else {
      TableOnly(w, e);
    }
  }

  // What memory does not offer and the table does is not in memory.
  lemma TableOnly(w: World, e: Event)
    requires Correlation.Inv(w) && e.Respond? && Correlation.Allowed(w, e)
    requires FirstAnswer(w.s.memory, e.key, e.protocol, e.cutoff) == |w.s.memory|
    ensures var found := Matched(w.s, e.key, e.protocol, e.cutoff, e.answer).1;
            found.Some? ==> found.value !in w.s.memory
  {
    MatchTakes(w, e);
  }

  // A discard takes the request with its key out of memory, and the pending rows with its
  // key out of the table.
  lemma DiscardLeaves(w: World, key: string)
    requires Correlation.Inv(w)
    ensures var s := Discarded(w.s, key);
            && (forall row :: row in s.rows <==> row in w.s.rows && (row.correlated || row.request.key != key))
            && ((forall r :: r in w.s.memory ==> r.key != key) ==> s.memory == w.s.memory)
            && forall r :: r in w.s.memory && r.key == key ==> TakenOut(w.s.memory, s.memory, r)
  {
    DroppedExactly(w.s.rows, key);
    var i := FirstAnswer(w.s.memory, Some(key), "", 0);
    if i < |w.s.memory| {
      assert Answers(w.s.memory[i], Some(key), "", 0);
      assert w.s.memory[i] in w.s.memory;
      WithoutTakes(w.s.memory, i);
      forall r | r in w.s.memory && r.key == key
        ensures r == w.s.memory[i]
      {
        var j :| 0 <= j < |w.s.memory| && w.s.memory[j] == r;
      }
    } else {
      forall r | r in w.s.memory
        ensures r.key != key
      {
        var j :| 0 <= j < |w.s.memory| && w.s.memory[j] == r;
        assert !Answers(w.s.memory[j], Some(key), "", 0);
      }
    }
  }

  // --- How a request leaves memory ----------------------------------------

  // A restart, or a registration with a full memory whose oldest request it is.
  ghost predicate Forgets(w: World, e: Event, r: Request) {
    e.Restart? || (e.Register? && |w.s.memory| == 1000 && w.s.memory[0] == r)
  }

  lemma TakenOutMembers(before: seq<Request>, after: seq<Request>, r: Request, q: Request)
    requires TakenOut(before, after, r) && q != r
    ensures q in before <==> q in after
  {
    var a, b :| before == a + [r] + b && after == a + b;
  }

  lemma RegisterLeaves(w: World, e: Event, r: Request)
    requires Correlation.Inv(w) && |w.s.memory| <= 1000 && e.Register? && Correlation.Allowed(w, e)
    requires r in w.s.memory
    ensures r in Next(w, e).s.memory <==> !Forgets(w, e, r)
  {
    var i :| 0 <= i < |w.s.memory| && w.s.memory[i] == r;
    var m := Next(w, e).s.memory;
    if |w.s.memory| < 1000 {
      assert m[i] == r;
    } else if i > 0 {
      assert m[i - 1] == r;
    } else {
      assert m == w.s.memory[1..] + [e.request];
      assert r.key in w.seen;
    }
  }

  // A request in memory stays there through a call unless the call pairs it, discards it
  // or forgets it.
  lemma StepLeaves(w: World, e: Event, r: Request)
    requires Correlation.Inv(w) && |w.s.memory| <= 1000 && Correlation.Allowed(w, e) && r in w.s.memory
    ensures r in Next(w, e).s.memory <==> !Spent(Next(w, e), r.key) && !Forgets(w, e, r)
    ensures |Next(w, e).s.memory| <= 1000
  {
    var n := Next(w, e);
    var i :| 0 <= i < |w.s.memory| && w.s.memory[i] == r;
    assert !Spent(w, r.key);
    Correlation.StepKeeps(w, e);
    assert r in n.s.memory ==> !Spent(n, r.key);
    match e {
      case Register(_) =>
        RegisterLeaves(w, e, r);
        assert forall k :: Spent(n, k) <==> Spent(w, k);
      case Respond(_, _, _, _) => RespondLeaves(w, e, r);
      case Discard(key) => DiscardedLeaves(w, key, r);
      case _ => assert forall k :: Spent(n, k) <==> Spent(w, k);
    }
  }

  lemma RespondLeaves(w: World, e: Event, r: Request)
    requires Correlation.Inv(w) && e.Respond? && Correlation.Allowed(w, e) && r in w.s.memory && !Spent(w, r.key)
    ensures !Spent(Next(w, e), r.key) ==> r in Next(w, e).s.memory
    ensures |Next(w, e).s.memory| <= |w.s.memory|
  {
    MatchLeaves(w, e);
    var n, found := Next(w, e), Matched(w.s, e.key, e.protocol, e.cutoff, e.answer).1;
    if found.Some? {
      SpentAfter(w, n, found.value.key);
      if found.value in w.s.memory && found.value != r {
        TakenOutMembers(w.s.memory, n.s.memory, found.value, r);
      }
    }
  }

  lemma DiscardedLeaves(w: World, key: string, r: Request)
    requires Correlation.Inv(w) && r in w.s.memory
    ensures !Spent(Next(w, Discard(key)), r.key) ==> r in Next(w, Discard(key)).s.memory
    ensures |Next(w, Discard(key)).s.memory| <= |w.s.memory|
  {
    var n := Next(w, Discard(key));
    DiscardLeaves(w, key);
    SpentAfter(w, n, key);
    if q :| q in w.s.memory && q.key == key && q != r {
      TakenOutMembers(w.s.memory, n.s.memory, q, r);
    }
  }

  ghost predicate NeverForgets(w: World, es: seq<Event>, r: Request)
    decreases |es|
  {
    es == [] || (!Forgets(w, es[0], r) && NeverForgets(Next(w, es[0]), es[1..], r))
  }

  // Over every run without a restart or its own eviction, a request in memory is there
  // exactly until it is paired or discarded, whatever the table answers meanwhile.
  lemma {:induction false} StaysUntilSpent(w: World, es: seq<Event>, r: Request)
    requires Correlation.Inv(w) && |w.s.memory| <= 1000 && Legal(w, es) && NeverForgets(w, es, r)
    requires r in w.s.memory
    ensures r in Run(w, es).s.memory <==> !Spent(Run(w, es), r.key)
    decreases |es|
  {
    if es == [] {
      var i :| 0 <= i < |w.s.memory| && w.s.memory[i] == r;
      assert !Spent(w, r.key);
    } else {
      var n := Next(w, es[0]);
      StepLeaves(w, es[0], r);
      Correlation.StepKeeps(w, es[0]);
      if r in n.s.memory {
        StaysUntilSpent(n, es[1..], r);
      } else {
        SpentForGood(n, es[1..], r.key);
        Correlation.RunKeeps(n, es[1..]);
      }
    }
  }

  // Memory never holds more than a thousand requests.
  lemma {:induction false} MemoryIsBounded(w: World, es: seq<Event>)
    requires |w.s.memory| <= 1000
    ensures |Run(w, es).s.memory| <= 1000
    decreases |es|
  {
    if es != [] {
      MemoryIsBounded(Next(w, es[0]), es[1..]);
    }
  }

  // --- Registrations ------------------------------------------------------

  ghost function RequestsOf(es: seq<Event>): seq<Request>
    requires forall e :: e in es ==> e.Register?
  {
    if es == [] then [] else [es[0].request] + RequestsOf(es[1..])
  }

  ghost function LastThousand(s: seq<Request>): seq<Request> {
    if |s| <= 1000 then s else s[|s| - 1000..]
  }

  lemma LastThousandMore(a: seq<Request>, r: Request, rest: seq<Request>)
    requires |a| <= 1000
    ensures LastThousand(LastThousand(a + [r]) + rest) == LastThousand(a + ([r] + rest))
  {
    assert a + ([r] + rest) == a + [r] + rest;
    if |a| == 1000 {
      assert a + [r] + rest == [a[0]] + (LastThousand(a + [r]) + rest);
    }
  }

  // One registration more.
  lemma Registers(w: World, r: Request)
    requires |w.s.memory| <= 1000
    ensures var n := Next(w, Register(r));
            n.s.memory == LastThousand(w.s.memory + [r]) && |n.s.memory| <= 1000
  {
  }

  // After any number of registrations, memory is the last thousand requests, oldest first.
  lemma {:induction false} LastThousandStay(w: World, es: seq<Event>)
    requires |w.s.memory| <= 1000 && forall e :: e in es ==> e.Register?
    ensures Run(w, es).s.memory == LastThousand(w.s.memory + RequestsOf(es))
    decreases |es|
  {
    if es == [] {
      assert w.s.memory + [] == w.s.memory;
    } else {
      assert es[0] in es;
      Registers(w, es[0].request);
      LastThousandStay(Next(w, es[0]), es[1..]);
      LastThousandMore(w.s.memory, es[0].request, RequestsOf(es[1..]));
    }
  }

  // The table has them all.
  lemma {:induction false} TableHasAll(w: World, es: seq<Event>)
    requires forall e :: e in es ==> e.Register?
    ensures forall row :: row in w.s.rows ==> row in Run(w, es).s.rows
    ensures forall r :: r in RequestsOf(es) ==> Row(r, false) in Run(w, es).s.rows
    decreases |es|
  {
    if es != [] {
      assert es[0] in es;
      var n := Next(w, es[0]);
      TableHasAll(n, es[1..]);
      assert n.s.rows[|w.s.rows|] == Row(es[0].request, false);
    }
  }
}
