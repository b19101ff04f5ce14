// Where every counted DNS query is: conservation laws for the recorder and its log
// over all interleavings of queries, flushes and clears.

module DnsLedger {
  import opened Options
  import opened DnsDiscovery

  // What a table says of a key, and what a list of notes amounts to.
  datatype Tally = Tally(hits: nat, first: int, last: int)

  ghost function Join(a: Option<Tally>, b: Option<Tally>): Option<Tally> {
    if a.None? then b
    else if b.None? then a
    else Some(Tally(a.value.hits + b.value.hits, Min(a.value.first, b.value.first), Max(a.value.last, b.value.last)))
  }

  ghost function TallyOf(notes: seq<Note>, key: Key): Option<Tally> {
    if notes == [] then None
    else
      var last := notes[|notes| - 1];
      Join(TallyOf(notes[..|notes| - 1], key), if last.key == key then Some(Tally(1, last.at, last.at)) else None)
  }

  ghost function Seen(t: Table, key: Key): Option<Tally> {
    if key in t then Some(Tally(t[key].hits, t[key].first, t[key].last)) else None
  }

  ghost function Hits(t: Option<Tally>): nat {
    if t.Some? then t.value.hits else 0
  }

  lemma {:induction false} TallyConcat(a: seq<Note>, b: seq<Note>, key: Key)
    ensures TallyOf(a + b, key) == Join(TallyOf(a, key), TallyOf(b, key))
  {
    if b == [] {
      assert a + b == a;
    } else {
      assert (a + b)[..|a + b| - 1] == a + b[..|b| - 1];
      TallyConcat(a, b[..|b| - 1], key);
    }
  }

  // A tally counts at least one note, and its times are times of notes.
  lemma {:induction false} TallyTimes(notes: seq<Note>, key: Key)
    ensures TallyOf(notes, key).Some? ==>
              var t := TallyOf(notes, key).value;
              && t.hits > 0
              && (exists n :: n in notes && n.at == t.first)
              && (exists n :: n in notes && n.at == t.last)
  {
    if notes != [] {
      var front, last := notes[..|notes| - 1], notes[|notes| - 1];
      assert notes == front + [last];
      TallyTimes(front, key);
    }
  }

  // --- The machine --------------------------------------------------------

  // The recorder's lock: free, held by a flush writing its batch, or by a clear.
  datatype Phase = Idle | Writing(batch: Table) | Clearing

  // The tables, and the notes each of them is made of: `batchNotes` during a write,
  // `wiped` those a running clear took out of memory, `lost` those wiped by clears
  // that then failed. `accepted` are the notes since the last successful clear
  // began, `since` those since the running clear began.
  datatype World = World(
    live: Table, stored: Table, phase: Phase, clock: int,
    liveNotes: seq<Note>, batchNotes: seq<Note>, storedNotes: seq<Note>,
    wiped: seq<Note>, lost: seq<Note>, accepted: seq<Note>, since: seq<Note>)

  ghost const START := World(map[], map[], Idle, 0, [], [], [], [], [], [], [])

  datatype Event =
    | Query(note: Note)
    | TakeBatch
    | Written(ending: Ending)
    | StartClear
    | EndClear(fails: bool)

  // The clock does not run backwards; flush and clear exclude each other.
  ghost predicate Allowed(w: World, e: Event) {
    match e
    case Query(note) => w.clock <= note.at
    case TakeBatch => w.phase == Idle && w.live != map[]
    case Written(_) => w.phase.Writing?
    case StartClear => w.phase == Idle
    case EndClear(_) => w.phase == Clearing
  }

  ghost function Next(w: World, maxRows: nat, e: Event): World
    requires Allowed(w, e)
  {
    match e
    case Query(note) =>
      if !Accepted(w.live, maxRows, note) then w.(clock := note.at)
      else w.(live := Noted(w.live, maxRows, note), clock := note.at, liveNotes := w.liveNotes + [note],
              accepted := w.accepted + [note], since := w.since + [note])
    case TakeBatch =>
      w.(phase := Writing(w.live), live := map[], batchNotes := w.liveNotes, liveNotes := [])
    case Written(ending) =>
      if ending == Success then
        w.(phase := Idle, stored := Upserted(w.stored, w.phase.batch),
           storedNotes := w.storedNotes + w.batchNotes, batchNotes := [])
      else
        w.(phase := Idle, live := MergedBack(w.live, w.phase.batch),
           liveNotes := w.batchNotes + w.liveNotes, batchNotes := [])
    case StartClear =>
      w.(phase := Clearing, live := map[], wiped := w.liveNotes, liveNotes := [], since := [])
    case EndClear(fails) =>
      if fails then w.(phase := Idle, lost := w.lost + w.wiped, wiped := [])
      else w.(phase := Idle, stored := map[], storedNotes := [], wiped := [], lost := [], accepted := w.since)
  }

  ghost predicate Legal(w: World, maxRows: nat, es: seq<Event>)
    decreases |es|
  {
    es == [] || (Allowed(w, es[0]) && Legal(Next(w, maxRows, es[0]), maxRows, es[1..]))
  }

  ghost function Run(w: World, maxRows: nat, es: seq<Event>): World
    requires Legal(w, maxRows, es)
    decreases |es|
  {
    if es == [] then w else Run(Next(w, maxRows, es[0]), maxRows, es[1..])
  }

  // --- The law ------------------------------------------------------------

  ghost predicate MadeOf(t: Table, notes: seq<Note>) {
    forall k :: Seen(t, k) == TallyOf(notes, k)
  }

  ghost predicate Before(a: seq<Note>, b: seq<Note>) {
    forall x, y :: x in a && y in b ==> x.at <= y.at
  }

  ghost predicate UpTo(a: seq<Note>, clock: int) {
    forall x :: x in a ==> x.at <= clock
  }

  ghost function Count(notes: seq<Note>, k: Key): nat {
    Hits(TallyOf(notes, k))
  }

  ghost predicate TablesInv(w: World) {
    && MadeOf(w.live, w.liveNotes) && MadeOf(w.stored, w.storedNotes)
    && (if w.phase.Writing? then MadeOf(w.phase.batch, w.batchNotes) else w.batchNotes == [])
    && (w.phase != Clearing ==> w.wiped == [])
  }

  ghost predicate TimesInv(w: World) {
    && Before(w.storedNotes, w.batchNotes) && Before(w.storedNotes, w.liveNotes) && Before(w.batchNotes, w.liveNotes)
    && UpTo(w.storedNotes, w.clock) && UpTo(w.batchNotes, w.clock) && UpTo(w.liveNotes, w.clock)
  }

  ghost predicate CountInv(w: World, k: Key) {
    && Count(w.accepted, k) ==
       Count(w.storedNotes, k) + Count(w.batchNotes, k) + Count(w.liveNotes, k) + Count(w.lost, k) + Count(w.wiped, k)
    && (w.phase == Clearing ==> Count(w.since, k) == Count(w.liveNotes, k))
  }

  ghost predicate Inv(w: World) {
    TablesInv(w) && TimesInv(w) && forall k :: CountInv(w, k)
  }

  lemma CountConcat(a: seq<Note>, b: seq<Note>, k: Key)
    ensures Count(a + b, k) == Count(a, k) + Count(b, k)
  {
    TallyConcat(a, b, k);
  }

  // A note is counted in the live table.
  lemma NoteIsCounted(live: Table, notes: seq<Note>, maxRows: nat, note: Note)
    requires MadeOf(live, notes) && UpTo(notes, note.at) && Accepted(live, maxRows, note)
    ensures MadeOf(Noted(live, maxRows, note), notes + [note])
  {
    forall k
      ensures Seen(Noted(live, maxRows, note), k) == TallyOf(notes + [note], k)
    {
      assert (notes + [note])[..|notes|] == notes;
      TallyTimes(notes, k);
      assert Seen(live, k) == TallyOf(notes, k);
    }
  }

  // A batch written lands behind the rows it adds to.
  lemma BatchLands(rows: Table, rowNotes: seq<Note>, batch: Table, batchNotes: seq<Note>)
    requires MadeOf(rows, rowNotes) && MadeOf(batch, batchNotes) && Before(rowNotes, batchNotes)
    ensures MadeOf(Upserted(rows, batch), rowNotes + batchNotes)
  {
    forall k
      ensures Seen(Upserted(rows, batch), k) == TallyOf(rowNotes + batchNotes, k)
    {
      TallyConcat(rowNotes, batchNotes, k);
      TallyTimes(rowNotes, k);
      TallyTimes(batchNotes, k);
      assert Seen(rows, k) == TallyOf(rowNotes, k) && Seen(batch, k) == TallyOf(batchNotes, k);
    }
  }

  // A batch that could not be written is back in memory.
  lemma BatchReturns(live: Table, liveNotes: seq<Note>, batch: Table, batchNotes: seq<Note>)
    requires MadeOf(live, liveNotes) && MadeOf(batch, batchNotes)
    ensures MadeOf(MergedBack(live, batch), batchNotes + liveNotes)
  {
    forall k
      ensures Seen(MergedBack(live, batch), k) == TallyOf(batchNotes + liveNotes, k)
    {
      TallyConcat(batchNotes, liveNotes, k);
      assert Seen(live, k) == TallyOf(liveNotes, k) && Seen(batch, k) == TallyOf(batchNotes, k);
    }
  }

  lemma StepKeepsTables(w: World, maxRows: nat, e: Event)
    requires TablesInv(w) && TimesInv(w) && Allowed(w, e)
    ensures TablesInv(Next(w, maxRows, e)) && TimesInv(Next(w, maxRows, e))
  {
    match e {
      case Query(note) =>
        if Accepted(w.live, maxRows, note) {
          NoteIsCounted(w.live, w.liveNotes, maxRows, note);
        }
      case Written(ending) =>
        if ending == Success {
          BatchLands(w.stored, w.storedNotes, w.phase.batch, w.batchNotes);
        } else {
          BatchReturns(w.live, w.liveNotes, w.phase.batch, w.batchNotes);
        }
      case _ =>
    }
  }

  lemma QueryKeepsCount(w: World, maxRows: nat, note: Note, k: Key)
    requires CountInv(w, k) && w.clock <= note.at
    ensures CountInv(Next(w, maxRows, Query(note)), k)
  {
    var n := Next(w, maxRows, Query(note));
    if Accepted(w.live, maxRows, note) {
      CountConcat(w.liveNotes, [note], k);
      CountConcat(w.accepted, [note], k);
      CountConcat(w.since, [note], k);
    }
  }

  lemma WrittenKeepsCount(w: World, maxRows: nat, ending: Ending, k: Key)
    requires CountInv(w, k) && w.phase.Writing?
    ensures CountInv(Next(w, maxRows, Written(ending)), k)
  {
    CountConcat(w.storedNotes, w.batchNotes, k);
    CountConcat(w.batchNotes, w.liveNotes, k);
    assert Count([], k) == 0;
  }

  lemma StepKeepsCount(w: World, maxRows: nat, e: Event, k: Key)
    requires TablesInv(w) && CountInv(w, k) && Allowed(w, e)
    ensures CountInv(Next(w, maxRows, e), k)
  {
    assert Count([], k) == 0;
    match e {
      case Query(note) => QueryKeepsCount(w, maxRows, note, k);
      case Written(ending) => WrittenKeepsCount(w, maxRows, ending, k);
      case EndClear(_) => CountConcat(w.lost, w.wiped, k);
      case _ =>
    }
  }

  lemma {:induction false} RunKeeps(w: World, maxRows: nat, es: seq<Event>)
    requires Inv(w) && Legal(w, maxRows, es)
    ensures Inv(Run(w, maxRows, es))
    decreases |es|
  {
    if es != [] {
      StepKeepsTables(w, maxRows, es[0]);
      forall k
        ensures CountInv(Next(w, maxRows, es[0]), k)
      {
        StepKeepsCount(w, maxRows, es[0], k);
      }
      RunKeeps(Next(w, maxRows, es[0]), maxRows, es[1..]);
    }
  }

  ghost function HitsAnywhere(w: World, k: Key): nat {
    Hits(Seen(w.live, k)) + Hits(Seen(w.stored, k)) + if w.phase.Writing? then Hits(Seen(w.phase.batch, k)) else 0
  }

  // In every run and for every key, the hits in memory, in flight and in the log are
  // the notes accepted since the last successful clear, less those that clears wiped
  // from memory before failing on the log: none are missing exactly when no failed
  // clear found any.
  lemma HitsConserved(maxRows: nat, es: seq<Event>, k: Key)
    requires Legal(START, maxRows, es) && Run(START, maxRows, es).phase != Clearing
    ensures var w := Run(START, maxRows, es);
            && HitsAnywhere(w, k) + Count(w.lost, k) == Count(w.accepted, k)
            && (HitsAnywhere(w, k) == Count(w.accepted, k) <==> Count(w.lost, k) == 0)
  {
    RunKeeps(START, maxRows, es);
    var w := Run(START, maxRows, es);
    assert CountInv(w, k);
    assert Seen(w.live, k) == TallyOf(w.liveNotes, k) && Seen(w.stored, k) == TallyOf(w.storedNotes, k);
  }

  // First and last sighting survive the moves too.
  lemma SightingsConserved(maxRows: nat, es: seq<Event>, k: Key)
    requires Legal(START, maxRows, es)
    ensures var w := Run(START, maxRows, es);
            var flying := if w.phase.Writing? then Seen(w.phase.batch, k) else None;
            Join(Seen(w.stored, k), Join(flying, Seen(w.live, k))) ==
            TallyOf(w.storedNotes + (w.batchNotes + w.liveNotes), k)
  {
    RunKeeps(START, maxRows, es);
    var w := Run(START, maxRows, es);
    TallyConcat(w.storedNotes, w.batchNotes + w.liveNotes, k);
    TallyConcat(w.batchNotes, w.liveNotes, k);
    assert Seen(w.live, k) == TallyOf(w.liveNotes, k) && Seen(w.stored, k) == TallyOf(w.storedNotes, k);
  }

  // No batch taken before a clear lands after it: a key not noted again since the
  // last successful clear began is nowhere.
  lemma ClearedStaysCleared(maxRows: nat, es: seq<Event>, k: Key)
    requires Legal(START, maxRows, es) && Run(START, maxRows, es).phase != Clearing
    requires Count(Run(START, maxRows, es).accepted, k) == 0
    ensures var w := Run(START, maxRows, es);
            k !in w.live && k !in w.stored && (w.phase.Writing? ==> k !in w.phase.batch)
  {
    HitsConserved(maxRows, es, k);
    RunKeeps(START, maxRows, es);
    var w := Run(START, maxRows, es);
    assert Seen(w.live, k) == TallyOf(w.liveNotes, k) && Seen(w.stored, k) == TallyOf(w.storedNotes, k);
    TallyTimes(w.liveNotes, k);
    TallyTimes(w.storedNotes, k);
    TallyTimes(w.batchNotes, k);
  }

  // --- Which queries are counted ------------------------------------------

  // The queries of a run that came when their key was known or the table had room.
  ghost function Admitted(w: World, maxRows: nat, es: seq<Event>): seq<Note>
    requires Legal(w, maxRows, es)
    decreases |es|
  {
    if es == [] then []
    else AdmittedNow(w, maxRows, es[0]) + Admitted(Next(w, maxRows, es[0]), maxRows, es[1..])
  }

  ghost function AdmittedNow(w: World, maxRows: nat, e: Event): seq<Note> {
    if e.Query? && (e.note.key in w.live || |w.live| < maxRows) then [e.note] else []
  }

  ghost predicate NoClears(es: seq<Event>) {
    forall e :: e in es ==> !e.StartClear? && !e.EndClear?
  }

  lemma AcceptedNow(w: World, maxRows: nat, e: Event)
    requires Allowed(w, e) && !e.StartClear? && !e.EndClear?
    ensures var n := Next(w, maxRows, e);
            && n.accepted == w.accepted + AdmittedNow(w, maxRows, e) && n.lost == w.lost
            && (w.phase != Clearing ==> n.phase != Clearing)
  {
    assert w.accepted + [] == w.accepted;
  }

  // From `w` to `n` these notes were accepted, and nothing was cleared.
  ghost predicate Adds(w: World, n: World, more: seq<Note>) {
    n.accepted == w.accepted + more && n.lost == w.lost && (w.phase != Clearing ==> n.phase != Clearing)
  }

  lemma AddsOn(w: World, n: World, m: World, now: seq<Note>, more: seq<Note>)
    requires Adds(w, n, now) && Adds(n, m, more)
    ensures Adds(w, m, now + more)
  {
    assert w.accepted + now + more == w.accepted + (now + more);
  }

  lemma AcceptedFirst(w: World, maxRows: nat, es: seq<Event>) returns (n: World, now: seq<Note>)
    requires Legal(w, maxRows, es) && NoClears(es) && es != []
    ensures Legal(n, maxRows, es[1..]) && NoClears(es[1..]) && Run(w, maxRows, es) == Run(n, maxRows, es[1..])
    ensures Admitted(w, maxRows, es) == now + Admitted(n, maxRows, es[1..]) && Adds(w, n, now)
  {
    assert es[0] in es && forall e :: e in es[1..] ==> e in es;
    AcceptedNow(w, maxRows, es[0]);
    n, now := Next(w, maxRows, es[0]), AdmittedNow(w, maxRows, es[0]);
  }

  // These and no others are accepted, up to the next clear.
  lemma {:induction false} AcceptedExactly(w: World, maxRows: nat, es: seq<Event>)
    requires Legal(w, maxRows, es) && NoClears(es)
    ensures Adds(w, Run(w, maxRows, es), Admitted(w, maxRows, es))
    decreases |es|
  {
    if es == [] {
      assert w.accepted + [] == w.accepted;
    } else {
      var n, now := AcceptedFirst(w, maxRows, es);
      AcceptedExactly(n, maxRows, es[1..]);
      AddsOn(w, n, Run(n, maxRows, es[1..]), now, Admitted(n, maxRows, es[1..]));
    }
  }

  // Until something is cleared, every query that came when its key was known or the table
  // had room is counted exactly once, in memory, in flight or in the log, and no other.
  lemma QueriesAreCounted(maxRows: nat, es: seq<Event>, k: Key)
    requires Legal(START, maxRows, es) && NoClears(es)
    ensures HitsAnywhere(Run(START, maxRows, es), k) == NotesOf(Admitted(START, maxRows, es), k)
  {
    AcceptedExactly(START, maxRows, es);
    HitsConserved(maxRows, es, k);
    assert [] + Admitted(START, maxRows, es) == Admitted(START, maxRows, es);
    CountIsNotes(Admitted(START, maxRows, es), k);
  }

  // How many notes are about the key.
  ghost function NotesOf(notes: seq<Note>, k: Key): nat {
    if notes == [] then 0
    else NotesOf(notes[..|notes| - 1], k) + if notes[|notes| - 1].key == k then 1 else 0
  }

  lemma {:induction false} CountIsNotes(notes: seq<Note>, k: Key)
    ensures Count(notes, k) == NotesOf(notes, k)
  {
    if notes != [] {
      CountIsNotes(notes[..|notes| - 1], k);
    }
  }

  // The queries of a burst that the table takes, and what it turns away.
  ghost function Taken(pairs: Table, maxRows: nat, notes: seq<Note>): seq<Note> {
    if notes == [] then []
    else
      var front, last := notes[..|notes| - 1], notes[|notes| - 1];
      var table := NotedAll(pairs, maxRows, front);
      Taken(pairs, maxRows, front) + if last.key in table || |table| < maxRows then [last] else []
  }

  ghost predicate InTime(notes: seq<Note>, start: int) {
    && (forall i :: 0 <= i < |notes| ==> start <= notes[i].at)
    && (forall i, j :: 0 <= i < j < |notes| ==> notes[i].at <= notes[j].at)
  }

  lemma TakenNext(table: Table, notes: seq<Note>, maxRows: nat, note: Note)
    requires MadeOf(table, notes) && UpTo(notes, note.at)
    ensures MadeOf(Noted(table, maxRows, note),
                   notes + if note.key in table || |table| < maxRows then [note] else [])
  {
    assert notes + [] == notes;
    if Accepted(table, maxRows, note) {
      NoteIsCounted(table, notes, maxRows, note);
    }
  }

  lemma {:induction false} TakenAmong(pairs: Table, maxRows: nat, notes: seq<Note>)
    ensures forall n :: n in Taken(pairs, maxRows, notes) ==> n in notes
    ensures Rejected(pairs, maxRows, notes) == |notes| - |Taken(pairs, maxRows, notes)|
  {
    if notes != [] {
      assert notes == notes[..|notes| - 1] + [notes[|notes| - 1]];
      TakenAmong(pairs, maxRows, notes[..|notes| - 1]);
    }
  }

  // A burst of queries: the table becomes the tally of those it takes, and the rest is
  // what the drop counter counts.
  lemma {:induction false} BurstIsCounted(
    pairs: Table, before: seq<Note>, maxRows: nat, notes: seq<Note>, start: int)
    requires MadeOf(pairs, before) && UpTo(before, start) && InTime(notes, start)
    ensures MadeOf(NotedAll(pairs, maxRows, notes), before + Taken(pairs, maxRows, notes))
    ensures Rejected(pairs, maxRows, notes) == |notes| - |Taken(pairs, maxRows, notes)|
  {
    TakenAmong(pairs, maxRows, notes);
    if notes == [] {
      assert before + [] == before;
    } else {
      var front, last := notes[..|notes| - 1], notes[|notes| - 1];
      BurstIsCounted(pairs, before, maxRows, front, start);
      var table, taken := NotedAll(pairs, maxRows, front), Taken(pairs, maxRows, front);
      TakenAmong(pairs, maxRows, front);
      forall n | n in before + taken
        ensures n.at <= last.at
      {
        assert n in taken ==> n in front;
      }
      TakenNext(table, before + taken, maxRows, last);
      var more := if last.key in table || |table| < maxRows then [last] else [];
      assert before + taken + more == before + (taken + more);
    }
  }

  // The smallest way to lose a note: one query, then a clear that fails on the log.
  lemma FailedClearLoses(note: Note, maxRows: nat)
    requires maxRows > 0 && note.at >= 0
    ensures var es := [Query(note)] + ([StartClear] + ([EndClear(true)] + []));
            && Legal(START, maxRows, es)
            && HitsAnywhere(Run(START, maxRows, es), note.key) == 0
            && Count(Run(START, maxRows, es).accepted, note.key) == 1
  {
    var w1 := Next(START, maxRows, Query(note));
    assert w1.accepted == [note];
    assert TallyOf([note], note.key) == Join(TallyOf([note][..0], note.key), Some(Tally(1, note.at, note.at)));
    var w2 := Next(w1, maxRows, StartClear);
    var w3 := Next(w2, maxRows, EndClear(true));
    RunStep(w2, maxRows, EndClear(true), []);
    RunStep(w1, maxRows, StartClear, [EndClear(true)] + []);
    RunStep(START, maxRows, Query(note), [StartClear] + ([EndClear(true)] + []));
  }

  lemma RunStep(w: World, maxRows: nat, e: Event, es: seq<Event>)
    requires Allowed(w, e) && Legal(Next(w, maxRows, e), maxRows, es)
    ensures Legal(w, maxRows, [e] + es) && Run(w, maxRows, [e] + es) == Run(Next(w, maxRows, e), maxRows, es)
  {
    assert ([e] + es)[1..] == es;
  }

  // After a failed write every key is there, with the status that could not be written if
  // it was in the batch.
  lemma ReturnedExactly(live: Table, batch: Table, k: Key)
    ensures k in MergedBack(live, batch) <==> k in live || k in batch
    ensures k in batch ==> MergedBack(live, batch)[k].status == batch[k].status
    ensures k in live && k !in batch ==> MergedBack(live, batch)[k] == live[k]
  {
  }

  // After a failed write a key has the status of the older, unwritten sighting: the
  // latest one shows exactly when the key was not noted meanwhile, or alike.
  lemma StatusAfterFailedWrite(live: Table, batch: Table, k: Key)
    requires k in batch
    ensures var latest := if k in live then live[k].status else batch[k].status;
            MergedBack(live, batch)[k].status == latest <==> k !in live || live[k].status == batch[k].status
  {
  }

  // It need not show: a query counted while the write of an older one fails.
  lemma OlderStatusReturns(older: Note, newer: Note, maxRows: nat)
    requires maxRows > 0 && 0 <= older.at <= newer.at && older.key == newer.key
    ensures var es := [Query(older)] + ([TakeBatch] + ([Query(newer)] + ([Written(Failure)] + [])));
            && Legal(START, maxRows, es)
            && older.key in Run(START, maxRows, es).live
            && Run(START, maxRows, es).live[older.key].status == older.status
  {
    var w1 := Next(START, maxRows, Query(older));
    var w2 := Next(w1, maxRows, TakeBatch);
    var w3 := Next(w2, maxRows, Query(newer));
    assert older.key in w1.live && older.key in w3.live;
    RunStep(w3, maxRows, Written(Failure), []);
    RunStep(w2, maxRows, Query(newer), [Written(Failure)] + []);
    RunStep(w1, maxRows, TakeBatch, [Query(newer)] + ([Written(Failure)] + []));
    RunStep(START, maxRows, Query(older), [TakeBatch] + ([Query(newer)] + ([Written(Failure)] + [])));
  }
}
