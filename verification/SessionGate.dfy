// _SessionGate of core/buffer/memory.py: one session at a time on the shared
// in-memory connection, re-entrant per task, first come first served.

module SessionGate {
  import opened Options

  type Task = nat

  // The gate's fields, and the queue of its lock.
  datatype Gate = Gate(locked: bool, owner: Option<Task>, depth: int, waiters: seq<Task>)

  const FREE := Gate(false, None, 0, [])

  // acquire(), when it does not have to wait: the owner goes deeper, another task takes
  // the lock if it is free and nobody queues for it (asyncio locks are fair).
  predicate Admits(g: Gate, task: Task) {
    g.owner == Some(task) || (!g.locked && g.waiters == [])
  }

  function Acquired(g: Gate, task: Task): Gate {
    if g.owner == Some(task) then g.(depth := g.depth + 1)
    else if Admits(g, task) then g.(locked := true, owner := Some(task), depth := 1)
    else g.(waiters := g.waiters + [task])
  }

  // A free lock wakes its first waiter.
  predicate Wakes(g: Gate, task: Task) {
    !g.locked && g.waiters != [] && g.waiters[0] == task
  }

  function Resumed(g: Gate, task: Task): Gate
    requires Wakes(g, task)
  {
    Gate(true, Some(task), 1, g.waiters[1..])
  }

  function Without(waiters: seq<Task>, task: Task): seq<Task> {
    if waiters == [] then []
    else if waiters[0] == task then waiters[1..]
    else [waiters[0]] + Without(waiters[1..], task)
  }

  function Released(g: Gate): Gate {
    if g.depth - 1 == 0 then Gate(false, None, 0, g.waiters) else g.(depth := g.depth - 1)
  }

  class Session {
    var locked: bool
    var owner: Option<Task>
    var depth: int
    var waiters: seq<Task>

    ghost function View(): Gate
      reads this
    {
      Gate(locked, owner, depth, waiters)
    }

    constructor ()
      ensures View() == FREE
    {
      locked, owner, depth, waiters := false, None, 0, [];
    }

    // acquire() up to the point where the task is in or queues for the lock.
    method Acquire(task: Task) returns (entered: bool)
      modifies this
      ensures entered <==> Admits(old(View()), task)
      ensures View() == Acquired(old(View()), task)
    {
      if owner == Some(task) {
        depth := depth + 1;
        return true;
      }
      if locked || waiters != [] {
        waiters := waiters + [task];
        return false;
      }
      locked := true;
      owner := Some(task);
      depth := 1;
      entered := true;
    }

    // The rest of acquire(), when the lock has woken the task.
    method Resume(task: Task)
      requires Wakes(View(), task)
      modifies this
      ensures View() == Resumed(old(View()), task)
    {
      waiters := waiters[1..];
      locked := true;
      owner := Some(task);
      depth := 1;
    }

    method Release()
      modifies this
      ensures View() == Released(old(View()))
    {
      depth := depth - 1;
      if depth == 0 {
        owner := None;
        locked := false;
      }
    }
  }

  // --- Interleavings ------------------------------------------------------

  // Tasks enter and leave `async with` blocks; a blocked task is woken or cancelled.
  datatype Event = Enter(task: Task) | Wake(task: Task) | GiveUp(task: Task) | Leave(task: Task)

  // `nesting` is how many blocks each task is in.
  datatype World = World(g: Gate, nesting: map<Task, nat>)

  const START := World(FREE, map[])

  function Nesting(w: World, task: Task): nat {
    if task in w.nesting then w.nesting[task] else 0
  }

  // A blocked task does nothing else; a task leaves only a block it is in.
  predicate Allowed(w: World, e: Event) {
    match e
    case Enter(t) => t !in w.g.waiters
    case Wake(t) => Wakes(w.g, t)
    case GiveUp(t) => t in w.g.waiters
    case Leave(t) => t !in w.g.waiters && Nesting(w, t) > 0
  }

  function Next(w: World, e: Event): World
    requires Allowed(w, e)
  {
    match e
    case Enter(t) =>
      World(Acquired(w.g, t), if Admits(w.g, t) then w.nesting[t := Nesting(w, t) + 1] else w.nesting)
    case Wake(t) => World(Resumed(w.g, t), w.nesting[t := Nesting(w, t) + 1])
    case GiveUp(t) => w.(g := w.g.(waiters := Without(w.g.waiters, t)))
    case Leave(t) => World(Released(w.g), w.nesting[t := Nesting(w, t) - 1])
  }

  ghost predicate Legal(w: World, es: seq<Event>)
    decreases |es|
  {
    es == [] || (Allowed(w, es[0]) && Legal(Next(w, es[0]), es[1..]))
  }

  ghost function Run(w: World, es: seq<Event>): World
    requires Legal(w, es)
    decreases |es|
  {
    if es == [] then w else Run(Next(w, es[0]), es[1..])
  }

  // The gate's bookkeeping is the nesting of the one task inside; the owner does not
  // queue, and nobody queues twice.
  ghost predicate Inv(w: World) {
    && (w.g.locked <==> w.g.depth > 0) && w.g.depth >= 0
    && (w.g.owner.Some? <==> w.g.locked)
    && (forall t: Task :: Nesting(w, t) == if w.g.owner == Some(t) then w.g.depth else 0)
    && (w.g.owner.Some? ==> w.g.owner.value !in w.g.waiters)
    && Distinct(w.g.waiters)
  }

  ghost predicate Distinct(waiters: seq<Task>) {
    forall i, j :: 0 <= i < j < |waiters| ==> waiters[i] != waiters[j]
  }

  lemma {:induction false} WithoutMembers(waiters: seq<Task>, task: Task)
    requires Distinct(waiters)
    ensures Distinct(Without(waiters, task))
    ensures forall t :: t in Without(waiters, task) <==> t in waiters && t != task
  {
    if waiters != [] {
      WithoutMembers(waiters[1..], task);
      assert waiters == [waiters[0]] + waiters[1..];
      var rest := Without(waiters[1..], task);
      forall i | 0 <= i < |rest|
        ensures waiters[0] != rest[i]
      {
        assert rest[i] in rest;
      }
    }
  }

  lemma StepKeeps(w: World, e: Event)
    requires Inv(w) && Allowed(w, e)
    ensures Inv(Next(w, e))
  {
    var n := Next(w, e);
    var t := e.task;
    assert forall u: Task :: u != t ==> Nesting(n, u) == Nesting(w, u);
    match e {
      case GiveUp(_) =>
        WithoutMembers(w.g.waiters, t);
      case Wake(_) =>
        assert w.g.waiters == [t] + w.g.waiters[1..];
      case Leave(_) =>
        assert w.g.owner == Some(t);
      case Enter(_) =>
    }
  }

  lemma {:induction false} RunKeeps(w: World, es: seq<Event>)
    requires Inv(w) && Legal(w, es)
    ensures Inv(Run(w, es))
    decreases |es|
  {
    if es != [] {
      StepKeeps(w, es[0]);
      RunKeeps(Next(w, es[0]), es[1..]);
    }
  }

  // Over every interleaving: at most one task is inside, the depth is that task's
  // nesting, the lock is held exactly while somebody is inside, and nobody waits
  // for a lock it holds itself.
  lemma OneTaskInside(es: seq<Event>, t: Task, u: Task)
    requires Legal(START, es)
    ensures var w := Run(START, es);
            && (Nesting(w, t) > 0 && Nesting(w, u) > 0 ==> t == u)
            && (Nesting(w, t) > 0 ==> w.g.depth == Nesting(w, t) && t !in w.g.waiters)
            && (w.g.locked <==> exists v: Task :: Nesting(w, v) > 0)
  {
    RunKeeps(START, es);
    var w := Run(START, es);
    if w.g.locked {
      assert Nesting(w, w.g.owner.value) > 0;
    }
  }

  // A task that is inside is always admitted again, at once, whoever queues.
  lemma NestedNeverBlocks(es: seq<Event>, t: Task)
    requires Legal(START, es) && Nesting(Run(START, es), t) > 0
    ensures var w := Run(START, es);
            && Allowed(w, Enter(t))
            && Nesting(Next(w, Enter(t)), t) == Nesting(w, t) + 1
            && Next(w, Enter(t)).g.waiters == w.g.waiters
  {
    RunKeeps(START, es);
  }

  // When the last block is left, the first waiter can get in at once and nobody else
  // can: whoever comes meanwhile queues behind. With nobody waiting, anybody gets in.
  lemma LastLeaveAdmitsFirst(es: seq<Event>, t: Task, u: Task)
    requires Legal(START, es) && Allowed(Run(START, es), Leave(t)) && Nesting(Run(START, es), t) == 1
    ensures var n := Next(Run(START, es), Leave(t));
            && n.g.waiters == Run(START, es).g.waiters
            && (Allowed(n, Wake(u)) <==> n.g.waiters != [] && u == n.g.waiters[0])
            && (Allowed(n, Wake(u)) ==> Nesting(Next(n, Wake(u)), u) == 1)
            && (Allowed(n, Enter(u)) ==>
                  Nesting(Next(n, Enter(u)), u) == (if n.g.waiters == [] then 1 else 0)
                  && (n.g.waiters != [] ==> Next(n, Enter(u)).g.waiters == n.g.waiters + [u]))
  {
    RunKeeps(START, es);
  }

  // Who gets in at once: the task that is inside, or anybody while nobody is inside and
  // nobody waits. Any other task waits behind all others.
  lemma EnterExactly(es: seq<Event>, t: Task)
    requires Legal(START, es) && Allowed(Run(START, es), Enter(t))
    ensures var w := Run(START, es);
            var n := Next(w, Enter(t));
            if Nesting(w, t) > 0 || (w.g.waiters == [] && forall u: Task :: Nesting(w, u) == 0) then
              n.g.waiters == w.g.waiters && Nesting(n, t) == Nesting(w, t) + 1
            else n.g.waiters == w.g.waiters + [t] && n.nesting == w.nesting
  {
    RunKeeps(START, es);
    var w := Run(START, es);
    if w.g.locked {
      assert Nesting(w, w.g.owner.value) > 0;
    }
  }

  lemma {:induction false} WithoutFirst(waiters: seq<Task>, task: Task) returns (i: nat)
    requires task in waiters
    ensures i < |waiters| && waiters[i] == task && task !in waiters[..i]
    ensures Without(waiters, task) == waiters[..i] + waiters[i + 1..]
  {
    if waiters[0] == task {
      i := 0;
    } else {
      var k := WithoutFirst(waiters[1..], task);
      i := k + 1;
      assert waiters[..i] == [waiters[0]] + waiters[1..][..k];
      assert waiters[i + 1..] == waiters[1..][k + 1..];
    }
  }

  // The queue is served in order: a step appends a task, takes the first, or takes out
  // one that gives up and leaves all others where they were.
  lemma QueueIsFair(w: World, e: Event)
    requires Inv(w) && Allowed(w, e)
    ensures var before, after := w.g.waiters, Next(w, e).g.waiters;
            match e
            case Enter(t) => after == before || after == before + [t]
            case Wake(t) => before == [t] + after
            case GiveUp(t) => exists a, b :: before == a + [t] + b && after == a + b
            case Leave(_) => after == before
  {
    var before := w.g.waiters;
    match e {
      case Wake(t) =>
        assert before == [t] + before[1..];
      case GiveUp(t) =>
        var i := WithoutFirst(before, t);
        assert before == before[..i] + [t] + before[i + 1..];
      case _ =>
    }
  }
}
