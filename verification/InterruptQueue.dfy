/**
 The task queue of interrupt_queue/interrupt_queue.h: a FIFO of tasks that interrupt
 handlers fill and the main loop empties.
 */
module InterruptQueue {
  import opened Fifo

  /** A function, its argument and an optional cleanup function, as identities. */
  datatype Task = Task(func: nat, args: nat, hasCleanup: bool)

  /** A call made for a task. */
  datatype Call = Ran(task: Task) | Cleaned(task: Task)

  function CleanupCalls(t: Task): seq<Call> { if t.hasCleanup then [Cleaned(t)] else [] }

  function CleanupsOf(ts: seq<Task>): seq<Call>
  {
    if ts == [] then [] else CleanupCalls(ts[0]) + CleanupsOf(ts[1..])
  }

  // ------------------------------------------------------------ the queue

  class TaskQueue {
    const ring: Ring<Task>
    var log: seq<Call>

    ghost predicate Valid()
      reads this, ring
    {
      ring.Valid()
    }

    ghost function Tasks(): seq<Task>
      requires Valid()
      reads this, ring, ring.buffer
    {
      ring.Contents()
    }

    constructor (capacity: nat, taskSize: nat)
      requires 0 < taskSize && capacity + 1 < 0x1_0000 && capacity * taskSize < 0x1_0000
      ensures Valid() && Tasks() == [] && log == [] && ring.size == capacity + 1
      ensures fresh(ring) && fresh(ring.buffer)
    {
      ring := new Ring(capacity, taskSize, Task(0, 0, false));
      log := [];
    }

    /** hydra_interrupt_queue_set_next_task */
    method SetNextTask(task: Task) returns (ok: bool)
      requires Valid()
      modifies ring, ring.buffer
      ensures Valid()
      ensures ok <==> |old(Tasks())| < ring.size - 1
      ensures Tasks() == if ok then old(Tasks()) + [task] else old(Tasks())
    {
      var src := new Task[1](_ => task);
      var written := ring.Write(src, 1);
      assert src[..1] == [task];
      ok := written != 0;
    }

    /** hydra_interrupt_queue_peek_next_task_prio0 */
    method PeekNextTask() returns (found: bool, task: Task)
      requires Valid()
      ensures Valid() && Tasks() == old(Tasks())
      ensures found <==> Tasks() != []
      ensures found ==> task == Tasks()[0]
    {
      var dst := new Task[1](_ => Task(0, 0, false));
      var read := ring.PeekN(dst, 1);
      found, task := read > 0, dst[0];
    }

    method TakeNext() returns (found: bool, task: Task)
      requires Valid()
      modifies ring, ring.buffer
      ensures Valid()
      ensures found <==> old(Tasks()) != []
      ensures found ==> task == old(Tasks())[0] && Tasks() == old(Tasks())[1..]
      ensures !found ==> Tasks() == []
    {
      var dst := new Task[1](_ => Task(0, 0, false));
      var read := ring.ReadN(dst, 1);
      found, task := read != 0, dst[0];
    }

    /** hydra_interrupt_queue_run */
    method Run()
      requires Valid()
      modifies this`log, ring, ring.buffer
      ensures Valid()
      ensures old(Tasks()) == [] ==> Tasks() == [] && log == old(log)
      ensures old(Tasks()) != [] ==>
                && Tasks() == old(Tasks())[1..]
                && log == old(log) + [Ran(old(Tasks())[0])] + CleanupCalls(old(Tasks())[0])
    {
      var found, task := TakeNext();
      if found {
        log := log + [Ran(task)];
        if task.hasCleanup {
          log := log + [Cleaned(task)];
        }
      }
    }

    /** hydra_interrupt_queue_free_all: every task is removed, and only cleaned. */
    method FreeAll()
      requires Valid()
      modifies this`log, ring, ring.buffer
      ensures Valid() && Tasks() == []
      ensures log == old(log) + CleanupsOf(old(Tasks()))
    {
      var more := true;
      while more
        invariant Valid()
        invariant !more ==> Tasks() == []
        invariant log + CleanupsOf(Tasks()) == old(log) + CleanupsOf(old(Tasks()))
        decreases more, |Tasks()|
      {
        more := CleanNext();
      }
    }

    method CleanNext() returns (found: bool)
      requires Valid()
      modifies this`log, ring, ring.buffer
      ensures Valid()
      ensures found <==> old(Tasks()) != []
      ensures found ==> |Tasks()| < |old(Tasks())|
      ensures !found ==> Tasks() == []
      ensures log + CleanupsOf(Tasks()) == old(log) + CleanupsOf(old(Tasks()))
    {
      var task;
      found, task := TakeNext();
      if found && task.hasCleanup {
        log := log + [Cleaned(task)];
      }
    }
  }

  // ------------------------------------------------------------ life of a task

  /** A removal from the queue: which task, and whether by run or by free_all. */
  datatype Removal = Removal(id: nat, byRun: bool)

  /** What is being done with a task that has left the queue. */
  datatype Phase = ToRun | Running | ToClean

  /** A task taken out by run or free_all and not yet done with; `id` is its place in the order of
      acceptance. */
  datatype Flight = Flight(id: nat, phase: Phase)

  /** `accepted` holds every task ever accepted; the queue and the log `taken` of removals hold
      places in it. Calls in flight form a stack, since a task may itself run the queue. */
  datatype State = State(
    cap: nat, accepted: seq<Task>, queue: seq<nat>, taken: seq<Removal>, flights: seq<Flight>,
    ran: multiset<nat>, cleaned: multiset<nat>)

  datatype Action =
    | Enqueue(task: Task)
    | Take(phase: Phase)
    | CallTask
    | TaskReturns
    | Finish

  ghost predicate Init(s: State)
  {
    && s.accepted == [] && s.queue == [] && s.taken == [] && s.flights == []
    && s.ran == multiset{} && s.cleaned == multiset{}
  }

  /** Each critical section is one step; an interrupt may enqueue between any two of them. Run takes
      a task to run it, free_all takes one to clean it. */
  ghost predicate Enabled(s: State, a: Action)
  {
    match a
    case Enqueue(_) => true
    case Take(phase) => s.queue != [] && phase != Running
    case CallTask => s.flights != [] && Top(s).phase == ToRun
    case TaskReturns => s.flights != [] && Top(s).phase == Running
    case Finish => s.flights != [] && Top(s).phase == ToClean && Top(s).id < |s.accepted|
  }

  function Top(s: State): Flight
    requires s.flights != []
  {
    s.flights[|s.flights| - 1]
  }

  function Pop(s: State): seq<Flight>
    requires s.flights != []
  {
    s.flights[..|s.flights| - 1]
  }

  ghost function Step(s: State, a: Action): State
    requires Enabled(s, a)
  {
    match a
    case Enqueue(task) =>
      if |s.queue| < s.cap then s.(accepted := s.accepted + [task], queue := s.queue + [|s.accepted|]) else s
    case Take(phase) =>
      s.(queue := s.queue[1..], taken := s.taken + [Removal(s.queue[0], phase == ToRun)],
         flights := s.flights + [Flight(s.queue[0], phase)])
    case CallTask =>
      s.(flights := Pop(s) + [Flight(Top(s).id, Running)], ran := s.ran + multiset{Top(s).id})
    case TaskReturns => s.(flights := Pop(s) + [Flight(Top(s).id, ToClean)])
    case Finish =>
      var id := Top(s).id;
      s.(flights := Pop(s), cleaned := if s.accepted[id].hasCleanup then s.cleaned + multiset{id} else s.cleaned)
  }

  /** Tasks leave the queue in the order of acceptance. */
  ghost predicate InOrder(s: State)
  {
    && |s.taken| + |s.queue| == |s.accepted| && |s.queue| <= s.cap
    && (forall i :: 0 <= i < |s.taken| ==> s.taken[i].id == i)
    && forall i :: 0 <= i < |s.queue| ==> s.queue[i] == |s.taken| + i
  }

  ghost predicate InFlight(s: State, id: nat)
  {
    exists i :: 0 <= i < |s.flights| && s.flights[i].id == id
  }

  /** The calls made so far for the task accepted as number `id`, by what has become of it. */
  ghost predicate LifeOk(s: State, id: nat)
  {
    if id >= |s.taken| then s.ran[id] == 0 && s.cleaned[id] == 0
    else
      && s.ran[id] <= (if s.taken[id].byRun then 1 else 0)
      && (InFlight(s, id) ==> s.cleaned[id] == 0)
      && (!InFlight(s, id) ==>
            && s.ran[id] == (if s.taken[id].byRun then 1 else 0)
            && id < |s.accepted| && s.cleaned[id] == if s.accepted[id].hasCleanup then 1 else 0)
  }

  /** Flights are of distinct tasks that have left the queue, and have run if run has got that far. */
  ghost predicate FlightsOk(s: State)
  {
    && (forall i :: 0 <= i < |s.flights| ==>
          s.flights[i].id < |s.taken| && FlightOk(s.flights[i], s.taken[s.flights[i].id].byRun, s.ran[s.flights[i].id]))
    && forall i, j :: 0 <= i < j < |s.flights| ==> s.flights[i].id != s.flights[j].id
  }

  /** free_all only cleans; run has run the task unless it is still to be run. */
  predicate FlightOk(f: Flight, byRun: bool, ran: nat)
  {
    && (!byRun ==> f.phase == ToClean && ran == 0)
    && (byRun ==> ran == if f.phase == ToRun then 0 else 1)
  }

  ghost predicate Inv(s: State)
  {
    InOrder(s) && FlightsOk(s) && forall id: nat :: LifeOk(s, id)
  }

  lemma SameFlights(s: State, t: State, id: nat)
    requires |t.flights| == |s.flights| && forall i :: 0 <= i < |s.flights| ==> t.flights[i].id == s.flights[i].id
    ensures InFlight(t, id) <==> InFlight(s, id)
  {
    if InFlight(s, id) {
      var i :| 0 <= i < |s.flights| && s.flights[i].id == id;
      assert t.flights[i].id == id;
    }
    if InFlight(t, id) {
      var i :| 0 <= i < |t.flights| && t.flights[i].id == id;
      assert s.flights[i].id == id;
    }
  }

  lemma EnqueueKeepsInv(s: State, task: Task)
    requires Inv(s)
    ensures Inv(Step(s, Enqueue(task)))
  {
    var t := Step(s, Enqueue(task));
    forall id: nat ensures LifeOk(t, id) {
      assert LifeOk(s, id);
      SameFlights(s, t, id);
    }
  }

  lemma TakeKeepsInv(s: State, phase: Phase)
    requires Inv(s) && Enabled(s, Take(phase))
    ensures Inv(Step(s, Take(phase)))
  {
    var t := Step(s, Take(phase));
    var head := s.queue[0];
    assert LifeOk(s, head);
    forall id: nat ensures LifeOk(t, id) {
      assert LifeOk(s, id);
      if id == head {
        assert t.flights[|s.flights|].id == head;
      } else {
        TakeInFlight(s, t, phase, id);
      }
    }
  }

  lemma TakeInFlight(s: State, t: State, phase: Phase, id: nat)
    requires s.queue != [] && t.flights == s.flights + [Flight(s.queue[0], phase)] && id != s.queue[0]
    ensures InFlight(t, id) <==> InFlight(s, id)
  {
    if InFlight(s, id) {
      var i :| 0 <= i < |s.flights| && s.flights[i].id == id;
      assert t.flights[i].id == id;
    }
    if InFlight(t, id) {
      var i :| 0 <= i < |t.flights| && t.flights[i].id == id;
      assert s.flights[i].id == id;
    }
  }

  lemma PhaseKeepsInv(s: State, a: Action)
    requires Inv(s) && Enabled(s, a) && (a.CallTask? || a.TaskReturns?)
    ensures Inv(Step(s, a))
  {
    var t := Step(s, a);
    forall id: nat ensures LifeOk(t, id) {
      assert LifeOk(s, id);
      SameFlights(s, t, id);
    }
  }

  lemma FinishKeepsInv(s: State)
    requires Inv(s) && Enabled(s, Finish)
    ensures Inv(Step(s, Finish))
  {
    var t, top := Step(s, Finish), Top(s).id;
    assert s.flights[|s.flights| - 1].id == top;
    forall id: nat ensures LifeOk(t, id) {
      assert LifeOk(s, id);
      if id == top {
        assert InFlight(s, id) && !InFlight(t, id);
      } else {
        TakeInFlight(t.(queue := [top]), s, Top(s).phase, id);
      }
    }
  }

  /** A task is accepted exactly when there is room, and goes to the end of the queue. */
  lemma AcceptedIfRoom(s: State, task: Task)
    requires Inv(s)
    ensures
      var t := Step(s, Enqueue(task));
      if |s.queue| < s.cap then t.accepted == s.accepted + [task] && t.queue == s.queue + [|s.accepted|] else t == s
  {
  }

  /** What run does when nothing comes in between is to run the oldest task once and clean it once. */
  lemma RunServesOne(s: State)
    requires Inv(s) && s.queue != [] && s.queue[0] < |s.accepted|
    ensures
      var id := s.queue[0];
      var t := Step(s, Take(ToRun));
      && Enabled(t, CallTask) && Enabled(Step(t, CallTask), TaskReturns)
      && Enabled(Step(Step(t, CallTask), TaskReturns), Finish)
      && var u := Step(Step(Step(t, CallTask), TaskReturns), Finish);
         && u.queue == s.queue[1..] && u.flights == s.flights && u.ran == s.ran + multiset{id}
         && u.cleaned == s.cleaned + if s.accepted[id].hasCleanup then multiset{id} else multiset{}
  {
    var t := Step(s, Take(ToRun));
    assert Top(t) == Flight(s.queue[0], ToRun) && Pop(t) == s.flights;
    var u := Step(t, CallTask);
    assert Top(u) == Flight(s.queue[0], Running) && Pop(u) == s.flights;
    var v := Step(u, TaskReturns);
    assert Top(v) == Flight(s.queue[0], ToClean) && Pop(v) == s.flights;
  }

  /** What one round of free_all does is to clean the oldest task once. */
  lemma FreeServesOne(s: State)
    requires Inv(s) && s.queue != [] && s.queue[0] < |s.accepted|
    ensures
      var id := s.queue[0];
      var t := Step(s, Take(ToClean));
      && Enabled(t, Finish)
      && var u := Step(t, Finish);
         && u.queue == s.queue[1..] && u.flights == s.flights && u.ran == s.ran
         && u.cleaned == s.cleaned + if s.accepted[id].hasCleanup then multiset{id} else multiset{}
  {
    var t := Step(s, Take(ToClean));
    assert Top(t) == Flight(s.queue[0], ToClean) && Pop(t) == s.flights;
  }

  lemma StepKeepsInv(s: State, a: Action)
    requires Inv(s) && Enabled(s, a)
    ensures Inv(Step(s, a))
  {
    match a
    case Enqueue(task) => EnqueueKeepsInv(s, task);
    case Take(phase) => TakeKeepsInv(s, phase);
    case CallTask => PhaseKeepsInv(s, a);
    case TaskReturns => PhaseKeepsInv(s, a);
    case Finish => FinishKeepsInv(s);
  }

  ghost predicate IsRun(states: seq<State>, actions: seq<Action>)
  {
    && |states| == |actions| + 1 && Init(states[0])
    && forall i :: 0 <= i < |actions| ==> Enabled(states[i], actions[i]) && states[i + 1] == Step(states[i], actions[i])
  }

  lemma {:induction false} RunKeepsInv(states: seq<State>, actions: seq<Action>, i: nat)
    requires IsRun(states, actions) && i <= |actions|
    ensures Inv(states[i])
  {
    if i == 0 {
      var s := states[0];
      forall id: nat ensures LifeOk(s, id) {
      }
    } else {
      RunKeepsInv(states, actions, i - 1);
      StepKeepsInv(states[i - 1], actions[i - 1]);
      assert states[i - 1 + 1] == states[i];
    }
  }

  /** In every run: tasks are removed in the order of acceptance; once run or free_all is done with a
      task, it has run exactly once if run took it and never if free_all did, and its cleanup has been
      called exactly once if it has one; none runs or is cleaned before it is removed, or twice. */
  lemma TaskLifecycle(states: seq<State>, actions: seq<Action>, i: nat, id: nat)
    requires IsRun(states, actions) && i <= |actions|
    ensures
      var s := states[i];
      && InOrder(s) && s.ran[id] <= 1 && s.cleaned[id] <= 1
      && (id < |s.taken| && !InFlight(s, id) ==>
            && s.ran[id] == (if s.taken[id].byRun then 1 else 0)
            && id < |s.accepted| && (s.cleaned[id] == 1 <==> s.accepted[id].hasCleanup))
      && (id >= |s.taken| ==> s.ran[id] == 0 && s.cleaned[id] == 0)
  {
    RunKeepsInv(states, actions, i);
    assert LifeOk(states[i], id);
  }
}
