/** code/threads/synch.cc: the semaphore, as the two sections that run with interrupts off, and its users over whole runs. */
module Semaphores {

  import opened ThreadIds
  import opened Wrappers

  datatype Sem = Sem(value: int, queue: seq<Tid>)

  /** One pass of the loop of `P` by thread `t`: it takes a unit, or it queues up and sleeps. */
  function Attempt(s: Sem, t: Tid): Sem {
    if s.value == 0 then Sem(0, s.queue + [t]) else Sem(s.value - 1, s.queue)
  }

  /** `V`: the front of the queue becomes ready, and the value goes up in any case. */
  function Post(s: Sem): Sem {
    Sem(s.value + 1, if s.queue == [] then [] else s.queue[1..])
  }

  class Semaphore {
    var value: int
    var queue: seq<Tid>

    function State(): Sem
      reads this
    {
      Sem(value, queue)
    }

    constructor (initialValue: int)
      ensures State() == Sem(initialValue, [])
    {
      value := initialValue;
      queue := [];
    }

    /** From the test in the loop of `P` to its return or to `Sleep`. */
    method TryP(currentThread: Tid) returns (slept: bool)
      modifies this
      ensures State() == Attempt(old(State()), currentThread)
      ensures slept <==> old(value) == 0
      ensures queue == old(queue) + (if slept then [currentThread] else []) && value == old(value) - if slept then 0 else 1
    {
      if value == 0 {
        queue := queue + [currentThread];
        return true;
      }
      value := value - 1;
      return false;
    }

    method V() returns (readied: Option<Tid>)
      modifies this
      ensures State() == Post(old(State())) && readied == Front(old(queue))
      ensures value == old(value) + 1 && old(queue) == (if readied.Some? then [readied.value] else []) + queue
    {
      readied := None;
      if queue != [] {
        readied := Some(queue[0]);
        queue := queue[1..];
      }
      value := value + 1;
    }
  }

  /** Where a thread is with respect to one semaphore. `woken` says that a `V` has readied it and it has not run since. */
  datatype Status = Away | Trying(woken: bool) | Asleep

  datatype System = System(sem: Sem, who: seq<Status>, completedPs: nat, completedVs: nat)

  datatype Action = Call(t: Tid) | Pass(t: Tid) | Signal

  /** Any thread may call `P` when it is away, a runnable thread may make its next pass, and anyone may call `V`. */
  predicate Enabled(s: System, a: Action) {
    match a
    case Call(t) => t < |s.who| && s.who[t] == Away
    case Pass(t) => t < |s.who| && s.who[t].Trying?
    case Signal => s.sem.queue == [] || s.sem.queue[0] < |s.who|
  }

  function Step(s: System, a: Action): System
    requires Enabled(s, a)
  {
    match a
    case Call(t) => s.(who := s.who[t := Trying(false)])
    case Pass(t) =>
      if s.sem.value == 0 then s.(sem := Attempt(s.sem, t), who := s.who[t := Asleep])
      else s.(sem := Attempt(s.sem, t), who := s.who[t := Away], completedPs := s.completedPs + 1)
    case Signal =>
      var who := if s.sem.queue == [] then s.who else s.who[s.sem.queue[0] := Trying(true)];
      s.(sem := Post(s.sem), who := who, completedVs := s.completedVs + 1)
  }

  ghost predicate Next(s: System, s': System) {
    exists a :: Enabled(s, a) && s' == Step(s, a)
  }

  predicate Init(s: System, initial: nat) {
    s.sem == Sem(initial, []) && s.completedPs == 0 && s.completedVs == 0 && forall t: Tid | t < |s.who| :: s.who[t] == Away
  }

  ghost predicate IsRun(run: seq<System>, initial: nat) {
    |run| > 0 && Init(run[0], initial) && forall i | 0 <= i < |run| - 1 :: Next(run[i], run[i + 1])
  }

  function Woken(who: seq<Status>): set<Tid> {
    set t | 0 <= t < |who| && who[t] == Trying(true)
  }

  ghost predicate Inv(s: System, initial: nat) {
    && s.sem.value >= 0
    && initial + s.completedVs == s.sem.value + s.completedPs
    && NoDuplicates(s.sem.queue)
    && (forall t: Tid :: t in s.sem.queue <==> t < |s.who| && s.who[t] == Asleep)
    && (s.sem.queue != [] ==> s.sem.value <= |Woken(s.who)|)
  }

  lemma StepKeepsInv(s: System, a: Action, initial: nat)
    requires Inv(s, initial) && Enabled(s, a)
    ensures Inv(Step(s, a), initial)
  {
    var s' := Step(s, a);
    match a
    case Call(t) =>
      assert Woken(s'.who) == Woken(s.who);
    case Pass(t) =>
      if s.sem.value == 0 {
        AppendKeepsDistinct(s.sem.queue, t);
      } else {
        assert Woken(s'.who) == Woken(s.who) - {t};
      }
    case Signal =>
      if s.sem.queue != [] {
        DropFrontKeepsDistinct(s.sem.queue);
        assert Woken(s'.who) == Woken(s.who) + {s.sem.queue[0]};
      }
  }

  /** In every state of every run, with any number of threads, the semaphore's accounting is right and no wakeup is lost. */
  lemma {:induction false} RunKeepsInv(run: seq<System>, initial: nat, i: nat)
    requires IsRun(run, initial) && i < |run|
    ensures Inv(run[i], initial) && Enabled(run[i], Signal)
  {
    if i > 0 {
      RunKeepsInv(run, initial, i - 1);
      assert Next(run[i - 1], run[i - 1 + 1]);
      var a :| Enabled(run[i - 1], a) && run[i] == Step(run[i - 1], a);
      StepKeepsInv(run[i - 1], a, initial);
    }
    var queue := run[i].sem.queue;
    assert queue != [] ==> queue[0] in queue;
  }

  /** When every thread that was woken has run again, a thread sleeps only on a semaphore with value 0. */
  lemma NobodySleepsOnPositive(run: seq<System>, initial: nat, i: nat, t: Tid)
    requires IsRun(run, initial) && i < |run| && t < |run[i].who| && run[i].who[t] == Asleep
    requires forall u | 0 <= u < |run[i].who| :: !run[i].who[u].Trying?
    ensures run[i].sem.value == 0 && run[i].completedPs == initial + run[i].completedVs
  {
    RunKeepsInv(run, initial, i);
    assert t in run[i].sem.queue;
    assert Woken(run[i].who) == {};
  }

  predicate FallsAsleep(s: System, s': System, t: Tid) {
    t < |s.who| == |s'.who| && s.who[t] != Asleep && s'.who[t] == Asleep
  }

  predicate IsReadied(s: System, s': System, t: Tid) {
    t < |s.who| == |s'.who| && s.who[t] == Asleep && s'.who[t] != Asleep
  }

  /** Threads are readied in the order in which they went to sleep, and those not yet readied are in the queue in that order. */
  lemma ReadiedInOrder(run: seq<System>, initial: nat, i: nat)
    requires IsRun(run, initial) && i < |run|
    ensures Log(run, FallsAsleep, i) == Log(run, IsReadied, i) + run[i].sem.queue
  {
    forall k | 0 <= k < |run| - 1
      ensures QueueStep(run[k], run[k + 1], run[k].sem.queue, run[k + 1].sem.queue, FallsAsleep, IsReadied)
    {
      RunKeepsInv(run, initial, k);
      assert Next(run[k], run[k + 1]);
      var a :| Enabled(run[k], a) && run[k + 1] == Step(run[k], a);
      StepOnQueue(run[k], a, initial);
    }
    FirstInFirstOut(run, (s: System) => s.sem.queue, FallsAsleep, IsReadied, i);
  }

  lemma StepOnQueue(s: System, a: Action, initial: nat)
    requires Inv(s, initial) && Enabled(s, a)
    ensures QueueStep(s, Step(s, a), s.sem.queue, Step(s, a).sem.queue, FallsAsleep, IsReadied)
  {
    var s' := Step(s, a);
    match a
    case Call(t) =>
    case Pass(t) =>
      if s.sem.value == 0 {
        assert s'.sem.queue == s.sem.queue + [t] && forall u: Tid :: FallsAsleep(s, s', u) <==> u == t;
      }
    case Signal =>
      if s.sem.queue != [] {
        assert s.sem.queue[0] in s.sem.queue;
      }
  }
}
