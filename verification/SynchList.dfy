/** code/threads/synchlist.cc on top of the locks and Mesa condition variables of code/threads/synch.cc. */
module SynchLists {
  import opened ThreadIds
  import opened Wrappers
  import opened Semaphores
  import Lists

  /** Why a thread wants the lock: for one of the three operations, or to return from `Wait`. */
  datatype Purpose<T> = ToAppend(item: T) | ToRemoveFront | ToRemove(item: T) | ToRecheck

  /** What has been done to the list. */
  datatype Event<T> = Appended(item: T) | RemovedFront(item: T) | Removed(item: T)

  /** What follows a `Release`: the end of the operation, or the sleep inside `Wait`. */
  datatype After = Finish | ThenWait

  /** Program counters; a thread may be switched out at every one of them. */
  datatype Pc<T> =
    | Idle
    | Want(purpose: Purpose<T>, woken: bool)  // about to make a pass of the lock's P
    | LockSleep(purpose: Purpose<T>)          // asleep on the lock's semaphore
    | Got(purpose: Purpose<T>)                // P returned, lockHolder not yet set
    | Appending(item: T)                      // about to append to the list
    | Removing(item: T)                       // about to remove the item from the list
    | Signalling                              // about to call Signal
    | Waking(waiter: Tid)                     // in Signal, about to V the waiter's semaphore
    | Checking(again: bool)                   // about to test whether the list is empty
    | Enqueueing                              // in Wait, about to queue its own semaphore
    | Releasing(after: After)                 // about to clear lockHolder
    | Freeing(after: After)                   // about to V the lock's semaphore
    | WaitP                                   // about to make a pass of its own semaphore's P
    | WaitSleep                               // asleep on its own semaphore

  datatype State<T> = State(
    list: seq<T>, lock: Sem, lockHolder: Option<Tid>,
    waitQueue: seq<Tid>, waiters: seq<Sem>,  // each waiting thread has a semaphore of its own
    pcs: seq<Pc<T>>,
    log: seq<Event<T>>)                      // all that has been done to the list

  /** A thread with this program counter is runnable. */
  predicate Runnable<T>(pc: Pc<T>) {
    !pc.LockSleep? && !pc.WaitSleep?
  }

  /** Between the return of the lock's `P` and the matching `V`. */
  predicate Holds<T>(pc: Pc<T>) {
    pc.Got? || Inside(pc) || pc.Freeing?
  }

  /** The thread is recorded in `lockHolder`. */
  predicate Inside<T>(pc: Pc<T>) {
    pc.Appending? || pc.Removing? || pc.Signalling? || pc.Waking? || pc.Checking? || pc.Enqueueing? || pc.Releasing?
  }

  /** The ASSERTs that the next step of thread `t` makes. */
  predicate AssertsHold<T>(s: State<T>, t: Tid)
    requires t < |s.pcs|
  {
    s.pcs[t].Signalling? || s.pcs[t].Releasing? || s.pcs[t].Enqueueing? ==> s.lockHolder == Some(t)
  }

  /** The ASSERTs of `List::Remove`: the item is in the list, once. They are the caller's business. */
  ghost predicate RemoveHolds<T>(s: State<T>, t: Tid)
    requires t < |s.pcs|
  {
    s.pcs[t].Removing? ==> multiset(s.list)[s.pcs[t].item] == 1
  }

  /** Thread `t` is runnable; `call`, used only when it is idle, is one of the three operations. */
  ghost predicate CanStep<T>(s: State<T>, t: Tid, call: Purpose<T>) {
    && t < |s.pcs| == |s.waiters| && Runnable(s.pcs[t]) && !call.ToRecheck?
    && (forall u <- s.lock.queue :: u < |s.pcs|) && (s.pcs[t].Waking? ==> s.pcs[t].waiter < |s.pcs|)
    && RemoveHolds(s, t)
  }

  /** One step of thread `t`; `call` is the operation it starts if it is idle. */
  ghost function Step<T>(s: State<T>, t: Tid, call: Purpose<T>): State<T>
    requires CanStep(s, t, call)
  {
    match s.pcs[t]
    case Idle => At(s, t, Want(call, false))
    case Want(p, _) =>
      At(s.(lock := Attempt(s.lock, t)), t, if s.lock.value == 0 then LockSleep(p) else Got(p))
    case Got(p) =>
      At(s.(lockHolder := Some(t)), t,
         match p case ToAppend(x) => Appending(x) case ToRemove(x) => Removing(x) case ToRemoveFront => Checking(false) case ToRecheck => Checking(true))
    case Appending(x) => At(s.(list := s.list + [x], log := s.log + [Appended(x)]), t, Signalling)
    case Removing(x) => At(s.(list := Lists.WithoutFirst(s.list, x), log := s.log + [Removed(x)]), t, Releasing(Finish))
    case Signalling =>
      if s.waitQueue == [] then At(s, t, Releasing(Finish))
      else At(s.(waitQueue := s.waitQueue[1..]), t, Waking(s.waitQueue[0]))
    case Waking(w) =>
      var pcs := if s.waiters[w].queue == [] then s.pcs else s.pcs[w := WaitP];  // only its owner sleeps there
      At(s.(waiters := s.waiters[w := Post(s.waiters[w])], pcs := pcs), t, Releasing(Finish))
    case Checking(_) =>
      if s.list == [] then At(s, t, Enqueueing)
      else At(s.(list := s.list[1..], log := s.log + [RemovedFront(s.list[0])]), t, Releasing(Finish))
    case Enqueueing => At(s.(waiters := s.waiters[t := Sem(0, [])], waitQueue := s.waitQueue + [t]), t, Releasing(ThenWait))
    case Releasing(a) => At(s.(lockHolder := None), t, Freeing(a))
    case Freeing(a) =>
      var pcs :=
        if s.lock.queue == [] then s.pcs
        else
          var u := s.lock.queue[0];
          assert u in s.lock.queue;
          if s.pcs[u].LockSleep? then s.pcs[u := Want(s.pcs[u].purpose, true)] else s.pcs;
      At(s.(lock := Post(s.lock), pcs := pcs), t, if a == Finish then Idle else WaitP)
    case WaitP =>
      At(s.(waiters := s.waiters[t := Attempt(s.waiters[t], t)]), t,
         if s.waiters[t].value == 0 then WaitSleep else Want(ToRecheck, false))
    case _ => s
  }

  function At<T>(s: State<T>, t: Tid, pc: Pc<T>): State<T>
    requires t < |s.pcs|
  {
    s.(pcs := s.pcs[t := pc])
  }

  predicate Init<T>(s: State<T>) {
    && s.list == [] && s.lock == Sem(1, []) && s.lockHolder == None && s.waitQueue == []
    && |s.waiters| == |s.pcs| && s.log == []
    && (forall t: Tid | t < |s.pcs| :: s.pcs[t].Idle? && s.waiters[t] == Sem(0, []))
  }

  // The invariant, in parts.

  /** The queues name threads that exist, each at most once. */
  ghost predicate QueuesOk<T>(s: State<T>) {
    && |s.waiters| == |s.pcs|
    && NoDuplicates(s.lock.queue) && NoDuplicates(s.waitQueue)
    && (forall t: Tid :: t in s.lock.queue <==> t < |s.pcs| && s.pcs[t].LockSleep?)
    && (forall t: Tid | t in s.waitQueue :: t < |s.pcs|)
    && (forall t: Tid | t < |s.pcs| && s.pcs[t].Waking? :: s.pcs[t].waiter < |s.pcs|)
  }

  function Holders<T>(s: State<T>): set<Tid> {
    set t: Tid | t < |s.pcs| && Holds(s.pcs[t])
  }

  /** The lock: its value plus the threads that hold it make 1, and `lockHolder` is right. */
  ghost predicate LockOk<T>(s: State<T>) {
    && s.lock.value >= 0 && s.lock.value + |Holders(s)| == 1
    && (forall t: Tid | t < |s.pcs| :: Inside(s.pcs[t]) <==> s.lockHolder == Some(t))
    && (s.lockHolder.Some? ==> s.lockHolder.value < |s.pcs|)
  }

  /** No lost wakeup on the lock: a free lock with a queue has a thread on its way to it. */
  ghost predicate LockLive<T>(s: State<T>) {
    s.lock.queue != [] && s.lock.value > 0 ==> exists t: Tid :: t < |s.pcs| && s.pcs[t].Want? && s.pcs[t].woken
  }

  /** The thread is in `Wait`, past putting itself on `waitQueue`. */
  predicate InWait<T>(pc: Pc<T>) {
    pc == Releasing(ThenWait) || pc == Freeing(ThenWait) || pc.WaitP? || pc.WaitSleep?
  }

  /** Some signaller has taken `t` off `waitQueue` and not yet called `V`. */
  predicate BeingWoken<T>(s: State<T>, t: Tid) {
    var pc := HolderPc(s);
    pc.Waking? && pc.waiter == t
  }

  /** What the thread recorded as the holder is about to do. */
  function HolderPc<T>(s: State<T>): Pc<T> {
    if s.lockHolder.Some? && s.lockHolder.value < |s.pcs| then s.pcs[s.lockHolder.value] else Idle
  }

  /** A waiter is queued, being woken or woken, and its own semaphore shows which. */
  predicate WaiterOk<T>(s: State<T>, t: Tid)
    requires t < |s.waiters| == |s.pcs|
  {
    var pending, pc := t in s.waitQueue || BeingWoken(s, t), s.pcs[t];
    && !(t in s.waitQueue && BeingWoken(s, t))
    && (pending ==> InWait(pc))
    && (InWait(pc) ==> s.waiters[t] == Sem(if pending then 0 else 1, if pc.WaitSleep? then [t] else []))
    && (pc.WaitSleep? ==> pending)
  }

  ghost predicate WaitersOk<T>(s: State<T>)
    requires |s.waiters| == |s.pcs|
  {
    forall t: Tid | t < |s.pcs| :: WaiterOk(s, t)
  }

  /** Consumers that were signalled and have not yet tested the list again. */
  function Signalled<T>(s: State<T>): set<Tid> {
    set t: Tid | t < |s.pcs| && ((InWait(s.pcs[t]) && t !in s.waitQueue) || Rechecking(s.pcs[t]))
  }

  predicate Rechecking<T>(pc: Pc<T>) {
    (pc.Want? && pc.purpose.ToRecheck?) || pc == LockSleep(ToRecheck) || pc == Got(ToRecheck) || pc == Checking(true)
  }

  /** A producer is between its append and its `Signal`. */
  predicate SignalPending<T>(s: State<T>) {
    HolderPc(s).Signalling?
  }

  /** No lost wakeup on the list. */
  ghost predicate ListLive<T>(s: State<T>) {
    s.waitQueue != [] ==> |s.list| <= |Signalled(s)| + if SignalPending(s) then 1 else 0
  }

  /** What an event makes of an atomic queue. */
  ghost function QueueAfter<T>(q: seq<T>, e: Event<T>): seq<T> {
    match e
    case Appended(x) => q + [x]
    case RemovedFront(_) => if q == [] then [] else q[1..]
    case Removed(x) => Lists.WithoutFirst(q, x)
  }

  /** An atomic queue has the item that the event takes out of it. */
  ghost predicate CanFollow<T>(q: seq<T>, e: Event<T>) {
    match e
    case Appended(_) => true
    case RemovedFront(x) => q != [] && q[0] == x
    case Removed(x) => multiset(q)[x] == 1
  }

  ghost function Replayed<T>(log: seq<Event<T>>): seq<T> {
    if log == [] then [] else QueueAfter(Replayed(log[..|log| - 1]), log[|log| - 1])
  }

  ghost predicate Legal<T>(log: seq<Event<T>>) {
    forall i | 0 <= i < |log| :: CanFollow(Replayed(log[..i]), log[i])
  }

  lemma LegalSnoc<T>(log: seq<Event<T>>, e: Event<T>)
    requires Legal(log) && CanFollow(Replayed(log), e)
    ensures Legal(log + [e]) && Replayed(log + [e]) == QueueAfter(Replayed(log), e)
  {
    var log' := log + [e];
    assert log'[..|log|] == log;
    forall i | 0 <= i < |log|
      ensures log'[..i] == log[..i]
    {
    }
  }

  /** The items put in, and those taken from the front, in order. */
  function Put<T>(log: seq<Event<T>>): seq<T> {
    if log == [] then [] else Put(log[..|log| - 1]) + (if log[|log| - 1].Appended? then [log[|log| - 1].item] else [])
  }

  function Taken<T>(log: seq<Event<T>>): seq<T> {
    if log == [] then [] else Taken(log[..|log| - 1]) + (if log[|log| - 1].RemovedFront? then [log[|log| - 1].item] else [])
  }

  /** The items that `Remove` has picked out. */
  function Picked<T>(log: seq<Event<T>>): multiset<T> {
    if log == [] then multiset{} else Picked(log[..|log| - 1]) + (if log[|log| - 1].Removed? then multiset{log[|log| - 1].item} else multiset{})
  }

  lemma {:induction false} WithoutFirstCounts<T>(s: seq<T>, x: T)
    requires x in s
    ensures multiset(Lists.WithoutFirst(s, x)) == multiset(s) - multiset{x} && |Lists.WithoutFirst(s, x)| == |s| - 1
  {
    assert s == [s[0]] + s[1..];
    if s[0] != x { WithoutFirstCounts(s[1..], x); }
  }

  lemma LegalFront<T>(log: seq<Event<T>>)
    requires log != [] && Legal(log)
    ensures Legal(log[..|log| - 1]) && CanFollow(Replayed(log[..|log| - 1]), log[|log| - 1])
  {
    forall i | 0 <= i < |log| - 1
      ensures log[..|log| - 1][..i] == log[..i]
    {
    }
  }

  /** In an atomic queue no item is lost or duplicated. */
  lemma {:induction false} NothingLost<T>(log: seq<Event<T>>)
    requires Legal(log)
    ensures multiset(Put(log)) == multiset(Taken(log)) + Picked(log) + multiset(Replayed(log))
  {
    hide Legal, QueueAfter, CanFollow;
    if log != [] {
      LegalFront(log);
      NothingLost(log[..|log| - 1]);
      CountsAfter(Replayed(log[..|log| - 1]), log[|log| - 1]);
    }
  }

  lemma CountsAfter<T>(q: seq<T>, e: Event<T>)
    requires CanFollow(q, e)
    ensures multiset(QueueAfter(q, e)) == if e.Appended? then multiset(q) + multiset{e.item} else multiset(q) - multiset{e.item}
    ensures !e.Appended? ==> e.item in multiset(q)
  {
    if e.RemovedFront? { assert q == [q[0]] + q[1..]; }
    if e.Removed? { WithoutFirstCounts(q, e.item); }
  }

  /** Without `Remove`, items come out of an atomic queue in the order in which they went in. */
  lemma {:induction false} FirstInFirstOut<T>(log: seq<Event<T>>)
    requires Legal(log) && forall e <- log :: !e.Removed?
    ensures Put(log) == Taken(log) + Replayed(log)
  {
    hide Legal;
    if log != [] {
      var n := |log| - 1;
      var q, e := Replayed(log[..n]), log[n];
      LegalFront(log);
      FirstInFirstOut(log[..n]);
      assert e in log;
      assert e.RemovedFront? ==> q == [q[0]] + q[1..];
    }
  }

  /** The list is what an atomic queue would hold; whoever is about to wait has seen it empty. */
  ghost predicate ContentsOk<T>(s: State<T>) {
    && s.list == Replayed(s.log) && Legal(s.log)
    && (forall t: Tid | t < |s.pcs| && s.pcs[t].Enqueueing? :: s.list == [])
  }

  ghost predicate Inv<T>(s: State<T>) {
    QueuesOk(s) && LockOk(s) && LockLive(s) && WaitersOk(s) && ListLive(s) && ContentsOk(s)
  }

  lemma OnlyHolder<T>(s: State<T>, t: Tid)
    requires LockOk(s) && t < |s.pcs| && Holds(s.pcs[t])
    ensures s.lock.value == 0 && Holders(s) == {t}
    ensures forall u: Tid | u < |s.pcs| && u != t :: !Holds(s.pcs[u])
  {
    assert t in Holders(s);
    forall u: Tid | u < |s.pcs| && u != t
      ensures !Holds(s.pcs[u])
    {
      if Holds(s.pcs[u]) {
        assert {t, u} <= Holders(s) && |{t, u}| == 2;
        SubsetSize({t, u}, Holders(s));
      }
    }
  }

  /** Moving a thread that does not hold the lock, between program counters where it does not hold it either. */
  lemma MoveFree<T>(s: State<T>, t: Tid, pc: Pc<T>)
    requires Inv(s) && t < |s.pcs| && !Holds(s.pcs[t]) && !Holds(pc)
    requires Rechecking(s.pcs[t]) == Rechecking(pc) && !InWait(s.pcs[t]) && !InWait(pc)
    requires !s.pcs[t].LockSleep? && !pc.LockSleep?
    requires s.pcs[t].Want? && s.pcs[t].woken ==> pc.Want? && pc.woken
    ensures Inv(At(s, t, pc))
  {
    hide Legal, Replayed;
    var s' := At(s, t, pc);
    assert Holders(s') == Holders(s) && Signalled(s') == Signalled(s);
    assert forall u: Tid | u < |s.pcs| && u != t :: s'.pcs[u] == s.pcs[u];
    forall u: Tid | u < |s.pcs|
      ensures WaiterOk(s', u)
    {
      assert WaiterOk(s, u);
    }
  }

  lemma TryLock<T>(s: State<T>, t: Tid, call: Purpose<T>)
    requires Inv(s) && CanStep(s, t, call) && s.pcs[t].Want?
    ensures Inv(Step(s, t, call))
  {
    hide Legal, Replayed;
    var s' := Step(s, t, call);
    assert Signalled(s') == Signalled(s);
    if s.lock.value == 0 {
      AppendKeepsDistinct(s.lock.queue, t);
      assert Holders(s') == Holders(s);
    } else {
      assert Holders(s) == {};
      assert Holders(s') == {t};
    }
    forall u: Tid | u < |s.pcs|
      ensures WaiterOk(s', u)
    {
      assert WaiterOk(s, u);
    }
  }

  /** How far the wakeups in flight run ahead of the items in the list. */
  function Slack<T>(pc: Pc<T>, size: int): int {
    (if pc.Signalling? then 1 else 0) + (if Rechecking(pc) then 1 else 0) - size
  }

  /** A step of the holder that stays inside and touches neither queue nor any semaphore. */
  lemma MoveInside<T>(s: State<T>, t: Tid, pc: Pc<T>, s': State<T>)
    requires Inv(s) && t < |s.pcs| && (Inside(s.pcs[t]) || s.pcs[t].Got?) && Inside(pc)
    requires s' == s.(list := s'.list, lockHolder := Some(t), log := s'.log, pcs := s.pcs[t := pc])
    requires !InWait(s.pcs[t]) && !InWait(pc) && !s.pcs[t].Waking? && !pc.Waking? && ContentsOk(s')
    requires s.waitQueue != [] && s'.list != [] ==> Slack(s.pcs[t], |s.list|) <= Slack(pc, |s'.list|)
    ensures Inv(s')
  {
    hide Legal, Replayed;
    OnlyHolder(s, t);
    assert s'.pcs[t] == pc;
    assert Holders(s') == {t};
    assert Signalled(s') == if Rechecking(pc) then Signalled(s) + {t} else Signalled(s) - {t};
    forall u: Tid | u < |s.pcs|
      ensures WaiterOk(s', u)
    {
      assert WaiterOk(s, u);
    }
  }

  /** A step of the holder on the list itself, which an atomic queue can follow. */
  lemma StepOnList<T>(s: State<T>, t: Tid, pc: Pc<T>, e: Event<T>, s': State<T>)
    requires Inv(s) && t < |s.pcs| && (s.pcs[t].Appending? || s.pcs[t].Removing? || s.pcs[t].Checking?)
    requires CanFollow(s.list, e) && (e.Appended? <==> s.pcs[t].Appending?)
    requires pc == if e.Appended? then Signalling else Releasing(Finish)
    requires s' == s.(list := QueueAfter(s.list, e), log := s.log + [e], pcs := s.pcs[t := pc])
    ensures Inv(s')
  {
    hide Replayed, Legal, WaitersOk, QueuesOk, Lists.WithoutFirst;
    OnlyHolder(s, t);
    LegalSnoc(s.log, e);
    if e.Removed? { WithoutFirstCounts(s.list, e.item); }
    MoveInside(s, t, pc, s');
  }

  lemma StepInside<T>(s: State<T>, t: Tid, call: Purpose<T>)
    requires Inv(s) && CanStep(s, t, call)
    requires s.pcs[t].Got? || s.pcs[t].Appending? || s.pcs[t].Removing? || s.pcs[t].Checking? || (s.pcs[t].Signalling? && s.waitQueue == [])
    ensures Inv(Step(s, t, call))
  {
    hide Replayed, Legal, WaitersOk, ListLive, Lists.WithoutFirst;
    var s' := Step(s, t, call);
    var pc := s.pcs[t];
    if pc.Appending? {
      StepOnList(s, t, Signalling, Appended(pc.item), s');
    } else if pc.Removing? {
      StepOnList(s, t, Releasing(Finish), Removed(pc.item), s');
    } else if pc.Checking? && s.list != [] {
      StepOnList(s, t, Releasing(Finish), RemovedFront(s.list[0]), s');
    } else {
      OnlyHolder(s, t);
      MoveInside(s, t, s'.pcs[t], s');
    }
  }

  lemma Dequeue<T>(s: State<T>, t: Tid, s': State<T>)
    requires Inv(s) && t < |s.pcs| && s.pcs[t].Signalling? && s.waitQueue != []
    requires s' == s.(waitQueue := s.waitQueue[1..], pcs := s.pcs[t := Waking(s.waitQueue[0])])
    ensures Inv(s')
  {
    hide Legal, Replayed;
    OnlyHolder(s, t);
    DropFrontKeepsDistinct(s.waitQueue);
    DequeueWaiters(s, t, s.waitQueue[0], s');
    assert s.waitQueue[0] in s.waitQueue;
    hide WaitersOk, ListLive, InWait, Rechecking;
    assert Holders(s') == {t};
  }

  lemma DequeueWaiters<T>(s: State<T>, t: Tid, w: Tid, s': State<T>)
    requires QueuesOk(s) && LockOk(s) && WaitersOk(s) && ListLive(s)
    requires t < |s.pcs| && s.pcs[t].Signalling? && s.waitQueue != [] && w == s.waitQueue[0]
    requires s' == s.(waitQueue := s.waitQueue[1..], pcs := s.pcs[t := Waking(w)])
    ensures WaitersOk(s') && ListLive(s')
  {
    DropFrontKeepsDistinct(s.waitQueue);
    assert w in s.waitQueue && WaiterOk(s, w) && w != t;
    assert Signalled(s') == Signalled(s) + {w};
    forall u: Tid | u < |s.pcs|
      ensures WaiterOk(s', u)
    {
      assert WaiterOk(s, u);
    }
  }

  lemma Wake<T>(s: State<T>, t: Tid, call: Purpose<T>)
    requires Inv(s) && CanStep(s, t, call) && s.pcs[t].Waking?
    ensures Inv(Step(s, t, call))
  {
    hide Legal, Replayed;
    var s', w := Step(s, t, call), s.pcs[t].waiter;
    OnlyHolder(s, t);
    assert BeingWoken(s, w) && WaiterOk(s, w);
    assert Holders(s') == {t};
    assert Signalled(s') == Signalled(s);
    forall u: Tid | u < |s.pcs|
      ensures WaiterOk(s', u)
    {
      assert WaiterOk(s, u);
    }
  }

  lemma Enqueue<T>(s: State<T>, t: Tid, call: Purpose<T>)
    requires Inv(s) && CanStep(s, t, call) && s.pcs[t].Enqueueing?
    ensures Inv(Step(s, t, call))
  {
    hide Legal, Replayed;
    var s' := Step(s, t, call);
    OnlyHolder(s, t);
    assert WaiterOk(s, t);
    AppendKeepsDistinct(s.waitQueue, t);
    assert Holders(s') == {t};
    forall u: Tid | u < |s.pcs|
      ensures WaiterOk(s', u)
    {
      assert WaiterOk(s, u);
    }
  }

  lemma LeaveMonitor<T>(s: State<T>, t: Tid, call: Purpose<T>)
    requires Inv(s) && CanStep(s, t, call) && s.pcs[t].Releasing?
    ensures Inv(Step(s, t, call))
  {
    hide Legal, Replayed;
    var s' := Step(s, t, call);
    OnlyHolder(s, t);
    assert s'.pcs[t].Freeing?;
    assert Holders(s') == {t};
    assert Signalled(s') == Signalled(s);
    forall u: Tid | u < |s.pcs|
      ensures WaiterOk(s', u)
    {
      assert WaiterOk(s, u);
    }
  }

  /** `t` gives the lock back while nobody sleeps on it. */
  lemma FreeLockAlone<T>(s: State<T>, t: Tid, pc: Pc<T>, s': State<T>)
    requires Inv(s) && t < |s.pcs| && s.pcs[t].Freeing? && s.lock.queue == []
    requires pc == if s.pcs[t].after == Finish then Idle else WaitP
    requires s' == s.(lock := Sem(s.lock.value + 1, []), pcs := s.pcs[t := pc])
    ensures Inv(s')
  {
    hide Legal, Replayed;
    OnlyHolder(s, t);
    assert Holders(s') == {};
    assert Signalled(s') == Signalled(s);
    forall u: Tid | u < |s.pcs|
      ensures WaiterOk(s', u)
    {
      assert WaiterOk(s, u);
    }
  }

  /** `t` gives the lock back and readies the first sleeper `u`. */
  lemma FreeLockAndReady<T>(s: State<T>, t: Tid, u: Tid, pc: Pc<T>, s': State<T>)
    requires Inv(s) && t < |s.pcs| && s.pcs[t].Freeing? && s.lock.queue != [] && u == s.lock.queue[0]
    requires u < |s.pcs| && s.pcs[u].LockSleep? && pc == if s.pcs[t].after == Finish then Idle else WaitP
    requires s' == s.(lock := Sem(s.lock.value + 1, s.lock.queue[1..]),
                      pcs := s.pcs[u := Want(s.pcs[u].purpose, true)][t := pc])
    ensures Inv(s')
  {
    hide Legal, Replayed;
    OnlyHolder(s, t);
    DropFrontKeepsDistinct(s.lock.queue);
    ReadyKeepsWaiters(s, t, u, pc, s');
    assert s'.pcs[u] == Want(s.pcs[u].purpose, true);
    hide WaitersOk, ListLive, InWait, Rechecking;
    assert Holders(s') == {};
  }

  lemma ReadyKeepsWaiters<T>(s: State<T>, t: Tid, u: Tid, pc: Pc<T>, s': State<T>)
    requires |s.waiters| == |s.pcs| && LockOk(s) && WaitersOk(s) && ListLive(s) && t < |s.pcs| && s.pcs[t].Freeing?
    requires u < |s.pcs| && s.pcs[u].LockSleep? && pc == if s.pcs[t].after == Finish then Idle else WaitP
    requires s' == s.(lock := s'.lock, pcs := s.pcs[u := Want(s.pcs[u].purpose, true)][t := pc])
    ensures WaitersOk(s') && ListLive(s')
  {
    assert Signalled(s') == Signalled(s);
    forall v: Tid | v < |s.pcs|
      ensures WaiterOk(s', v)
    {
      assert WaiterOk(s, v);
    }
  }

  lemma WaitForSignal<T>(s: State<T>, t: Tid, call: Purpose<T>)
    requires Inv(s) && CanStep(s, t, call) && s.pcs[t].WaitP?
    ensures Inv(Step(s, t, call))
  {
    hide Legal, Replayed;
    var s' := Step(s, t, call);
    assert forall u: Tid | u < |s.pcs| && u != t :: s'.pcs[u] == s.pcs[u];
    assert WaiterOk(s, t);
    assert Holders(s') == Holders(s);
    assert Signalled(s') == Signalled(s);
    forall u: Tid | u < |s.pcs|
      ensures WaiterOk(s', u)
    {
      assert WaiterOk(s, u);
    }
  }

  lemma StepKeepsInv<T>(s: State<T>, t: Tid, call: Purpose<T>)
    requires Inv(s) && CanStep(s, t, call)
    ensures Inv(Step(s, t, call)) && AssertsHold(s, t)
  {
    var queue := s.lock.queue;
    assert queue != [] ==> queue[0] in queue && s.pcs[queue[0]].LockSleep?;
    hide Inv;
    match s.pcs[t]
    case Idle =>
      assert Inv(s);
      MoveFree(s, t, Want(call, false));
    case Want(_, _) => TryLock(s, t, call);
    case Got(_) => StepInside(s, t, call);
    case Appending(_) => StepInside(s, t, call);
    case Removing(_) => StepInside(s, t, call);
    case Checking(_) => StepInside(s, t, call);
    case Signalling => if s.waitQueue == [] { StepInside(s, t, call); } else { Dequeue(s, t, Step(s, t, call)); }
    case Waking(_) => Wake(s, t, call);
    case Enqueueing => Enqueue(s, t, call);
    case Releasing(_) => LeaveMonitor(s, t, call);
    case Freeing(a) =>
      var pc: Pc<T> := if a == Finish then Idle else WaitP;
      if queue == [] {
        FreeLockAlone(s, t, pc, Step(s, t, call));
      } else {
        FreeLockAndReady(s, t, queue[0], pc, Step(s, t, call));
      }
    case WaitP => WaitForSignal(s, t, call);
  }

  ghost predicate Next<T(!new)>(s: State<T>, s': State<T>) {
    exists t: Tid, call: Purpose<T> :: CanStep(s, t, call) && s' == Step(s, t, call)
  }

  ghost predicate IsRun<T(!new)>(run: seq<State<T>>) {
    |run| > 0 && Init(run[0]) && forall i | 0 <= i < |run| - 1 :: Next(run[i], run[i + 1])
  }

  lemma InitHasInv<T>(s: State<T>)
    requires Init(s)
    ensures Inv(s)
  {
    assert Holders(s) == {};
  }

  /** Every state of every run, with any number of producers and consumers, satisfies the invariant. */
  lemma {:induction false} RunKeepsInv<T(!new)>(run: seq<State<T>>, i: nat)
    requires IsRun(run) && i < |run|
    ensures Inv(run[i])
  {
    if i == 0 {
      InitHasInv(run[0]);
    } else {
      RunKeepsInv(run, i - 1);
      assert Next(run[i - 1], run[i - 1 + 1]);
      var t: Tid, call: Purpose<T> :| CanStep(run[i - 1], t, call) && run[i] == Step(run[i - 1], t, call);
      StepKeepsInv(run[i - 1], t, call);
    }
  }

  /** Mutual exclusion, first-in-first-out delivery, no lost wakeup and no failing ASSERT, in every state of every run. */
  lemma Safety<T(!new)>(run: seq<State<T>>, i: nat)
    requires IsRun(run) && i < |run|
    ensures var s := run[i];
      && s.list == Replayed(s.log) && Legal(s.log)
      && multiset(Put(s.log)) == multiset(Taken(s.log)) + Picked(s.log) + multiset(s.list)
      && ((forall e <- s.log :: !e.Removed?) ==> Put(s.log) == Taken(s.log) + s.list)
      && s.lock.value + |Holders(s)| == 1
      && (forall t: Tid, u: Tid | t < u < |s.pcs| :: !(Holds(s.pcs[t]) && Holds(s.pcs[u])))
      && (forall t: Tid | t < |s.pcs| :: AssertsHold(s, t))
      && (s.waitQueue != [] ==> |s.list| <= |Signalled(s)| + if SignalPending(s) then 1 else 0)
  {
    var s := run[i];
    RunKeepsInv(run, i);
    NothingLost(s.log);
    if forall e <- s.log :: !e.Removed? { FirstInFirstOut(s.log); }
    hide Replayed, Legal, Put, Taken, Picked;
    forall t: Tid, u: Tid | t < u < |s.pcs|
      ensures !(Holds(s.pcs[t]) && Holds(s.pcs[u]))
    {
      if Holds(s.pcs[t]) { OnlyHolder(s, t); }
    }
  }

  /** A runnable thread can take its next step, unless it is to remove an item that is not there exactly once. */
  lemma NeverUndefined<T(!new)>(run: seq<State<T>>, i: nat, t: Tid, call: Purpose<T>)
    requires IsRun(run) && i < |run| && t < |run[i].pcs| && Runnable(run[i].pcs[t]) && !call.ToRecheck?
    ensures CanStep(run[i], t, call) <==> RemoveHolds(run[i], t)
  {
    RunKeepsInv(run, i);
  }

  /**
   * When nothing can move but idle threads, nobody is stuck on the lock, and a consumer sleeps only because
   * the list is empty.
   */
  lemma NobodyStuck<T(!new)>(run: seq<State<T>>, i: nat)
    requires IsRun(run) && i < |run|
    requires forall t: Tid | t < |run[i].pcs| :: run[i].pcs[t].Idle? || !Runnable(run[i].pcs[t])
    ensures forall t: Tid | t < |run[i].pcs| :: !run[i].pcs[t].LockSleep?
    ensures (exists t: Tid :: t < |run[i].pcs| && run[i].pcs[t].WaitSleep?) ==> run[i].list == []
  {
    var s := run[i];
    RunKeepsInv(run, i);
    assert Holders(s) == {};
    assert s.lock.queue == [];
    if t: Tid :| t < |s.pcs| && s.pcs[t].WaitSleep? {
      assert s.lockHolder == None;
      forall u: Tid | u < |s.pcs| && s.pcs[u].WaitSleep?
        ensures u in s.waitQueue
      {
        assert WaiterOk(s, u);
      }
      assert Signalled(s) == {};
    }
  }

  // The queues of the lock and of the condition.

  predicate SleepsOnLock<T>(s: State<T>, s': State<T>, t: Tid) {
    t < |s.pcs| == |s'.pcs| && !s.pcs[t].LockSleep? && s'.pcs[t].LockSleep?
  }

  predicate LeavesLockSleep<T>(s: State<T>, s': State<T>, t: Tid) {
    t < |s.pcs| == |s'.pcs| && s.pcs[t].LockSleep? && !s'.pcs[t].LockSleep?
  }

  /** The thread has found the list empty and made the semaphore it is going to sleep on. */
  predicate StartsToWait<T>(s: State<T>, s': State<T>, t: Tid) {
    t < |s.pcs| == |s'.pcs| && s.pcs[t].Enqueueing? && !s'.pcs[t].Enqueueing?
  }

  /** Somebody's `Signal` is for the thread. */
  predicate IsPicked<T>(s: State<T>, s': State<T>, t: Tid) {
    exists u: Tid :: u < |s.pcs| && u < |s'.pcs| && s.pcs[u].Signalling? && s'.pcs[u] == Waking(t)
  }

  lemma WokenWaits<T>(s: State<T>, t: Tid)
    requires Inv(s) && t < |s.pcs| && s.pcs[t].Waking?
    ensures s.pcs[t].waiter < |s.pcs| && InWait(s.pcs[s.pcs[t].waiter])
  {
    hide Legal, Replayed;
    assert BeingWoken(s, s.pcs[t].waiter) && WaiterOk(s, s.pcs[t].waiter);
  }

  lemma StepOnLockQueue<T>(s: State<T>, t: Tid, call: Purpose<T>)
    requires Inv(s) && CanStep(s, t, call)
    ensures QueueStep(s, Step(s, t, call), s.lock.queue, Step(s, t, call).lock.queue, SleepsOnLock, LeavesLockSleep)
  {
    hide LockOk, LockLive, WaitersOk, ListLive, ContentsOk;
    if s.pcs[t].Waking? { WokenWaits(s, t); }
    var s' := Step(s, t, call);
    if s.pcs[t].Want? && s.lock.value == 0 {
      assert s'.lock.queue == s.lock.queue + [t] && forall u: Tid :: SleepsOnLock(s, s', u) <==> u == t;
    } else if s.pcs[t].Freeing? && s.lock.queue != [] {
      assert s.lock.queue[0] in s.lock.queue;
      assert forall u: Tid :: LeavesLockSleep(s, s', u) <==> u == s.lock.queue[0];
    }
  }

  lemma StepOnWaitQueue<T>(s: State<T>, t: Tid, call: Purpose<T>)
    requires Inv(s) && CanStep(s, t, call)
    ensures QueueStep(s, Step(s, t, call), s.waitQueue, Step(s, t, call).waitQueue, StartsToWait, IsPicked)
  {
    hide LockOk, LockLive, WaitersOk, ListLive, ContentsOk;
    if s.pcs[t].Waking? { WokenWaits(s, t); }
    var s' := Step(s, t, call);
    if s.pcs[t].Enqueueing? {
      assert s'.waitQueue == s.waitQueue + [t] && forall u: Tid :: StartsToWait(s, s', u) <==> u == t;
    } else if s.pcs[t].Signalling? && s.waitQueue != [] {
      assert s'.pcs[t] == Waking(s.waitQueue[0]);
      assert forall u: Tid :: IsPicked(s, s', u) <==> u == s.waitQueue[0];
    }
  }

  /** The lock is first come, first readied; and consumers are signalled in the order in which they found the list empty. */
  lemma ServedInOrder<T(!new)>(run: seq<State<T>>, i: nat)
    requires IsRun(run) && i < |run|
    ensures Log(run, SleepsOnLock, i) == Log(run, LeavesLockSleep, i) + run[i].lock.queue
    ensures Log(run, StartsToWait, i) == Log(run, IsPicked, i) + run[i].waitQueue
  {
    forall k | 0 <= k < |run| - 1
      ensures QueueStep(run[k], run[k + 1], run[k].lock.queue, run[k + 1].lock.queue, SleepsOnLock, LeavesLockSleep)
      ensures QueueStep(run[k], run[k + 1], run[k].waitQueue, run[k + 1].waitQueue, StartsToWait, IsPicked)
    {
      hide Inv, CanStep, Step, QueueStep;
      RunKeepsInv(run, k);
      assert Next(run[k], run[k + 1]);
      var t: Tid, call: Purpose<T> :| CanStep(run[k], t, call) && run[k + 1] == Step(run[k], t, call);
      StepOnLockQueue(run[k], t, call);
      StepOnWaitQueue(run[k], t, call);
    }
    hide Inv, CanStep, Step, QueueStep;
    ThreadIds.FirstInFirstOut(run, (s: State<T>) => s.lock.queue, SleepsOnLock, LeavesLockSleep, i);
    ThreadIds.FirstInFirstOut(run, (s: State<T>) => s.waitQueue, StartsToWait, IsPicked, i);
  }
}
