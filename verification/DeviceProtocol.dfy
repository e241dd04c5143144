/**
 * How the kernel drives a device that takes one request at a time (code/filesys/synchdisk.cc, code/network/post.cc):
 * a lock around the device, a semaphore that the device's interrupt signals, and any number of threads.
 */
module DeviceProtocols {
  import opened ThreadIds
  import opened Semaphores

  /** Program counters; a thread may be switched out at every one of them, and the device may interrupt. */
  datatype Pc<R> =
    | Idle
    | Want(request: R, woken: bool)  // about to make a pass of the lock's P
    | LockSleep(request: R)
    | Issuing(request: R)            // holds the lock, about to send the request to the device
    | WaitP                          // about to make a pass of P on the device's semaphore
    | WaitSleep
    | Releasing                      // about to V the lock

  /** `active`: the device has a request to finish, and an interrupt to deliver. */
  datatype Device<R> = Device(lock: Sem, semaphore: Sem, active: bool, pcs: seq<Pc<R>>)

  predicate Holds<R>(pc: Pc<R>) {
    pc.Issuing? || pc.WaitP? || pc.WaitSleep? || pc.Releasing?
  }

  predicate Runnable<R>(pc: Pc<R>) {
    !pc.LockSleep? && !pc.WaitSleep?
  }

  predicate CanStep<R>(s: Device<R>, t: Tid) {
    t < |s.pcs| && Runnable(s.pcs[t]) && forall u <- s.lock.queue :: u < |s.pcs|
  }

  function At<R>(s: Device<R>, t: Tid, pc: Pc<R>): Device<R>
    requires t < |s.pcs|
  {
    s.(pcs := s.pcs[t := pc])
  }

  /** A step of thread `t`: an idle thread starts on `request`; an issuing one needs the device only if `sends`. */
  function Step<R>(s: Device<R>, t: Tid, request: R, sends: bool): Device<R>
    requires CanStep(s, t)
  {
    match s.pcs[t]
    case Idle => At(s, t, Want(request, false))
    case Want(q, _) => At(s.(lock := Attempt(s.lock, t)), t, if s.lock.value == 0 then LockSleep(q) else Issuing(q))
    case Issuing(q) => if sends then At(s.(active := true), t, WaitP) else At(s, t, Releasing)
    case WaitP => At(s.(semaphore := Attempt(s.semaphore, t)), t, if s.semaphore.value == 0 then WaitSleep else Releasing)
    case Releasing =>
      var pcs :=
        if s.lock.queue == [] then s.pcs
        else
          var u := s.lock.queue[0];
          assert u in s.lock.queue;
          if s.pcs[u].LockSleep? then s.pcs[u := Want(s.pcs[u].request, true)] else s.pcs;
      At(s.(lock := Post(s.lock), pcs := pcs), t, Idle)
    case _ => s
  }

  /** The interrupt: the device is free again and the waiting thread is told. */
  function Interrupted<R>(s: Device<R>): Device<R> {
    var q := s.semaphore.queue;
    var pcs := if q != [] && q[0] < |s.pcs| then s.pcs[q[0] := WaitP] else s.pcs;
    s.(active := false, semaphore := Post(s.semaphore), pcs := pcs)
  }

  predicate Init<R>(s: Device<R>) {
    s.lock == Sem(1, []) && s.semaphore == Sem(0, []) && !s.active && forall t: Tid | t < |s.pcs| :: s.pcs[t].Idle?
  }

  // The invariant.

  ghost predicate QueueOk<R>(s: Device<R>) {
    && NoDuplicates(s.lock.queue)
    && (forall t: Tid :: t in s.lock.queue <==> t < |s.pcs| && s.pcs[t].LockSleep?)
  }

  function Holders<R>(s: Device<R>): set<Tid> {
    set t: Tid | t < |s.pcs| && Holds(s.pcs[t])
  }

  ghost predicate LockOk<R>(s: Device<R>) {
    s.lock.value >= 0 && s.lock.value + |Holders(s)| == 1
  }

  ghost predicate LockLive<R>(s: Device<R>) {
    s.lock.queue != [] && s.lock.value > 0 ==> exists t: Tid :: t < |s.pcs| && s.pcs[t].Want? && s.pcs[t].woken
  }

  /** Threads between sending a request and the return of `P`. */
  function Waiting<R>(s: Device<R>): set<Tid> {
    set t: Tid | t < |s.pcs| && (s.pcs[t].WaitP? || s.pcs[t].WaitSleep?)
  }

  /** The semaphore, the device and the waiting thread agree. */
  ghost predicate SignalOk<R>(s: Device<R>) {
    && (Waiting(s) == {} ==> s.semaphore == Sem(0, []) && !s.active)
    && (forall t: Tid | t < |s.pcs| && s.pcs[t].WaitP? :: s.semaphore == Sem(if s.active then 0 else 1, []))
    && (forall t: Tid | t < |s.pcs| && s.pcs[t].WaitSleep? :: s.semaphore == Sem(0, [t]) && s.active)
  }

  ghost predicate Inv<R>(s: Device<R>) {
    QueueOk(s) && LockOk(s) && LockLive(s) && SignalOk(s)
  }

  lemma InitHasInv<R>(s: Device<R>)
    requires Init(s)
    ensures Inv(s)
  {
    assert Holders(s) == {} && Waiting(s) == {};
  }

  lemma OnlyHolder<R>(s: Device<R>, t: Tid)
    requires LockOk(s) && t < |s.pcs| && Holds(s.pcs[t])
    ensures s.lock.value == 0 && Holders(s) == {t}
    ensures forall u: Tid | u < |s.pcs| && u != t :: !Holds(s.pcs[u])
  {
    assert t in Holders(s);
    forall u: Tid | u < |s.pcs| && u != t
      ensures !Holds(s.pcs[u])
    {
      if Holds(s.pcs[u]) {
        SubsetSize({t, u}, Holders(s));
      }
    }
  }

  lemma TryLock<R>(s: Device<R>, t: Tid, r: R, sends: bool)
    requires Inv(s) && CanStep(s, t) && s.pcs[t].Want?
    ensures Inv(Step(s, t, r, sends))
  {
    var s' := Step(s, t, r, sends);
    assert Waiting(s') == Waiting(s);
    if s.lock.value == 0 {
      AppendKeepsDistinct(s.lock.queue, t);
      assert Holders(s') == Holders(s);
    } else {
      assert Holders(s) == {};
      assert Holders(s') == {t};
    }
  }

  lemma Begin<R>(s: Device<R>, t: Tid, r: R, sends: bool)
    requires Inv(s) && CanStep(s, t) && s.pcs[t].Idle?
    ensures Inv(Step(s, t, r, sends))
  {
    var s' := Step(s, t, r, sends);
    assert Waiting(s') == Waiting(s) && Holders(s') == Holders(s);
    assert forall u: Tid | u < |s.pcs| && u != t :: s'.pcs[u] == s.pcs[u];
  }

  lemma Issue<R>(s: Device<R>, t: Tid, r: R, sends: bool)
    requires Inv(s) && CanStep(s, t) && s.pcs[t].Issuing?
    ensures Inv(Step(s, t, r, sends)) && !s.active && Waiting(s) == {}
  {
    var s' := Step(s, t, r, sends);
    OnlyHolder(s, t);
    assert Waiting(s) == {} && Holders(s') == {t};
    assert s'.pcs[t].WaitP? ==> t in Waiting(s');
    assert !s'.pcs[t].WaitP? ==> Waiting(s') == {};
  }

  lemma AwaitDevice<R>(s: Device<R>, t: Tid, r: R, sends: bool)
    requires Inv(s) && CanStep(s, t) && s.pcs[t].WaitP?
    ensures Inv(Step(s, t, r, sends))
  {
    var s' := Step(s, t, r, sends);
    OnlyHolder(s, t);
    assert Holders(s') == {t};
    assert Waiting(s') == if s'.pcs[t].WaitSleep? then {t} else {};
  }

  lemma Release<R>(s: Device<R>, t: Tid, r: R, sends: bool)
    requires Inv(s) && CanStep(s, t) && s.pcs[t].Releasing?
    ensures Inv(Step(s, t, r, sends))
  {
    var s', queue := Step(s, t, r, sends), s.lock.queue;
    OnlyHolder(s, t);
    if queue != [] {
      assert queue[0] in queue;
      DropFrontKeepsDistinct(queue);
      assert s'.pcs[queue[0]].Want? && s'.pcs[queue[0]].woken;
    }
    assert Holders(s') == {} && Waiting(s') == {} && Waiting(s) == {};
  }

  /** The interrupt wakes the thread that waits for it, if that already sleeps. */
  lemma InterruptKeepsInv<R>(s: Device<R>)
    requires Inv(s) && s.active
    ensures Inv(Interrupted(s))
  {
    var s' := Interrupted(s);
    assert Waiting(s) != {};
    var t :| t in Waiting(s);
    OnlyHolder(s, t);
    assert Holders(s') == {t} && Waiting(s') == {t};
  }

  /** Every step keeps the invariant, and a request finds the device free. */
  lemma StepKeepsInv<R>(s: Device<R>, t: Tid, r: R, sends: bool)
    requires Inv(s) && CanStep(s, t)
    ensures Inv(Step(s, t, r, sends)) && (s.pcs[t].Issuing? ==> !s.active)
  {
    hide Inv;
    match s.pcs[t]
    case Idle => Begin(s, t, r, sends);
    case Want(_, _) => TryLock(s, t, r, sends);
    case Issuing(_) => Issue(s, t, r, sends);
    case WaitP => AwaitDevice(s, t, r, sends);
    case Releasing => Release(s, t, r, sends);
  }

  /** The semaphore's value and the device's request make up the one request that can be out. */
  lemma OneRequest<R>(s: Device<R>)
    requires Inv(s)
    ensures s.semaphore.value + (if s.active then 1 else 0) == |Waiting(s)| <= 1
  {
    if Waiting(s) != {} {
      var t :| t in Waiting(s);
      OnlyHolder(s, t);
      assert Waiting(s) == {t};
    }
  }

  /** When no thread that is in the middle of an operation can move and no interrupt is due, no thread is in one. */
  lemma NobodyStuck<R>(s: Device<R>)
    requires Inv(s) && !s.active
    requires forall t: Tid | t < |s.pcs| :: s.pcs[t].Idle? || !Runnable(s.pcs[t])
    ensures forall t: Tid | t < |s.pcs| :: s.pcs[t].Idle?
  {
    assert Holders(s) == {};
    assert s.lock.queue == [];
  }
}
