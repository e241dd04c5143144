/** code/threads/scheduler.cc, code/threads/thread.cc: where every thread is, and who runs next. */
module Schedulers {
  import opened ThreadIds
  import opened Wrappers
  import opened SortedSeqs

  datatype ThreadStatus = Ready | Running | Blocked | Zombie

  /** `Arriving`: switched to, but the old thread's remains not yet looked at. `Idling`: in the idle loop of `Sleep`. */
  datatype Cpu = Executing | Arriving | Idling(finishing: bool)

  /** The keys of `status` are the threads that have run or been forked and are not yet deleted. */
  datatype State = State(
    current: Tid, cpu: Cpu, ready: seq<Tid>,
    queues: seq<seq<Tid>>,  // the queues of all semaphores
    toBeDestroyed: Option<Tid>, status: map<Tid, ThreadStatus>, priority: Tid -> int)

  function ThreadPriorityCompare(priority: Tid -> int): (Tid, Tid) -> int {
    (x: Tid, y: Tid) => if priority(x) < priority(y) then -1 else if priority(x) > priority(y) then 1 else 0
  }

  function Readied(s: State, t: Tid): State {
    s.(status := s.status[t := Ready], ready := Inserted(s.ready, t, ThreadPriorityCompare(s.priority)))
  }

  /** `Run`, up to the switch. */
  function Switched(s: State, next: Tid, finishing: bool): State {
    s.(toBeDestroyed := if finishing then Some(s.current) else s.toBeDestroyed,
       current := next, status := s.status[next := Running], cpu := Arriving)
  }

  function Dispatched(s: State, finishing: bool): State
    requires s.ready != []
  {
    Switched(s.(ready := s.ready[1..]), s.ready[0], finishing)
  }

  /** `CheckToBeDestroyed`, the first thing a thread does when it is switched to. */
  function Arrived(s: State): State {
    var status := if s.toBeDestroyed.Some? then s.status - {s.toBeDestroyed.value} else s.status;
    s.(cpu := Executing, toBeDestroyed := None, status := status)
  }

  function Yielded(s: State): State {
    if s.ready == [] then s
    else Switched(Readied(s.(ready := s.ready[1..]), s.current), s.ready[0], false)
  }

  /** `Fork` of a new thread `t`: it becomes ready and the parent yields. */
  function Forked(s: State, t: Tid): State {
    Yielded(Readied(s, t))
  }

  function Slept(s: State, finishing: bool): State {
    if s.ready == [] then s.(cpu := Idling(finishing)) else Dispatched(s, finishing)
  }

  /** What `P` does on value 0: the thread queues up and sleeps. */
  function BlockedOn(s: State, i: nat): State
    requires i < |s.queues|
  {
    Slept(s.(queues := s.queues[i := s.queues[i] + [s.current]], status := s.status[s.current := Blocked]), false)
  }

  /** What `V` does to the threads. */
  function Awoken(s: State, i: nat): State
    requires i < |s.queues|
  {
    if s.queues[i] == [] then s
    else Readied(s.(queues := s.queues[i := s.queues[i][1..]]), s.queues[i][0])
  }

  function Finished(s: State): State {
    Slept(s.(status := s.status[s.current := Zombie]), true)
  }

  datatype Action = AArrive | AYield | AFork(t: Tid) | ABlock(i: nat) | AWake(i: nat) | AFinish | AEndIdle | ASetPriority(p: int)

  /** A `V` may come from the running thread or, at any moment with interrupts on or idle, from a device handler. */
  predicate Enabled(s: State, a: Action) {
    match a
    case AArrive => s.cpu == Arriving
    case AYield => s.cpu == Executing
    case AFork(t) => s.cpu == Executing && t !in s.status
    case ABlock(i) => s.cpu == Executing && i < |s.queues|
    case AWake(i) => s.cpu != Arriving && i < |s.queues|
    case AFinish => s.cpu == Executing
    case AEndIdle => s.cpu.Idling? && s.ready != []
    case ASetPriority(_) => s.cpu == Executing
  }

  function Step(s: State, a: Action): State
    requires Enabled(s, a)
  {
    match a
    case AArrive => Arrived(s)
    case AYield => Yielded(s)
    case AFork(t) => Forked(s, t)
    case ABlock(i) => BlockedOn(s, i)
    case AWake(i) => Awoken(s, i)
    case AFinish => Finished(s)
    case AEndIdle => Dispatched(s, s.cpu.finishing)
    case ASetPriority(p) => s.(priority := (x: Tid) => if x == s.current then p else s.priority(x))
  }

  /** The ASSERTs on the way of a step: no duplicate on the ready list, room for one zombie, no suicide. */
  predicate AssertsHold(s: State, a: Action)
    requires Enabled(s, a)
  {
    match a
    case AArrive => s.toBeDestroyed != Some(s.current)
    case AYield => s.ready != [] ==> s.current !in s.ready[1..]
    case AFork(t) => t !in s.ready && s.current !in Readied(s, t).ready[1..]
    case AWake(i) => s.queues[i] != [] ==> s.queues[i][0] !in s.ready
    case AFinish => s.toBeDestroyed == None
    case AEndIdle => s.cpu.finishing ==> s.toBeDestroyed == None
    case _ => true
  }

  // The invariant.

  /** How often `t` waits in the queues of semaphores. */
  function Waits(queues: seq<seq<Tid>>, t: Tid): nat {
    if queues == [] then 0 else Waits(queues[..|queues| - 1], t) + multiset(queues[|queues| - 1])[t]
  }

  lemma {:induction false} WaitsUpdate(queues: seq<seq<Tid>>, i: nat, q: seq<Tid>, t: Tid)
    requires i < |queues|
    ensures Waits(queues[i := q], t) == Waits(queues, t) - multiset(queues[i])[t] + multiset(q)[t]
  {
    var n := |queues| - 1;
    if i == n {
      assert queues[i := q][..n] == queues[..n];
    } else {
      WaitsUpdate(queues[..n], i, q, t);
      assert queues[i := q][..n] == queues[..n][i := q];
    }
  }

  lemma CountFront(s: seq<Tid>, t: Tid)
    requires s != []
    ensures multiset(s)[t] == multiset(s[1..])[t] + One(t == s[0])
  {
    assert s == [s[0]] + s[1..];
  }

  lemma CountReady(s: State, x: Tid, t: Tid)
    ensures multiset(Readied(s, x).ready)[t] == multiset(s.ready)[t] + One(t == x)
  {
    InsertedMultiset(s.ready, x, ThreadPriorityCompare(s.priority));
  }

  /** In how many places `t` is: on the processor, on the ready list, in a semaphore's queue, waiting to be deleted. */
  function Places(s: State, t: Tid): nat {
    One(s.cpu != Idling(false) && s.current == t) + multiset(s.ready)[t] + Waits(s.queues, t) + One(s.toBeDestroyed == Some(t))
  }

  predicate ThreadOk(s: State, t: Tid) {
    && Places(s, t) == One(t in s.status)
    && (t in s.ready ==> t in s.status && s.status[t] == Ready)
    && (Waits(s.queues, t) > 0 ==> t in s.status && s.status[t] == Blocked)
    && (s.cpu != Idling(false) && s.current == t ==> t in s.status && s.status[t] == if s.cpu.Idling? then Zombie else Running)
    && (s.toBeDestroyed == Some(t) ==> t in s.status && s.status[t] == Zombie)
  }

  /** The more urgent a thread, the smaller its number; nobody stands in front of a more urgent thread. */
  ghost predicate ReadySorted(s: State) {
    forall i, j | 0 <= i < j < |s.ready| :: s.priority(s.ready[i]) <= s.priority(s.ready[j])
  }

  /** Every living thread is in exactly one place, with the matching status, and no other thread is anywhere. */
  ghost predicate Inv(s: State) {
    && (forall t: Tid :: ThreadOk(s, t))
    && (s.toBeDestroyed.Some? ==> s.cpu == Arriving)
    && ReadySorted(s)
  }

  predicate Init(s: State) {
    && s.cpu == Executing && s.ready == [] && s.toBeDestroyed == None && s.status == map[s.current := Running]
    && forall i | 0 <= i < |s.queues| :: s.queues[i] == []
  }

  lemma {:induction false} NobodyWaits(queues: seq<seq<Tid>>, t: Tid)
    requires forall i | 0 <= i < |queues| :: queues[i] == []
    ensures Waits(queues, t) == 0
  {
    if queues != [] {
      NobodyWaits(queues[..|queues| - 1], t);
    }
  }

  lemma InitHasInv(s: State)
    requires Init(s)
    ensures Inv(s)
  {
    forall t: Tid
      ensures ThreadOk(s, t)
    {
      NobodyWaits(s.queues, t);
    }
  }

  lemma CompareIsOrder(priority: Tid -> int)
    ensures IsOrder(ThreadPriorityCompare(priority))
  {
  }

  lemma SortedAfterReady(s: State, t: Tid)
    requires ReadySorted(s)
    ensures ReadySorted(Readied(s, t))
  {
    hide Inserted;
    var compare := ThreadPriorityCompare(s.priority);
    CompareIsOrder(s.priority);
    InsertedSorted(s.ready, t, compare);
    var ready := Readied(s, t).ready;
    forall i, j | 0 <= i < j < |ready|
      ensures s.priority(ready[i]) <= s.priority(ready[j])
    {
      assert compare(ready[i], ready[j]) <= 0;
    }
  }

  lemma ArriveKeepsInv(s: State)
    requires Inv(s) && s.cpu == Arriving
    ensures Inv(Arrived(s)) && AssertsHold(s, AArrive)
  {
    hide Waits;
    assert ThreadOk(s, s.current);
    forall t: Tid
      ensures ThreadOk(Arrived(s), t)
    {
      assert ThreadOk(s, t);
    }
  }

  lemma YieldKeepsInv(s: State)
    requires Inv(s) && s.cpu == Executing
    ensures Inv(Yielded(s)) && AssertsHold(s, AYield)
  {
    hide Waits, Inserted;
    assert ThreadOk(s, s.current);
    if s.ready != [] {
      var s1 := s.(ready := s.ready[1..]);
      SortedAfterReady(s1, s.current);
      forall t: Tid
        ensures ThreadOk(Yielded(s), t)
      {
        assert ThreadOk(s, t);
        CountFront(s.ready, t);
        CountReady(s1, s.current, t);
      }
    }
  }

  lemma AdmitKeepsInv(s: State, x: Tid)
    requires Inv(s) && x !in s.status
    ensures Inv(Readied(s, x)) && x !in s.ready
  {
    hide Waits, Inserted;
    assert ThreadOk(s, x);
    SortedAfterReady(s, x);
    forall t: Tid
      ensures ThreadOk(Readied(s, x), t)
    {
      assert ThreadOk(s, t);
      CountReady(s, x, t);
    }
  }

  lemma WakeKeepsInv(s: State, i: nat)
    requires Inv(s) && s.cpu != Arriving && i < |s.queues|
    ensures Inv(Awoken(s, i)) && AssertsHold(s, AWake(i))
  {
    hide Waits, Inserted;
    var q := s.queues[i];
    if q != [] {
      var s1 := s.(queues := s.queues[i := q[1..]]);
      SortedAfterReady(s1, q[0]);
      WaitsUpdate(s.queues, i, q[1..], q[0]);
      CountFront(q, q[0]);
      assert ThreadOk(s, q[0]);
      forall t: Tid
        ensures ThreadOk(Awoken(s, i), t)
      {
        assert ThreadOk(s, t);
        WaitsUpdate(s.queues, i, q[1..], t);
        CountFront(q, t);
        CountReady(s1, q[0], t);
      }
    }
  }

  /** Leaving the idle loop for the front of the ready list. */
  lemma EndIdleKeepsInv(s: State)
    requires Inv(s) && s.cpu.Idling? && s.ready != []
    ensures Inv(Dispatched(s, s.cpu.finishing)) && AssertsHold(s, AEndIdle)
  {
    hide Waits, Inserted;
    assert ThreadOk(s, s.ready[0]);
    forall t: Tid
      ensures ThreadOk(Dispatched(s, s.cpu.finishing), t)
    {
      assert ThreadOk(s, t);
      CountFront(s.ready, t);
    }
  }

  lemma BlockKeepsInv(s: State, i: nat)
    requires Inv(s) && s.cpu == Executing && i < |s.queues|
    ensures Inv(BlockedOn(s, i))
  {
    hide Waits;
    var q := s.queues[i] + [s.current];
    var idle := s.(queues := s.queues[i := q], status := s.status[s.current := Blocked], cpu := Idling(false));
    assert ThreadOk(s, s.current);
    forall t: Tid
      ensures ThreadOk(idle, t)
    {
      assert ThreadOk(s, t);
      WaitsUpdate(s.queues, i, q, t);
    }
    if s.ready != [] {
      EndIdleKeepsInv(idle);
    }
  }

  lemma FinishKeepsInv(s: State)
    requires Inv(s) && s.cpu == Executing
    ensures Inv(Finished(s)) && AssertsHold(s, AFinish)
  {
    hide Waits;
    var idle := s.(status := s.status[s.current := Zombie], cpu := Idling(true));
    assert ThreadOk(s, s.current);
    forall t: Tid
      ensures ThreadOk(idle, t)
    {
      assert ThreadOk(s, t);
    }
    if s.ready != [] {
      EndIdleKeepsInv(idle);
    }
  }

  /** A thread may change its own priority while it runs: the ready list stays sorted. */
  lemma SetPriorityKeepsInv(s: State, p: int)
    requires Inv(s) && s.cpu == Executing
    ensures Inv(Step(s, ASetPriority(p)))
  {
    var s' := Step(s, ASetPriority(p));
    assert ThreadOk(s, s.current);
    forall t: Tid
      ensures ThreadOk(s', t)
    {
      assert ThreadOk(s, t);
    }
    assert forall i | 0 <= i < |s.ready| :: s.ready[i] in s.ready && s'.priority(s.ready[i]) == s.priority(s.ready[i]);
  }

  lemma StepKeepsInv(s: State, a: Action)
    requires Inv(s) && Enabled(s, a)
    ensures Inv(Step(s, a)) && AssertsHold(s, a)
  {
    hide Inv;
    match a
    case AArrive => ArriveKeepsInv(s);
    case AYield => YieldKeepsInv(s);
    case AFork(t) =>
      AdmitKeepsInv(s, t);
      YieldKeepsInv(Readied(s, t));
    case ABlock(i) => BlockKeepsInv(s, i);
    case AWake(i) => WakeKeepsInv(s, i);
    case AFinish => FinishKeepsInv(s);
    case AEndIdle => EndIdleKeepsInv(s);
    case ASetPriority(p) => SetPriorityKeepsInv(s, p);
  }

  /** A run: states, and the actions between them. */
  ghost predicate IsRun(run: seq<State>, actions: seq<Action>) {
    && |run| == |actions| + 1
    && forall i | 0 <= i < |actions| :: Enabled(run[i], actions[i]) && run[i + 1] == Step(run[i], actions[i])
  }

  /** In every state of every run each thread is in exactly one place, and no ASSERT fails. */
  lemma {:induction false} RunKeepsInv(run: seq<State>, actions: seq<Action>, i: nat)
    requires IsRun(run, actions) && i < |run| && Init(run[0])
    ensures Inv(run[i]) && (i < |actions| ==> AssertsHold(run[i], actions[i]))
  {
    hide Inv, Enabled, Step;
    if i == 0 {
      InitHasInv(run[0]);
    } else {
      RunKeepsInv(run, actions, i - 1);
      StepKeepsInv(run[i - 1], actions[i - 1]);
    }
    if i < |actions| {
      StepKeepsInv(run[i], actions[i]);
    }
  }

  /** The kernel object: every method is one section with interrupts off, or a part of one. */
  class Kernel {
    var currentThread: Tid
    var cpu: Cpu
    var readyList: seq<Tid>
    var queues: seq<seq<Tid>>
    var toBeDestroyed: Option<Tid>
    var status: map<Tid, ThreadStatus>
    var priority: Tid -> int

    ghost function Now(): State
      reads this
    {
      State(currentThread, cpu, readyList, queues, toBeDestroyed, status, priority)
    }

    constructor (mainThread: Tid, semaphores: nat, priority: Tid -> int)
      ensures Init(Now()) && currentThread == mainThread && |queues| == semaphores && this.priority == priority
    {
      currentThread, cpu, readyList, toBeDestroyed := mainThread, Executing, [], None;
      queues := seq(semaphores, i => []);
      status := map[mainThread := Running];
      this.priority := priority;
    }

    /** `false` is the failed ASSERT that the thread is not on the list yet. */
    method ReadyToRun(thread: Tid) returns (ok: bool)
      modifies this`status, this`readyList
      ensures ok <==> thread !in old(readyList)
      ensures ok ==> Now() == Readied(old(Now()), thread)
      ensures ok ==> exists k ::
                && 0 <= k <= |old(readyList)| && readyList == old(readyList)[..k] + [thread] + old(readyList)[k..]
                && (forall i | 0 <= i < k :: priority(old(readyList)[i]) <= priority(thread))
                && (k < |old(readyList)| ==> priority(thread) < priority(old(readyList)[k]))
    {
      if thread in readyList {
        return false;
      }
      status := status[thread := Ready];
      ghost var k := Place(readyList, thread, ThreadPriorityCompare(priority));
      readyList := Inserted(readyList, thread, ThreadPriorityCompare(priority));
      assert readyList == old(readyList)[..k] + [thread] + old(readyList)[k..];
      return true;
    }

    method FindNextToRun() returns (next: Option<Tid>)
      modifies this`readyList
      ensures next == Front(old(readyList)) && old(readyList) == (if next.Some? then [next.value] else []) + readyList
      ensures next.None? ==> readyList == []
    {
      if readyList == [] {
        return None;
      }
      next := Some(readyList[0]);
      readyList := readyList[1..];
    }

    /** Up to the switch; `false` is the failed ASSERT that no other thread waits to be deleted. */
    method Run(nextThread: Tid, finishing: bool) returns (ok: bool)
      modifies this`currentThread, this`toBeDestroyed, this`status, this`cpu
      ensures ok <==> !finishing || old(toBeDestroyed) == None
      ensures ok ==> Now() == Switched(old(Now()), nextThread, finishing)
    {
      var oldThread := currentThread;
      if finishing {
        if toBeDestroyed != None {
          return false;
        }
        toBeDestroyed := Some(oldThread);
      }
      currentThread := nextThread;
      status := status[nextThread := Running];
      cpu := Arriving;
      return true;
    }

    /** What the thread that has been switched to does first. */
    method CheckToBeDestroyed()
      requires cpu == Arriving
      modifies this`toBeDestroyed, this`status, this`cpu
      ensures Now() == Arrived(old(Now()))
    {
      if toBeDestroyed.Some? {
        status := status - {toBeDestroyed.value};
        toBeDestroyed := None;
      }
      cpu := Executing;
    }

    method Yield() returns (ok: bool)
      requires Inv(Now()) && cpu == Executing
      modifies this
      ensures ok && Inv(Now()) && Now() == Yielded(old(Now()))
    {
      YieldKeepsInv(Now());
      hide Inv, Inserted;
      ok := true;
      var nextThread := FindNextToRun();
      if nextThread.Some? {
        ok := ReadyToRun(currentThread);
        if !ok {
          return;
        }
        ok := Run(nextThread.value, false);
      }
    }

    method Fork(thread: Tid) returns (ok: bool)
      requires Inv(Now()) && cpu == Executing && thread !in status
      modifies this
      ensures ok && Inv(Now()) && Now() == Forked(old(Now()), thread)
    {
      AdmitKeepsInv(Now(), thread);
      hide Inv, Inserted;
      ok := ReadyToRun(thread);
      if ok {
        ok := Yield();
      }
    }

    /** Up to the switch, or into the idle loop. */
    method Sleep(finishing: bool) returns (ok: bool)
      requires finishing ==> toBeDestroyed == None
      modifies this
      ensures ok && Now() == Slept(old(Now()).(status := if finishing then old(status) else old(status)[old(currentThread) := Blocked]), finishing)
    {
      if !finishing {
        status := status[currentThread := Blocked];
      }
      ok := true;
      var nextThread := FindNextToRun();
      if nextThread.None? {
        cpu := Idling(finishing);
      } else {
        ok := Run(nextThread.value, finishing);
      }
    }

    method Finish() returns (ok: bool)
      requires Inv(Now()) && cpu == Executing
      modifies this
      ensures ok && Inv(Now()) && Now() == Finished(old(Now()))
    {
      FinishKeepsInv(Now());
      hide Inv;
      status := status[currentThread := Zombie];
      ok := Sleep(true);
    }
  }

  // Who goes before whom.

  /** A step that lets a thread leave the ready list for the processor. */
  predicate IsDispatch(s: State, a: Action) {
    (a.AYield? && s.ready != []) || a.AFork? || ((a.ABlock? || a.AFinish?) && s.ready != []) || a.AEndIdle?
  }

  ghost predicate Ahead(q: seq<Tid>, x: Tid, y: Tid) {
    exists i, j :: 0 <= i < j < |q| && q[i] == x && q[j] == y
  }

  lemma InsertKeepsAhead(q: seq<Tid>, k: nat, t: Tid, x: Tid, y: Tid)
    requires k <= |q| && Ahead(q, x, y)
    ensures Ahead(InsertAt(q, k, t), x, y)
  {
    var i, j :| 0 <= i < j < |q| && q[i] == x && q[j] == y;
    var q' := InsertAt(q, k, t);
    assert q'[if i < k then i else i + 1] == x && q'[if j < k then j else j + 1] == y;
  }

  lemma SortedByCompare(s: State)
    requires ReadySorted(s)
    ensures Sorted(s.ready, ThreadPriorityCompare(s.priority))
  {
  }

  /** A thread that becomes ready goes behind those at least as urgent, and in front of the others. */
  lemma GoesBehind(s: State, t: Tid, x: Tid)
    requires ReadySorted(s) && x in s.ready
    ensures if s.priority(x) <= s.priority(t) then Ahead(Readied(s, t).ready, x, t) else Ahead(Readied(s, t).ready, t, x)
  {
    hide IsOrder, Sorted, Place, ReadySorted;
    var compare := ThreadPriorityCompare(s.priority);
    CompareIsOrder(s.priority);
    SortedByCompare(s);
    var i :| 0 <= i < |s.ready| && s.ready[i] == x;
    var k := Place(s.ready, t, compare);
    PlaceSplits(s.ready, t, compare, i);
    var q' := InsertAt(s.ready, k, t);
    assert q'[k] == t && q'[if i < k then i else i + 1] == x;
  }

  lemma ReadyAhead(s: State, t: Tid, x: Tid, y: Tid)
    requires ReadySorted(s) && x in s.ready
    requires if y in s.ready then Ahead(s.ready, x, y) else y == t ==> s.priority(x) <= s.priority(y)
    ensures x in Readied(s, t).ready && (y in Readied(s, t).ready ==> Ahead(Readied(s, t).ready, x, y))
  {
    hide Ahead, Place;
    var k := Place(s.ready, t, ThreadPriorityCompare(s.priority));
    InsertMembers(s.ready, k, t);
    if y in s.ready {
      InsertKeepsAhead(s.ready, k, t, x, y);
    } else if y == t {
      GoesBehind(s, t, x);
    }
  }

  lemma InsertMembers(q: seq<Tid>, k: nat, t: Tid)
    requires k <= |q|
    ensures forall x :: x in InsertAt(q, k, t) <==> x in q || x == t
  {
    var q' := InsertAt(q, k, t);
    assert q'[k] == t;
    forall x | x in q
      ensures x in q'
    {
      var i :| 0 <= i < |q| && q[i] == x;
      assert q'[if i < k then i else i + 1] == x;
    }
  }

  lemma TailAhead(q: seq<Tid>, x: Tid, y: Tid)
    requires q != [] && NoDuplicates(q) && x in q[1..] && Ahead(q, x, y)
    ensures Ahead(q[1..], x, y) && q[0] != y
  {
    var i, j :| 0 <= i < j < |q| && q[i] == x && q[j] == y;
    var k :| 0 <= k < |q[1..]| && q[1..][k] == x;
    assert i == k + 1;
    assert q[1..][i - 1] == x && q[1..][j - 1] == y;
  }

  lemma ReadyDistinct(s: State)
    requires Inv(s)
    ensures NoDuplicates(s.ready)
  {
    hide Waits, ReadySorted;
    forall i, j | 0 <= i < j < |s.ready|
      ensures s.ready[i] != s.ready[j]
    {
      assert ThreadOk(s, s.ready[i]);
      assert s.ready == s.ready[..j] + [s.ready[j]] + s.ready[j + 1..];
      assert s.ready[i] == s.ready[..j][i];
    }
  }

  /** A thread that leaves the ready list for the processor is at least as urgent as all that are ready. */
  lemma DispatchesMostUrgent(s: State, a: Action)
    requires Inv(s) && Enabled(s, a) && IsDispatch(s, a)
    ensures var s' := Step(s, a);
            && s'.cpu == Arriving && (s'.current in s.ready || a == AFork(s'.current))
            && forall t | t in s.ready || a == AFork(t) :: s.priority(s'.current) <= s.priority(t)
  {
    hide ThreadOk, Inserted;
    var s1 := if a.AFork? then Readied(s, a.t) else s;
    if a.AFork? {
      SortedAfterReady(s, a.t);
      InsertMembers(s.ready, Place(s.ready, a.t, ThreadPriorityCompare(s.priority)), a.t);
      ReadiedIs(s, a.t);
    }
    forall t | t in s1.ready
      ensures s.priority(s1.ready[0]) <= s.priority(t)
    {
      var i :| 0 <= i < |s1.ready| && s1.ready[i] == t;
    }
  }

  lemma ReadiedIs(s: State, t: Tid)
    ensures Readied(s, t).ready == InsertAt(s.ready, Place(s.ready, t, ThreadPriorityCompare(s.priority)), t)
  {
  }

  /** `x` is ready, and `y` behind it or about to come up behind it. */
  ghost predicate Leads(s: State, x: Tid, y: Tid) {
    x != y && x in s.ready && if y in s.ready then Ahead(s.ready, x, y) else s.priority(x) <= s.priority(y)
  }

  /** Taking the front and putting another thread in, as `Yield` does. */
  lemma YieldKeepsLead(s: State, x: Tid, y: Tid)
    requires ReadySorted(s) && NoDuplicates(s.ready) && Leads(s, x, y) && x in Yielded(s).ready
    requires s.current !in s.ready
    ensures y in Yielded(s).ready ==> Ahead(Yielded(s).ready, x, y)
    ensures s.ready != [] ==> Yielded(s).current != y
  {
    hide Ahead, Inserted;
    if s.ready != [] {
      var s1 := s.(ready := s.ready[1..]);
      ReadiedIs(s1, s.current);
      InsertMembers(s1.ready, Place(s1.ready, s.current, ThreadPriorityCompare(s.priority)), s.current);
      assert x in s1.ready;
      DropFrontKeepsDistinct(s.ready);
      if y in s.ready {
        TailAhead(s.ready, x, y);
      }
      ReadyAhead(s1, s.current, x, y);
    }
  }

  lemma TailKeepsLead(s: State, x: Tid, y: Tid)
    requires NoDuplicates(s.ready) && s.ready != [] && Leads(s, x, y) && x in s.ready[1..]
    ensures s.ready[0] != y && (y in s.ready[1..] ==> Ahead(s.ready[1..], x, y))
  {
    hide Ahead;
    if y in s.ready {
      TailAhead(s.ready, x, y);
    }
  }

  lemma CurrentNotReady(s: State)
    requires Inv(s) && s.cpu == Executing
    ensures s.current !in s.ready
  {
    hide Waits, ReadySorted;
    assert ThreadOk(s, s.current);
  }

  lemma ForkKeepsLead(s: State, t: Tid, x: Tid, y: Tid)
    requires Inv(s) && Enabled(s, AFork(t)) && Leads(s, x, y) && x in Forked(s, t).ready
    ensures (y in Forked(s, t).ready ==> Ahead(Forked(s, t).ready, x, y)) && Forked(s, t).current != y
  {
    AdmitKeepsInv(s, t);
    ReadyAhead(s, t, x, y);
    hide Inserted, Ahead, ThreadOk, ReadySorted;
    var s1 := Readied(s, t);
    ReadyDistinct(s1);
    CurrentNotReady(s1);
    YieldKeepsLead(s1, x, y);
  }

  /** While a thread is ready, nobody behind it, and nobody who comes up no more urgent than it is, gets in front of it. */
  lemma StepKeepsLead(s: State, a: Action, x: Tid, y: Tid)
    requires Inv(s) && Enabled(s, a) && Leads(s, x, y) && x in Step(s, a).ready
    ensures y in Step(s, a).ready ==> Ahead(Step(s, a).ready, x, y)
    ensures IsDispatch(s, a) ==> Step(s, a).current != y
  {
    hide Inserted, Ahead, ThreadOk;
    ReadyDistinct(s);
    match a
    case AYield =>
      CurrentNotReady(s);
      YieldKeepsLead(s, x, y);
    case AFork(t) => ForkKeepsLead(s, t, x, y);
    case AWake(i) =>
      if s.queues[i] != [] {
        ReadyAhead(s.(queues := s.queues[i := s.queues[i][1..]]), s.queues[i][0], x, y);
      }
    case ABlock(_) => if s.ready != [] { TailKeepsLead(s, x, y); }
    case AFinish => if s.ready != [] { TailKeepsLead(s, x, y); }
    case AEndIdle => TailKeepsLead(s, x, y);
    case _ =>
  }

  /** In every state of every run the ready list is in order of urgency. */
  lemma MostUrgentFirst(run: seq<State>, actions: seq<Action>, n: nat, i: nat, j: nat)
    requires IsRun(run, actions) && Init(run[0]) && n < |run| && i < j < |run[n].ready|
    ensures run[n].priority(run[n].ready[i]) <= run[n].priority(run[n].ready[j])
  {
    hide IsRun, Init, ThreadOk;
    RunKeepsInv(run, actions, n);
  }

  /**
   * As long as `x` is ready it stays in front of `y`, and `y` does not run, if it was in front when both were ready, or
   * `y` became ready later and was not more urgent then.
   */
  lemma {:induction false} NeverOvertaken(run: seq<State>, actions: seq<Action>, n: nat, m: nat, x: Tid, y: Tid)
    requires IsRun(run, actions) && Init(run[0]) && n <= m < |run| && x != y
    requires forall k | n <= k <= m :: x in run[k].ready
    requires y in run[n].ready ==> Ahead(run[n].ready, x, y)
    requires forall k | n <= k < m && y !in run[k].ready :: run[k].priority(x) <= run[k].priority(y)
    ensures y in run[m].ready ==> Ahead(run[m].ready, x, y)
    ensures forall k | n <= k < m && IsDispatch(run[k], actions[k]) :: run[k + 1].current != y
    decreases m - n
  {
    hide Inv, Init, Ahead, Enabled, Step, IsDispatch;
    if n < m {
      NeverOvertaken(run, actions, n, m - 1, x, y);
      RunKeepsInv(run, actions, m - 1);
      assert run[m - 1 + 1] == Step(run[m - 1], actions[m - 1]);
      StepKeepsLead(run[m - 1], actions[m - 1], x, y);
    }
  }

  // Fairness under equal priorities.

  // The queues of the semaphores.

  /** The thread blocks, and semaphore `i` is what it blocks on. */
  function BlocksOn(i: nat): (State, State, Tid) -> bool {
    (s: State, s': State, t: Tid) =>
      i < |s.queues| && i < |s'.queues| && s'.queues[i] != s.queues[i] &&
      t in s.status && s.status[t] == Running && t in s'.status && s'.status[t] == Blocked
  }

  function IsWokenOn(i: nat): (State, State, Tid) -> bool {
    (s: State, s': State, t: Tid) =>
      i < |s.queues| && i < |s'.queues| && s'.queues[i] != s.queues[i] &&
      t in s.status && s.status[t] == Blocked && t in s'.status && s'.status[t] == Ready
  }

  function QueueOf(i: nat): State -> seq<Tid> {
    (s: State) => if i < |s.queues| then s.queues[i] else []
  }

  lemma WaitsAtLeast(queues: seq<seq<Tid>>, i: nat, t: Tid)
    requires i < |queues| && t in queues[i]
    ensures Waits(queues, t) > 0
  {
    if i < |queues| - 1 {
      WaitsAtLeast(queues[..|queues| - 1], i, t);
    }
  }

  lemma StepOnQueue(s: State, a: Action, i: nat)
    requires Inv(s) && Enabled(s, a) && i < |s.queues|
    ensures |Step(s, a).queues| == |s.queues|
    ensures QueueStep(s, Step(s, a), s.queues[i], Step(s, a).queues[i], BlocksOn(i), IsWokenOn(i))
  {
    hide Waits, Inserted, ReadySorted;
    var s', q := Step(s, a), s.queues[i];
    assert ThreadOk(s, s.current);
    if a == ABlock(i) {
      assert s.ready != [] ==> ThreadOk(s, s.ready[0]);
      assert s'.queues[i] == q + [s.current] && forall t: Tid :: BlocksOn(i)(s, s', t) <==> t == s.current;
    } else if a == AWake(i) && q != [] {
      WaitsAtLeast(s.queues, i, q[0]);
      assert ThreadOk(s, q[0]);
      assert s'.queues[i] == q[1..] && forall t: Tid :: IsWokenOn(i)(s, s', t) <==> t == q[0];
    }
  }

  /** A `V` readies the thread that has waited longest, if any. */
  lemma WakeReadiesFirst(s: State, i: nat)
    requires Enabled(s, AWake(i)) && s.queues[i] != []
    ensures var s' := Step(s, AWake(i)); s'.queues[i] == s.queues[i][1..] && s.queues[i][0] in s'.ready && s'.status[s.queues[i][0]] == Ready
  {
    hide Place;
    InsertMembers(s.ready, Place(s.ready, s.queues[i][0], ThreadPriorityCompare(s.priority)), s.queues[i][0]);
  }

  /** Each semaphore wakes threads in the order in which they blocked on it; those still blocked are in its queue. */
  lemma WokenInOrder(run: seq<State>, actions: seq<Action>, i: nat, n: nat)
    requires IsRun(run, actions) && Init(run[0]) && i < |run[0].queues| && n < |run|
    ensures i < |run[n].queues| && Log(run, BlocksOn(i), n) == Log(run, IsWokenOn(i), n) + run[n].queues[i]
  {
    hide Enabled, Step, BlocksOn, IsWokenOn, QueueStep, Inv;
    QueuesStay(run, actions, n);
    forall k | 0 <= k < |run| - 1
      ensures QueueStep(run[k], run[k + 1], QueueOf(i)(run[k]), QueueOf(i)(run[k + 1]), BlocksOn(i), IsWokenOn(i))
    {
      RunKeepsInv(run, actions, k);
      QueuesStay(run, actions, k);
      StepOnQueue(run[k], actions[k], i);
    }
    FirstInFirstOut(run, QueueOf(i), BlocksOn(i), IsWokenOn(i), n);
  }

  lemma {:induction false} QueuesStay(run: seq<State>, actions: seq<Action>, n: nat)
    requires IsRun(run, actions) && n < |run|
    ensures |run[n].queues| == |run[0].queues|
  {
    hide Inserted;
    if n > 0 {
      QueuesStay(run, actions, n - 1);
      assert run[n - 1 + 1] == Step(run[n - 1], actions[n - 1]);
    }
  }

  // Fairness under equal priorities.

  ghost predicate EqualPriorities(s: State) {
    forall t: Tid, u: Tid :: s.priority(t) == s.priority(u)
  }

  lemma ReadyAtEnd(s: State, t: Tid)
    requires EqualPriorities(s)
    ensures Readied(s, t).ready == s.ready + [t]
  {
    var compare := ThreadPriorityCompare(s.priority);
    assert Place(s.ready, t, compare) == |s.ready|;
  }

  /** A dispatch moves every ready thread up by one place, the first onto the processor; nothing else moves them. */
  lemma StepAdvances(s: State, a: Action, k: nat)
    requires Enabled(s, a) && EqualPriorities(s) && k < |s.ready|
    ensures var s' := Step(s, a);
      if !IsDispatch(s, a) then k < |s'.ready| && s'.ready[k] == s.ready[k]
      else if k == 0 then s'.current == s.ready[0] && s'.cpu == Arriving
      else k - 1 < |s'.ready| && s'.ready[k - 1] == s.ready[k]
  {
    hide Inserted;
    match a
    case AYield => ReadyAtEnd(s.(ready := s.ready[1..]), s.current);
    case AFork(t) =>
      ReadyAtEnd(s, t);
      var s1 := Readied(s, t);
      ReadyAtEnd(s1.(ready := s1.ready[1..]), s.current);
    case AWake(i) =>
      if s.queues[i] != [] { ReadyAtEnd(s.(queues := s.queues[i := s.queues[i][1..]]), s.queues[i][0]); }
    case _ =>
  }

  /** The number of dispatches among the first `n` steps. */
  function Dispatches(run: seq<State>, actions: seq<Action>, n: nat): nat
    requires n <= |actions| < |run|
  {
    if n == 0 then 0 else Dispatches(run, actions, n - 1) + One(IsDispatch(run[n - 1], actions[n - 1]))
  }

  /** With equal priorities, after `d <= k` dispatches the thread at place `k` has moved up to place `k - d`. */
  lemma {:induction false} WaitsItsTurn(run: seq<State>, actions: seq<Action>, k: nat, n: nat)
    requires IsRun(run, actions) && n <= |actions| && k < |run[0].ready|
    requires forall i | 0 <= i < |run| :: EqualPriorities(run[i])
    requires Dispatches(run, actions, n) <= k
    ensures k - Dispatches(run, actions, n) < |run[n].ready|
    ensures run[n].ready[k - Dispatches(run, actions, n)] == run[0].ready[k]
  {
    hide EqualPriorities, Enabled, Step, IsDispatch;
    if n > 0 {
      WaitsItsTurn(run, actions, k, n - 1);
      StepAdvances(run[n - 1], actions[n - 1], k - Dispatches(run, actions, n - 1));
    }
  }

  /** With equal priorities, the thread at place `k` of the ready list is the one that dispatch number `k + 1` runs. */
  lemma RunsAtItsTurn(run: seq<State>, actions: seq<Action>, k: nat, n: nat)
    requires IsRun(run, actions) && n < |actions| && k < |run[0].ready|
    requires forall i | 0 <= i < |run| :: EqualPriorities(run[i])
    requires IsDispatch(run[n], actions[n]) && Dispatches(run, actions, n + 1) == k + 1
    ensures run[n + 1].current == run[0].ready[k] && run[n + 1].cpu == Arriving
  {
    hide EqualPriorities, Enabled, Step;
    WaitsItsTurn(run, actions, k, n);
    StepAdvances(run[n], actions[n], 0);
  }
}
