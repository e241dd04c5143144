/** code/threads/synch.cc: locks and condition variables as objects; every method is one section between possible switches. */
module Conditions {
  import opened ThreadIds
  import opened Wrappers
  import opened Semaphores

  class Lock {
    const semaphore: Semaphore
    var lockHolder: Option<Tid>

    constructor ()
      ensures fresh(semaphore) && semaphore.State() == Sem(1, []) && lockHolder == None
    {
      semaphore := new Semaphore(1);
      lockHolder := None;
    }

    /** `Acquire` up to the return of `P`, or to its `Sleep`. */
    method TryAcquire(currentThread: Tid) returns (slept: bool)
      modifies semaphore
      ensures semaphore.State() == Attempt(old(semaphore.State()), currentThread)
      ensures slept <==> old(semaphore.value) == 0
      ensures semaphore.queue == old(semaphore.queue) + if slept then [currentThread] else []
    {
      slept := semaphore.TryP(currentThread);
    }

    /** The rest of `Acquire`. */
    method RecordHolder(currentThread: Tid)
      modifies this
      ensures lockHolder == Some(currentThread)
    {
      lockHolder := Some(currentThread);
    }

    /** `Release`; `false` is the failed ASSERT. */
    method Release(currentThread: Tid) returns (ok: bool)
      modifies this, semaphore
      ensures ok <==> old(lockHolder) == Some(currentThread)
      ensures ok ==> lockHolder == None && semaphore.State() == Post(old(semaphore.State()))
      ensures !ok ==> lockHolder == old(lockHolder) && semaphore.State() == old(semaphore.State())
    {
      if lockHolder != Some(currentThread) {
        return false;
      }
      lockHolder := None;
      var _ := semaphore.V();
      return true;
    }
  }

  class Condition {
    var waitQueue: seq<Semaphore>

    constructor ()
      ensures waitQueue == []
    {
      waitQueue := [];
    }

    /** `Wait` up to the sleep on the new semaphore; `None` is the failed ASSERT. */
    method StartWait(conditionLock: Lock, currentThread: Tid) returns (waiter: Option<Semaphore>)
      modifies this, conditionLock, conditionLock.semaphore
      ensures waiter == None <==> old(conditionLock.lockHolder) != Some(currentThread)
      ensures waiter == None ==> waitQueue == old(waitQueue)
      ensures waiter.Some? ==>
                && fresh(waiter.value) && waiter.value.State() == Sem(0, []) && waitQueue == old(waitQueue) + [waiter.value]
                && conditionLock.lockHolder == None
                && conditionLock.semaphore.State() == Post(old(conditionLock.semaphore.State()))
    {
      if conditionLock.lockHolder != Some(currentThread) {
        return None;
      }
      var w := new Semaphore(0);
      waitQueue := waitQueue + [w];
      var _ := conditionLock.Release(currentThread);
      return Some(w);
    }

    /** Wakes the waiter at the front, if any; `false` is the failed ASSERT. */
    method Signal(conditionLock: Lock, currentThread: Tid) returns (ok: bool)
      modifies this, waitQueue
      ensures ok <==> conditionLock.lockHolder == Some(currentThread)
      ensures !ok ==> waitQueue == old(waitQueue) && forall u <- old(waitQueue) :: u.State() == old(u.State())
      ensures ok ==> waitQueue == if old(waitQueue) == [] then [] else old(waitQueue)[1..]
      ensures ok && old(waitQueue) != [] ==>
                var w := old(waitQueue)[0];
                w.State() == Post(old(w.State())) && forall u <- old(waitQueue) | u != w :: u.State() == old(u.State())
    {
      if conditionLock.lockHolder != Some(currentThread) {
        return false;
      }
      if waitQueue != [] {
        var w := waitQueue[0];
        waitQueue := waitQueue[1..];
        var _ := w.V();
      }
      return true;
    }

    /** Wakes every waiter exactly once. */
    method Broadcast(conditionLock: Lock, currentThread: Tid) returns (ok: bool)
      requires NoDuplicates(waitQueue)
      modifies this, waitQueue
      ensures ok <==> old(waitQueue) == [] || conditionLock.lockHolder == Some(currentThread)
      ensures !ok ==> waitQueue == old(waitQueue) && forall w <- old(waitQueue) :: w.State() == old(w.State())
      ensures ok ==> waitQueue == [] && forall w <- old(waitQueue) :: w.State() == Post(old(w.State()))
    {
      ghost var done := 0;
      ghost var all := waitQueue;
      while waitQueue != []
        invariant done <= |all| && waitQueue == all[done..]
        invariant forall i | 0 <= i < done :: all[i].State() == Post(old(all[i].State()))
        invariant forall i | done <= i < |all| :: all[i].State() == old(all[i].State())
        invariant done > 0 ==> conditionLock.lockHolder == Some(currentThread)
        decreases |waitQueue|
      {
        ok := Signal(conditionLock, currentThread);
        if !ok {
          return;
        }
        done := done + 1;
      }
      return true;
    }
  }
}
