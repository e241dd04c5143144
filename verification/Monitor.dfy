/** code/threads/synchlist.cc as an object: what its operations do between two points at which a thread may be switched out. */
module Monitors {
  import opened ThreadIds
  import opened Wrappers
  import opened Semaphores
  import opened Conditions
  import opened Lists
  import S = SynchLists

  class SynchList<T(==)> {
    const list: List<T>
    const lock: Lock
    const listEmpty: Condition

    /** The list is sound, and every waiter has a semaphore of its own. */
    ghost predicate Valid()
      reads list, list.chain, lock, listEmpty
    {
      && list.Valid() && NoDuplicates(listEmpty.waitQueue)
      && forall w <- listEmpty.waitQueue :: w != lock.semaphore
    }

    constructor ()
      ensures Valid() && list.items == [] && listEmpty.waitQueue == []
      ensures lock.semaphore.State() == Sem(1, []) && lock.lockHolder == None
      ensures fresh(list) && fresh(lock) && fresh(lock.semaphore) && fresh(listEmpty)
    {
      list := new List<T>();
      lock := new Lock();
      listEmpty := new Condition();
    }

    /** `Append` from the return of `Acquire` on. */
    method Append(item: T, currentThread: Tid)
      requires Valid() && lock.lockHolder == Some(currentThread)
      modifies list, list.chain, listEmpty, listEmpty.waitQueue, lock, lock.semaphore
      ensures Valid() && list.items == old(list.items) + [item] && lock.lockHolder == None
      ensures lock.semaphore.State() == Post(old(lock.semaphore.State()))
      ensures listEmpty.waitQueue == if old(listEmpty.waitQueue) == [] then [] else old(listEmpty.waitQueue)[1..]
      ensures forall i | 0 <= i < |old(listEmpty.waitQueue)| ::
                var w := old(listEmpty.waitQueue)[i];
                w.State() == if i == 0 then Post(old(w.State())) else old(w.State())
    {
      list.Append(item);
      var ok := listEmpty.Signal(lock, currentThread);
      assert ok && lock.semaphore !in old(listEmpty.waitQueue);
      assert lock.semaphore.State() == old(lock.semaphore.State());
      ok := lock.Release(currentThread);
    }

    /** `RemoveFront` from the return of `Acquire` on, one test of the loop: it takes the front item, or starts to wait. */
    method RemoveFront(currentThread: Tid) returns (item: Option<T>, waiter: Option<Semaphore>)
      requires Valid() && lock.lockHolder == Some(currentThread)
      modifies list, listEmpty, lock, lock.semaphore
      ensures Valid() && lock.lockHolder == None && lock.semaphore.State() == Post(old(lock.semaphore.State()))
      ensures item.Some? <==> old(list.items) != []
      ensures waiter.Some? <==> item.None?
      ensures item.Some? ==> [item.value] + list.items == old(list.items) && listEmpty.waitQueue == old(listEmpty.waitQueue)
      ensures waiter.Some? ==>
                && list.items == old(list.items) && fresh(waiter.value) && waiter.value.State() == Sem(0, [])
                && listEmpty.waitQueue == old(listEmpty.waitQueue) + [waiter.value]
    {
      if list.IsEmpty() {
        item := None;
        waiter := listEmpty.StartWait(lock, currentThread);
      } else {
        var front := list.RemoveFront();
        var ok := lock.Release(currentThread);
        item, waiter := Some(front), None;
      }
    }

    /** `Remove` from the return of `Acquire` on; `false` is a failed ASSERT, on which the lock is never given back. */
    method Remove(item: T, currentThread: Tid) returns (ok: bool)
      requires Valid() && lock.lockHolder == Some(currentThread)
      modifies list, list.chain, lock, lock.semaphore
      ensures ok <==> multiset(old(list.items))[item] == 1
      ensures !ok ==> lock.lockHolder == old(lock.lockHolder) && lock.semaphore.State() == old(lock.semaphore.State())
      ensures Valid() && list.items == if item in old(list.items) then WithoutFirst(old(list.items), item) else old(list.items)
      ensures ok ==>
                && item in old(list.items) && item !in list.items
                && lock.lockHolder == None && lock.semaphore.State() == Post(old(lock.semaphore.State()))
    {
      ok := list.Remove(item);
      if ok {
        ok := lock.Release(currentThread);
      }
    }
  }

  // The same sections in the step relation, when no other thread comes in between.

  /** Thread `t` takes all steps of the run. */
  ghost predicate Alone<T>(run: seq<S.State<T>>, t: Tid) {
    |run| > 0 && forall i | 0 <= i < |run| - 1 :: S.CanStep(run[i], t, S.ToRemoveFront) && run[i + 1] == S.Step(run[i], t, S.ToRemoveFront)
  }

  ghost predicate Bounds<T>(s: S.State<T>, t: Tid) {
    && t < |s.pcs| == |s.waiters| && (forall u <- s.lock.queue :: u < |s.pcs|) && t !in s.lock.queue
  }

  lemma InvBounds<T>(s: S.State<T>, t: Tid)
    requires S.Inv(s) && t < |s.pcs| && s.pcs[t].Got?
    ensures Bounds(s, t) && forall u <- s.waitQueue :: u < |s.pcs|
  {
    hide S.LockOk, S.LockLive, S.WaitersOk, S.ListLive, S.ContentsOk;
  }

  /** `lock->Release()` at the end of a section. */
  lemma ReleaseAlone<T>(s: S.State<T>, t: Tid, after: S.After) returns (run: seq<S.State<T>>)
    requires Bounds(s, t) && s.pcs[t] == S.Releasing(after)
    ensures Alone(run, t) && run[0] == s
    ensures var s' := run[|run| - 1];
            && s'.list == s.list && s'.waitQueue == s.waitQueue && s'.waiters == s.waiters && s'.log == s.log
            && s'.lockHolder == None && s'.lock == Post(s.lock) && t < |s'.pcs| && s'.pcs[t] == if after.Finish? then S.Idle else S.WaitP
  {
    assert s.lock.queue != [] ==> s.lock.queue[0] in s.lock.queue;
    var s1 := S.Step(s, t, S.ToRemoveFront);
    run := [s, s1, S.Step(s1, t, S.ToRemoveFront)];
  }

  lemma AloneJoins<T>(a: seq<S.State<T>>, b: seq<S.State<T>>, t: Tid)
    requires Alone(a, t) && Alone(b, t) && a[|a| - 1] == b[0]
    ensures Alone(a + b[1..], t) && (a + b[1..])[|a + b[1..]| - 1] == b[|b| - 1]
  {
    hide S.CanStep, S.Step;
    var run := a + b[1..];
    forall i | 0 <= i < |run| - 1
      ensures S.CanStep(run[i], t, S.ToRemoveFront) && run[i + 1] == S.Step(run[i], t, S.ToRemoveFront)
    {
      if i >= |a| - 1 {
        var k := i - (|a| - 1);
        assert run[i] == b[k] && run[i + 1] == b[k + 1];
      }
    }
  }

  /** `Signal`, and the release after it. */
  lemma SignalAlone<T>(s: S.State<T>, t: Tid) returns (run: seq<S.State<T>>)
    requires Bounds(s, t) && s.pcs[t] == S.Signalling && forall u <- s.waitQueue :: u < |s.pcs|
    ensures Alone(run, t) && run[0] == s
    ensures var s' := run[|run| - 1];
            && s'.list == s.list && s'.lockHolder == None && s'.lock == Post(s.lock)
            && s'.waitQueue == (if s.waitQueue == [] then [] else s.waitQueue[1..])
            && |s'.waiters| == |s.waiters|
            && (forall u: Tid | u < |s.waiters| ::
                  s'.waiters[u] == if s.waitQueue != [] && u == s.waitQueue[0] then Post(s.waiters[u]) else s.waiters[u])
            && t < |s'.pcs| && s'.pcs[t] == S.Idle
  {
    var s1 := S.Step(s, t, S.ToRemoveFront);
    if s.waitQueue == [] {
      var rest := ReleaseAlone(s1, t, S.Finish);
      AloneJoins([s, s1], rest, t);
      run := [s, s1] + rest[1..];
    } else {
      assert s.waitQueue[0] in s.waitQueue;
      var s2 := S.Step(s1, t, S.ToRemoveFront);
      var rest := ReleaseAlone(s2, t, S.Finish);
      AloneJoins([s, s1, s2], rest, t);
      run := [s, s1, s2] + rest[1..];
    }
  }

  /** `Append` run through does what the method does. */
  lemma AppendAlone<T>(s: S.State<T>, t: Tid, item: T) returns (run: seq<S.State<T>>)
    requires S.Inv(s) && t < |s.pcs| && s.pcs[t] == S.Got(S.ToAppend(item))
    ensures Alone(run, t) && run[0] == s
    ensures var s' := run[|run| - 1];
            && s'.list == s.list + [item] && s'.lockHolder == None && s'.lock == Post(s.lock)
            && s'.waitQueue == (if s.waitQueue == [] then [] else s.waitQueue[1..])
            && |s'.waiters| == |s.waiters|
            && (forall u: Tid | u < |s.waiters| ::
                  s'.waiters[u] == if s.waitQueue != [] && u == s.waitQueue[0] then Post(s.waiters[u]) else s.waiters[u])
            && t < |s'.pcs| && s'.pcs[t] == S.Idle
  {
    hide S.Inv;
    InvBounds(s, t);
    var s1 := S.Step(s, t, S.ToRemoveFront);
    var s2 := S.Step(s1, t, S.ToRemoveFront);
    var rest := SignalAlone(s2, t);
    AloneJoins([s, s1, s2], rest, t);
    run := [s, s1, s2] + rest[1..];
  }

  /** The test of the loop in `RemoveFront`, and what follows up to the end of the operation or the sleep. */
  lemma CheckAlone<T>(s: S.State<T>, t: Tid) returns (run: seq<S.State<T>>)
    requires Bounds(s, t) && s.pcs[t].Checking?
    ensures Alone(run, t) && run[0] == s
    ensures var s' := run[|run| - 1];
            && s'.lockHolder == None && s'.lock == Post(s.lock) && t < |s'.pcs|
            && (s.list != [] ==>
                  && [s.list[0]] + s'.list == s.list && s'.log == s.log + [S.RemovedFront(s.list[0])]
                  && s'.waitQueue == s.waitQueue && s'.waiters == s.waiters && s'.pcs[t] == S.Idle)
            && (s.list == [] ==>
                  && s'.list == [] && s'.log == s.log
                  && s'.waitQueue == s.waitQueue + [t] && s'.waiters == s.waiters[t := Sem(0, [])] && s'.pcs[t] == S.WaitP)
  {
    var s1 := S.Step(s, t, S.ToRemoveFront);
    if s.list != [] {
      var rest := ReleaseAlone(s1, t, S.Finish);
      AloneJoins([s, s1], rest, t);
      run := [s, s1] + rest[1..];
    } else {
      var s2 := S.Step(s1, t, S.ToRemoveFront);
      var rest := ReleaseAlone(s2, t, S.ThenWait);
      AloneJoins([s, s1, s2], rest, t);
      run := [s, s1, s2] + rest[1..];
    }
  }

  /** So does a pass of `RemoveFront`, with an item or without. */
  lemma RemoveFrontAlone<T>(s: S.State<T>, t: Tid) returns (run: seq<S.State<T>>)
    requires S.Inv(s) && t < |s.pcs| && (s.pcs[t] == S.Got(S.ToRemoveFront) || s.pcs[t] == S.Got(S.ToRecheck))
    ensures Alone(run, t) && run[0] == s
    ensures var s' := run[|run| - 1];
            && s'.lockHolder == None && s'.lock == Post(s.lock) && t < |s'.pcs|
            && (s.list != [] ==>
                  && [s.list[0]] + s'.list == s.list && s'.log == s.log + [S.RemovedFront(s.list[0])]
                  && s'.waitQueue == s.waitQueue && s'.waiters == s.waiters && s'.pcs[t] == S.Idle)
            && (s.list == [] ==>
                  && s'.list == [] && s'.log == s.log && t < |s.waiters|
                  && s'.waitQueue == s.waitQueue + [t] && s'.waiters == s.waiters[t := Sem(0, [])] && s'.pcs[t] == S.WaitP)
  {
    hide S.Inv;
    InvBounds(s, t);
    var s1 := S.Step(s, t, S.ToRemoveFront);
    var rest := CheckAlone(s1, t);
    AloneJoins([s, s1], rest, t);
    run := [s, s1] + rest[1..];
  }

  /** And `Remove` of an item that is there once. */
  lemma RemoveAlone<T>(s: S.State<T>, t: Tid, item: T) returns (run: seq<S.State<T>>)
    requires S.Inv(s) && t < |s.pcs| && s.pcs[t] == S.Got(S.ToRemove(item)) && multiset(s.list)[item] == 1
    ensures Alone(run, t) && run[0] == s
    ensures var s' := run[|run| - 1];
            && s'.list == WithoutFirst(s.list, item) && s'.lockHolder == None && s'.lock == Post(s.lock)
            && s'.waitQueue == s.waitQueue && s'.waiters == s.waiters && t < |s'.pcs| && s'.pcs[t] == S.Idle
  {
    hide S.Inv;
    InvBounds(s, t);
    var s1 := S.Step(s, t, S.ToRemoveFront);
    var s2 := S.Step(s1, t, S.ToRemoveFront);
    var rest := ReleaseAlone(s2, t, S.Finish);
    AloneJoins([s, s1, s2], rest, t);
    run := [s, s1, s2] + rest[1..];
  }
}
