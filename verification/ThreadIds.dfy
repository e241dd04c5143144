/** Names for threads, and queues of them. */
module ThreadIds {
  import opened Wrappers

  type Tid = nat

  function One(b: bool): nat {
    if b then 1 else 0
  }

  function Front(q: seq<Tid>): Option<Tid> {
    if q == [] then None else Some(q[0])
  }

  ghost predicate NoDuplicates<T>(s: seq<T>) {
    forall i, j | 0 <= i < j < |s| :: s[i] != s[j]
  }

  lemma AppendKeepsDistinct<T>(s: seq<T>, x: T)
    requires NoDuplicates(s) && x !in s
    ensures NoDuplicates(s + [x])
    ensures forall y :: y in s + [x] <==> y in s || y == x
  {
  }

  lemma DropFrontKeepsDistinct<T>(s: seq<T>)
    requires NoDuplicates(s) && s != []
    ensures NoDuplicates(s[1..])
    ensures forall y :: y in s[1..] <==> y in s && y != s[0]
  {
    forall y | y in s && y != s[0]
      ensures y in s[1..]
    {
      var i :| 0 <= i < |s| && s[i] == y;
      assert s[1..][i - 1] == y;
    }
  }

  lemma {:induction false} SubsetSize<A>(a: set<A>, b: set<A>)
    requires a <= b
    ensures |a| <= |b|
  {
    if a != {} {
      var x :| x in a;
      SubsetSize(a - {x}, b - {x});
    }
  }

  // Who joined a queue and who was taken from it, told from the states of a run alone.

  /** The threads that the first `n` steps of a run did something to, in order; `did` says what from the states around a step. */
  ghost function Log<S>(run: seq<S>, did: (S, S, Tid) -> bool, n: nat): seq<Tid>
    requires n < |run|
  {
    if n == 0 then []
    else
      var s, s' := run[n - 1], run[n];
      if t: Tid :| did(s, s', t) then Log(run, did, n - 1) + [t] else Log(run, did, n - 1)
  }

  /** What a step may do to a queue: nothing, or let one thread join behind the others, or take the first one. */
  ghost predicate QueueStep<S>(s: S, s': S, q: seq<Tid>, q': seq<Tid>, joined: (S, S, Tid) -> bool, left: (S, S, Tid) -> bool) {
    || (q' == q && forall t: Tid :: !joined(s, s', t) && !left(s, s', t))
    || (exists x: Tid :: q' == q + [x] && forall t: Tid :: (joined(s, s', t) <==> t == x) && !left(s, s', t))
    || (q != [] && q' == q[1..] && forall t: Tid :: !joined(s, s', t) && (left(s, s', t) <==> t == q[0]))
  }

  /** Then the threads leave in the order in which they joined, and the queue holds those that have not left. */
  lemma {:induction false} FirstInFirstOut<S>(run: seq<S>, queue: S -> seq<Tid>, joined: (S, S, Tid) -> bool, left: (S, S, Tid) -> bool, n: nat)
    requires n < |run| && queue(run[0]) == []
    requires forall i | 0 <= i < |run| - 1 :: QueueStep(run[i], run[i + 1], queue(run[i]), queue(run[i + 1]), joined, left)
    ensures Log(run, joined, n) == Log(run, left, n) + queue(run[n])
  {
    hide QueueStep;
    if n > 0 {
      FirstInFirstOut(run, queue, joined, left, n - 1);
      assert QueueStep(run[n - 1], run[n - 1 + 1], queue(run[n - 1]), queue(run[n - 1 + 1]), joined, left);
      LogGrows(run, queue(run[n - 1]), queue(run[n]), joined, left, n);
    }
  }

  lemma LogStep<S>(run: seq<S>, did: (S, S, Tid) -> bool, n: nat, s: S, s': S, x: Tid)
    requires 0 < n < |run| && s == run[n - 1] && s' == run[n]
    ensures (forall t: Tid :: !did(s, s', t)) ==> Log(run, did, n) == Log(run, did, n - 1)
    ensures (forall t: Tid :: did(s, s', t) <==> t == x) ==> Log(run, did, n) == Log(run, did, n - 1) + [x]
  {
    if forall t: Tid :: did(s, s', t) <==> t == x {
      assert did(s, s', x);
    }
  }

  lemma LogGrows<S>(run: seq<S>, q: seq<Tid>, q': seq<Tid>, joined: (S, S, Tid) -> bool, left: (S, S, Tid) -> bool, n: nat)
    requires 0 < n < |run| && QueueStep(run[n - 1], run[n], q, q', joined, left)
    requires Log(run, joined, n - 1) == Log(run, left, n - 1) + q
    ensures Log(run, joined, n) == Log(run, left, n) + q'
  {
    hide Log;
    var s, s' := run[n - 1], run[n];
    LogStep(run, joined, n, s, s', 0);
    LogStep(run, left, n, s, s', 0);
    if x: Tid :| q' == q + [x] && forall t: Tid :: (joined(s, s', t) <==> t == x) && !left(s, s', t) {
      LogStep(run, joined, n, s, s', x);
    } else if q != [] {
      LogStep(run, left, n, s, s', q[0]);
      assert q == [q[0]] + q[1..];
    }
  }
}
