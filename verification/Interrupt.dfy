/** code/machine/interrupt.cc: simulated time and the queue of device interrupts. */
module Interrupts {
  import opened SortedSeqs

  const SYSTEM_TICK := 10
  const USER_TICK := 1

  datatype IntStatus = IntOff | IntOn
  datatype MachineStatus = IdleMode | SystemMode | UserMode

  /** `serial` tells apart the objects that `Schedule` allocates: it is the number of earlier calls. */
  datatype PendingInterrupt = PendingInterrupt(callOnInterrupt: int, when: int, serial: nat)

  /** An interrupt that has fired, and the time at which its handler was called. */
  datatype Fired = Fired(what: PendingInterrupt, at: int)

  function PendingCompare(x: PendingInterrupt, y: PendingInterrupt): int {
    if x.when < y.when then -1 else if x.when > y.when then 1 else 0
  }

  /** What a handler asks `Schedule` for. */
  datatype Request = Request(toCall: int, fromNow: int)

  /** Time, its breakdown, the queue, and the history of the whole run. */
  datatype Clock = Clock(totalTicks: int, idleTicks: int, systemTicks: int, userTicks: int,
                         pending: seq<PendingInterrupt>, fired: seq<Fired>, scheduled: seq<PendingInterrupt>)

  predicate AtStart(c: Clock) {
    && c.totalTicks == c.idleTicks == c.systemTicks == c.userTicks == 0
    && c.pending == [] && c.fired == [] && c.scheduled == []
  }

  function WithScheduled(c: Clock, q: Request): Clock {
    var toOccur := PendingInterrupt(q.toCall, c.totalTicks + q.fromNow, |c.scheduled|);
    c.(pending := Inserted(c.pending, toOccur, PendingCompare), scheduled := c.scheduled + [toOccur])
  }

  function WithAllScheduled(c: Clock, qs: seq<Request>): Clock
    decreases |qs|
  {
    if qs == [] then c else WithAllScheduled(WithScheduled(c, qs[0]), qs[1..])
  }

  /** The front interrupt moves from the queue to the history. */
  function Removed(c: Clock): Clock
    requires c.pending != []
  {
    c.(pending := c.pending[1..], fired := c.fired + [Fired(c.pending[0], c.totalTicks)])
  }

  /** Takes the front interrupt off the queue; its handler then schedules the requests `qs`. */
  function Fire(c: Clock, qs: seq<Request>): Clock
    requires c.pending != []
  {
    WithAllScheduled(Removed(c), qs)
  }

  predicate Positive(qs: seq<Request>) {
    forall q <- qs :: q.fromNow > 0
  }

  /** Earlier due, or due at the same time and scheduled earlier. */
  predicate Before(x: PendingInterrupt, y: PendingInterrupt) {
    x.when < y.when || (x.when == y.when && x.serial < y.serial)
  }

  ghost predicate InOrder(s: seq<PendingInterrupt>) {
    forall i, j | 0 <= i < j < |s| :: Before(s[i], s[j])
  }

  /** The history of firings and the queue behind it form one ordered sequence. */
  ghost predicate FiringOrder(c: Clock) {
    && InOrder(Whats(c.fired)) && InOrder(c.pending)
    && (forall f <- c.fired, p <- c.pending :: Before(f.what, p))
  }

  /** Nothing fires early, or a whole tick late, or in the future. */
  predicate FiringTimes(c: Clock) {
    forall f <- c.fired :: f.what.when <= f.at < f.what.when + SYSTEM_TICK && f.at <= c.totalTicks
  }

  predicate SerialsKnown(c: Clock) {
    forall p <- c.pending :: p.serial < |c.scheduled|
  }

  /** The invariant of a run. */
  ghost predicate Inv(c: Clock) {
    && c.totalTicks == c.idleTicks + c.systemTicks + c.userTicks
    && FiringOrder(c) && FiringTimes(c) && SerialsKnown(c)
    && Accounted(c) == multiset(c.scheduled)
  }

  /** Everything scheduled has fired or is still pending. */
  function Accounted(c: Clock): multiset<PendingInterrupt> {
    multiset(Whats(c.fired)) + multiset(c.pending)
  }

  function Whats(fired: seq<Fired>): (w: seq<PendingInterrupt>)
    ensures |w| == |fired| && forall i | 0 <= i < |w| :: w[i] == fired[i].what
  {
    if fired == [] then [] else Whats(fired[..|fired| - 1]) + [fired[|fired| - 1].what]
  }

  predicate AllAfter(pending: seq<PendingInterrupt>, time: int) {
    forall p <- pending :: p.when > time
  }

  predicate NothingDue(c: Clock) {
    AllAfter(c.pending, c.totalTicks)
  }

  /** No pending interrupt has been due for a whole tick. */
  predicate NothingStale(c: Clock) {
    AllAfter(c.pending, c.totalTicks - SYSTEM_TICK)
  }

  lemma InsertIsOrdered(s: seq<PendingInterrupt>, x: PendingInterrupt)
    requires InOrder(s) && forall p <- s :: p.serial < x.serial
    ensures InOrder(Inserted(s, x, PendingCompare))
  {
    var k := Place(s, x, PendingCompare);
    assert k < |s| ==> Before(x, s[k]);
    assert forall i | 0 <= i < k :: s[i] in s && Before(s[i], x);
  }

  lemma AfterInsert(s: seq<PendingInterrupt>, x: PendingInterrupt, time: int)
    requires x.when > time
    ensures AllAfter(s, time) ==> AllAfter(Inserted(s, x, PendingCompare), time)
  {
    InsertedMembers(s, x, PendingCompare);
  }

  lemma OrderAfterSchedule(c: Clock, q: Request)
    requires FiringOrder(c) && FiringTimes(c) && SerialsKnown(c) && q.fromNow > 0
    ensures FiringOrder(WithScheduled(c, q)) && SerialsKnown(WithScheduled(c, q))
  {
    hide Inserted, InOrder, Whats, PendingCompare;
    var toOccur := PendingInterrupt(q.toCall, c.totalTicks + q.fromNow, |c.scheduled|);
    InsertIsOrdered(c.pending, toOccur);
    InsertedMembers(c.pending, toOccur, PendingCompare);
  }

  lemma AccountedAfterSchedule(c: Clock, q: Request)
    ensures Accounted(c) == multiset(c.scheduled) ==> Accounted(WithScheduled(c, q)) == multiset(WithScheduled(c, q).scheduled)
  {
    hide Inserted, Whats;
    var toOccur := PendingInterrupt(q.toCall, c.totalTicks + q.fromNow, |c.scheduled|);
    InsertedMultiset(c.pending, toOccur, PendingCompare);
  }

  /** Scheduling later than now keeps the invariant; in particular nothing that has fired should have come after it. */
  lemma ScheduleKeepsInv(c: Clock, q: Request)
    requires Inv(c) && q.fromNow > 0
    ensures Inv(WithScheduled(c, q)) && (NothingDue(c) ==> NothingDue(WithScheduled(c, q))) && (NothingStale(c) ==> NothingStale(WithScheduled(c, q)))
    ensures WithScheduled(c, q).totalTicks == c.totalTicks && WithScheduled(c, q).fired == c.fired
  {
    hide Inserted, AllAfter, FiringOrder, SerialsKnown, Accounted;
    var toOccur := PendingInterrupt(q.toCall, c.totalTicks + q.fromNow, |c.scheduled|);
    OrderAfterSchedule(c, q);
    AccountedAfterSchedule(c, q);
    AfterInsert(c.pending, toOccur, c.totalTicks);
    AfterInsert(c.pending, toOccur, c.totalTicks - SYSTEM_TICK);
  }

  lemma {:induction false} ScheduleAllKeepsInv(c: Clock, qs: seq<Request>)
    requires Inv(c) && Positive(qs)
    ensures Inv(WithAllScheduled(c, qs)) && (NothingDue(c) ==> NothingDue(WithAllScheduled(c, qs)))
    ensures NothingStale(c) ==> NothingStale(WithAllScheduled(c, qs))
    ensures WithAllScheduled(c, qs).totalTicks == c.totalTicks && WithAllScheduled(c, qs).fired == c.fired
    ensures DueCount(WithAllScheduled(c, qs).pending, c.totalTicks) == DueCount(c.pending, c.totalTicks)
    decreases |qs|
  {
    hide Inv, NothingDue, NothingStale, WithScheduled, DueCount;
    if qs != [] {
      ScheduleKeepsInv(c, qs[0]);
      DueAfterSchedule(c, qs[0]);
      ScheduleAllKeepsInv(WithScheduled(c, qs[0]), qs[1..]);
    }
  }

  /** How many interrupts of a queue are due at a time; each round of the firing loop lowers this by one. */
  function DueCount(pending: seq<PendingInterrupt>, time: int): nat {
    if pending == [] then 0
    else DueCount(pending[..|pending| - 1], time) + if pending[|pending| - 1].when <= time then 1 else 0
  }

  lemma {:induction false} DueCountSplit(a: seq<PendingInterrupt>, b: seq<PendingInterrupt>, time: int)
    ensures DueCount(a + b, time) == DueCount(a, time) + DueCount(b, time)
  {
    if b == [] {
      assert a + b == a;
    } else {
      assert (a + b)[..|a + b| - 1] == a + b[..|b| - 1];
      DueCountSplit(a, b[..|b| - 1], time);
    }
  }

  lemma DueAfterSchedule(c: Clock, q: Request)
    requires q.fromNow > 0
    ensures DueCount(WithScheduled(c, q).pending, c.totalTicks) == DueCount(c.pending, c.totalTicks)
  {
    hide DueCount, Place;
    var toOccur := PendingInterrupt(q.toCall, c.totalTicks + q.fromNow, |c.scheduled|);
    var k := Place(c.pending, toOccur, PendingCompare);
    var front, back := c.pending[..k], c.pending[k..];
    assert c.pending == front + back;
    DueCountSplit(front, back, c.totalTicks);
    DueCountSplit(front + [toOccur], back, c.totalTicks);
    DueCountSplit(front, [toOccur], c.totalTicks);
    NotDue(toOccur, c.totalTicks);
  }

  lemma NotDue(p: PendingInterrupt, time: int)
    requires p.when > time
    ensures DueCount([p], time) == 0
  {
  }

  lemma NoneScheduled(c: Clock)
    ensures WithAllScheduled(c, []) == c
  {
  }

  lemma ScheduleFirst(c: Clock, qs: seq<Request>)
    requires qs != []
    ensures WithAllScheduled(c, qs) == WithAllScheduled(WithScheduled(c, qs[0]), qs[1..])
  {
  }

  lemma DueAfterRemove(pending: seq<PendingInterrupt>, time: int)
    requires pending != [] && pending[0].when <= time
    ensures DueCount(pending[1..], time) == DueCount(pending, time) - 1
  {
    assert pending == [pending[0]] + pending[1..];
    DueCountSplit([pending[0]], pending[1..], time);
  }

  lemma WhatsSnoc(fired: seq<Fired>, f: Fired)
    ensures Whats(fired + [f]) == Whats(fired) + [f.what]
  {
  }

  lemma OrderAfterRemove(c: Clock, c': Clock)
    requires FiringOrder(c) && c.pending != []
    requires c' == Removed(c)
    ensures FiringOrder(c')
  {
    hide Before, Whats;
    assert c.pending[0] in c.pending;
    WhatsSnoc(c.fired, Fired(c.pending[0], c.totalTicks));
    forall i | 0 <= i < |c.fired|
      ensures Before(Whats(c.fired)[i], c.pending[0])
    {
      assert c.fired[i] in c.fired;
    }
    forall f, p | f in c'.fired && p in c'.pending
      ensures Before(f.what, p)
    {
      var k :| 0 < k < |c.pending| && c.pending[k] == p;
      assert Before(c.pending[0], c.pending[k]) && p in c.pending;
      assert f in c.fired || f.what == c.pending[0];
    }
  }

  lemma AccountedAfterRemove(c: Clock, c': Clock)
    requires c.pending != []
    requires c' == Removed(c)
    ensures Accounted(c') == Accounted(c)
  {
    assert c.pending == [c.pending[0]] + c.pending[1..];
    assert Whats(c'.fired) == Whats(c.fired) + [c.pending[0]];
  }

  /** Firing the front interrupt at a moment when it is due keeps the invariant, whatever its handler schedules. */
  lemma FireKeepsInv(c: Clock, qs: seq<Request>)
    requires Inv(c) && NothingStale(c) && c.pending != [] && c.pending[0].when <= c.totalTicks && Positive(qs)
    ensures Inv(Fire(c, qs)) && NothingStale(Fire(c, qs)) && Fire(c, qs).totalTicks == c.totalTicks
    ensures DueCount(Fire(c, qs).pending, c.totalTicks) == DueCount(c.pending, c.totalTicks) - 1
  {
    hide FiringOrder, Accounted, DueCount, WithAllScheduled, Positive;
    var c' := Removed(c);
    assert c.pending[0] in c.pending;
    OrderAfterRemove(c, c');
    AccountedAfterRemove(c, c');
    DueAfterRemove(c.pending, c.totalTicks);
    ScheduleAllKeepsInv(c', qs);
  }

  lemma RemoveKeepsInv(c: Clock)
    requires Inv(c) && NothingStale(c) && c.pending != [] && c.pending[0].when <= c.totalTicks
    ensures var c' := Removed(c); Inv(c') && NothingStale(c')
  {
    FireKeepsInv(c, []);
  }

  lemma StartHasInv(c: Clock)
    requires AtStart(c)
    ensures Inv(c) && NothingStale(c) && NothingDue(c)
  {
    hide FiringOrder, Accounted, FiringTimes, SerialsKnown, AllAfter;
    StartParts(c);
  }

  lemma StartParts(c: Clock)
    requires c.pending == [] && c.fired == [] && c.scheduled == []
    ensures FiringOrder(c) && Accounted(c) == multiset(c.scheduled) && FiringTimes(c) && SerialsKnown(c)
    ensures forall t: int :: AllAfter(c.pending, t)
  {
  }

  /** An undue front means that nothing is due. */
  lemma NothingLeft(c: Clock)
    requires Inv(c) && (c.pending == [] || c.pending[0].when > c.totalTicks)
    ensures NothingDue(c)
  {
    FrontDecides(c, c.totalTicks);
  }

  /** Moving an idle clock on to the front of the queue. */
  lemma AdvanceKeepsInv(c: Clock)
    requires Inv(c) && c.pending != [] && c.pending[0].when > c.totalTicks
    ensures var c' := c.(idleTicks := c.idleTicks + (c.pending[0].when - c.totalTicks), totalTicks := c.pending[0].when);
            Inv(c') && NothingStale(c')
  {
    FrontDecides(c, c.pending[0].when - 1);
  }

  /** One tick of `n` time units, charged to the system or to the user. */
  lemma TickKeepsInv(c: Clock, c': Clock, n: int)
    requires Inv(c) && NothingDue(c) && 0 < n <= SYSTEM_TICK
    requires c' == c.(totalTicks := c.totalTicks + n, systemTicks := c.systemTicks + n) ||
             c' == c.(totalTicks := c.totalTicks + n, userTicks := c.userTicks + n)
    ensures Inv(c') && NothingStale(c')
  {
    hide FiringOrder, Accounted;
    OrderIgnoresTime(c, c');
  }

  lemma OrderIgnoresTime(c: Clock, c': Clock)
    requires c'.pending == c.pending && c'.fired == c.fired && c'.scheduled == c.scheduled
    ensures FiringOrder(c') == FiringOrder(c) && Accounted(c') == Accounted(c)
  {
  }

  /** In an ordered queue, an undue front means that nothing is due. */
  lemma FrontDecides(c: Clock, time: int)
    requires FiringOrder(c) && (c.pending == [] || c.pending[0].when > time)
    ensures AllAfter(c.pending, time)
  {
    forall p | p in c.pending
      ensures p.when > time
    {
      var i :| 0 <= i < |c.pending| && c.pending[i] == p;
      assert i > 0 ==> Before(c.pending[0], c.pending[i]);
    }
  }

  lemma HistoryInOrder(c: Clock, i: nat)
    requires Inv(c) && i < |c.fired|
    ensures forall j | i < j < |c.fired| :: Before(c.fired[i].what, c.fired[j].what)
    ensures c.fired[i].what.when <= c.fired[i].at < c.fired[i].what.when + SYSTEM_TICK
  {
    assert forall j | i < j < |c.fired| :: Before(Whats(c.fired)[i], Whats(c.fired)[j]);
    assert c.fired[i] in c.fired;
  }

  lemma FiredOrPending(c: Clock, p: PendingInterrupt)
    requires Inv(c) && NothingDue(c) && p in c.scheduled
    ensures p in Whats(c.fired) <==> p.when <= c.totalTicks
  {
    assert p in multiset(c.scheduled);
    assert p in multiset(Whats(c.fired)) || p in multiset(c.pending);
    if p in Whats(c.fired) {
      var i :| 0 <= i < |c.fired| && Whats(c.fired)[i] == p;
      assert c.fired[i] in c.fired;
    }
  }

  lemma PendingWasScheduled(c: Clock)
    requires Inv(c)
    ensures forall p | p in c.pending :: p in c.scheduled
  {
    hide FiringOrder, FiringTimes, SerialsKnown, Whats;
    forall p | p in c.pending
      ensures p in c.scheduled
    {
      assert p in multiset(c.pending);
      assert p in Accounted(c);
    }
  }

  /** Everything that was pending and is due has fired. */
  lemma FiredWhenDue(was: seq<PendingInterrupt>, before: Clock, after: Clock)
    requires Inv(after) && NothingDue(after) && before.scheduled <= after.scheduled
    requires forall p | p in was :: p in before.scheduled
    ensures forall p | p in was && p.when <= after.totalTicks :: p in Whats(after.fired)
  {
    forall p | p in was && p.when <= after.totalTicks
      ensures p in Whats(after.fired)
    {
      assert p in before.scheduled;
      var i :| 0 <= i < |before.scheduled| && before.scheduled[i] == p;
      assert after.scheduled[i] == p;
      FiredOrPending(after, p);
    }
  }

  // Whole runs.

  predicate FrontDue(c: Clock) {
    c.pending != [] && c.pending[0].when <= c.totalTicks
  }

  /** The front interrupt fires once for each element of `rounds`, which is what its handler schedules. */
  function FiredAll(c: Clock, rounds: seq<seq<Request>>): Clock {
    if rounds == [] then c
    else
      var before := FiredAll(c, rounds[..|rounds| - 1]);
      if before.pending == [] then before else Fire(before, rounds[|rounds| - 1])
  }

  /** Each of these firings finds the front interrupt due. */
  predicate OnlyDue(c: Clock, rounds: seq<seq<Request>>) {
    rounds == [] || (OnlyDue(c, rounds[..|rounds| - 1]) && FrontDue(FiredAll(c, rounds[..|rounds| - 1])))
  }

  /** The firing loop: it fires as long as the front interrupt is due; every handler schedules later than now. */
  predicate FiresWhatIsDue(c: Clock, rounds: seq<seq<Request>>, c': Clock) {
    OnlyDue(c, rounds) && (forall qs <- rounds :: Positive(qs)) && c' == FiredAll(c, rounds) && !FrontDue(c')
  }

  function Ticked(c: Clock, user: bool): Clock {
    if user then c.(totalTicks := c.totalTicks + USER_TICK, userTicks := c.userTicks + USER_TICK)
    else c.(totalTicks := c.totalTicks + SYSTEM_TICK, systemTicks := c.systemTicks + SYSTEM_TICK)
  }

  /** An idle clock goes on to the front interrupt, unless that is due already. */
  function MovedOn(c: Clock): Clock
    requires c.pending != []
  {
    var when := c.pending[0].when;
    if when > c.totalTicks then c.(idleTicks := c.idleTicks + (when - c.totalTicks), totalTicks := when) else c
  }

  /** What happens to the clock: a device asks for an interrupt, time ticks, or the machine idles. */
  datatype Action =
    | Scheduling(q: Request)
    | Ticking(user: bool, rounds: seq<seq<Request>>)
    | Idling(rounds: seq<seq<Request>>)

  predicate Does(c: Clock, a: Action, c': Clock) {
    match a
    case Scheduling(q) => q.fromNow > 0 && c' == WithScheduled(c, q)
    case Ticking(user, rounds) => FiresWhatIsDue(Ticked(c, user), rounds, c')
    case Idling(rounds) => c.pending != [] && FiresWhatIsDue(MovedOn(c), rounds, c')
  }

  predicate IsRun(run: seq<Clock>, actions: seq<Action>) {
    |run| == |actions| + 1 && AtStart(run[0]) && forall i | 0 <= i < |actions| :: Does(run[i], actions[i], run[i + 1])
  }

  lemma {:induction false} FiringKeepsInv(c: Clock, rounds: seq<seq<Request>>)
    requires Inv(c) && NothingStale(c) && OnlyDue(c, rounds) && forall qs <- rounds :: Positive(qs)
    ensures var c' := FiredAll(c, rounds); Inv(c') && NothingStale(c') && c'.totalTicks == c.totalTicks
  {
    hide Inv, NothingStale, Fire, Positive, DueCount;
    if rounds != [] {
      assert rounds[|rounds| - 1] in rounds;
      FiringKeepsInv(c, rounds[..|rounds| - 1]);
      FireKeepsInv(FiredAll(c, rounds[..|rounds| - 1]), rounds[|rounds| - 1]);
    }
  }

  lemma FiredOneMore(c: Clock, rounds: seq<seq<Request>>, qs: seq<Request>)
    requires OnlyDue(c, rounds) && FrontDue(FiredAll(c, rounds))
    ensures OnlyDue(c, rounds + [qs]) && FiredAll(c, rounds + [qs]) == Fire(FiredAll(c, rounds), qs)
  {
    hide Fire;
    assert (rounds + [qs])[..|rounds|] == rounds;
  }

  lemma NothingFired(c: Clock)
    requires !FrontDue(c)
    ensures FiresWhatIsDue(c, [], c)
  {
  }

  lemma StepKeepsInv(c: Clock, a: Action, c': Clock)
    requires Inv(c) && NothingDue(c) && NothingStale(c) && Does(c, a, c')
    ensures Inv(c') && NothingDue(c') && NothingStale(c')
  {
    hide Inv, NothingStale, FiredAll, OnlyDue, WithScheduled;
    match a
    case Scheduling(q) => ScheduleKeepsInv(c, q);
    case Ticking(user, rounds) =>
      TickKeepsInv(c, Ticked(c, user), Ticked(c, user).totalTicks - c.totalTicks);
      FiringKeepsInv(Ticked(c, user), rounds);
      NothingLeft(c');
    case Idling(rounds) =>
      assert c.pending[0] in c.pending;
      AdvanceKeepsInv(c);
      FiringKeepsInv(MovedOn(c), rounds);
      NothingLeft(c');
  }

  /** In every state of every run the tick counts add up, everything scheduled has fired or is pending, and nothing is due. */
  lemma {:induction false} RunKeepsInv(run: seq<Clock>, actions: seq<Action>, k: nat)
    requires IsRun(run, actions) && k < |run|
    ensures Inv(run[k]) && NothingDue(run[k]) && NothingStale(run[k])
  {
    hide Inv, NothingDue, NothingStale, Does, AtStart;
    if k == 0 {
      StartHasInv(run[0]);
    } else {
      RunKeepsInv(run, actions, k - 1);
      StepKeepsInv(run[k - 1], actions[k - 1], run[k]);
    }
  }

  /** What a run has fired: in order of due time, then of scheduling, never early and less than one tick late. */
  lemma RunInOrder(run: seq<Clock>, actions: seq<Action>, k: nat, i: nat)
    requires IsRun(run, actions) && k < |run| && i < |run[k].fired|
    ensures forall j | i < j < |run[k].fired| :: Before(run[k].fired[i].what, run[k].fired[j].what)
    ensures run[k].fired[i].what.when <= run[k].fired[i].at < run[k].fired[i].what.when + SYSTEM_TICK
  {
    hide Inv, Before, IsRun;
    RunKeepsInv(run, actions, k);
    HistoryInOrder(run[k], i);
  }

  /** In every state of a run the interrupts that have fired are exactly those whose time has come. */
  lemma FiredIffDue(run: seq<Clock>, actions: seq<Action>, k: nat, p: PendingInterrupt)
    requires IsRun(run, actions) && k < |run| && p in run[k].scheduled
    ensures p in Whats(run[k].fired) <==> p.when <= run[k].totalTicks
  {
    hide Inv, IsRun, Whats;
    RunKeepsInv(run, actions, k);
    FiredOrPending(run[k], p);
  }

  // What becomes of a request.

  /** Each interrupt carries the number of those scheduled before it. */
  ghost predicate Numbered(c: Clock) {
    forall j | 0 <= j < |c.scheduled| :: c.scheduled[j].serial == j
  }

  ghost predicate Extends(c: Clock, c': Clock) {
    c.scheduled <= c'.scheduled && (Numbered(c) ==> Numbered(c'))
  }

  lemma {:induction false} SchedulingExtends(c: Clock, qs: seq<Request>)
    ensures Extends(c, WithAllScheduled(c, qs))
    decreases |qs|
  {
    hide Inserted;
    if qs != [] {
      SchedulingExtends(WithScheduled(c, qs[0]), qs[1..]);
    }
  }

  /** Every request of a handler is queued, in turn, for its own handler and its own time. */
  lemma {:induction false} AllAreScheduled(c: Clock, qs: seq<Request>)
    ensures |WithAllScheduled(c, qs).scheduled| == |c.scheduled| + |qs|
    ensures forall i | 0 <= i < |qs| ::
              WithAllScheduled(c, qs).scheduled[|c.scheduled| + i] ==
              PendingInterrupt(qs[i].toCall, c.totalTicks + qs[i].fromNow, |c.scheduled| + i)
    decreases |qs|
  {
    hide Inserted;
    if qs != [] {
      AllAreScheduled(WithScheduled(c, qs[0]), qs[1..]);
      SchedulingExtends(WithScheduled(c, qs[0]), qs[1..]);
      assert forall i | 0 < i < |qs| :: qs[i] == qs[1..][i - 1];
    }
  }

  lemma {:induction false} FiringExtends(c: Clock, rounds: seq<seq<Request>>)
    ensures Extends(c, FiredAll(c, rounds))
  {
    hide WithAllScheduled;
    if rounds != [] {
      FiringExtends(c, rounds[..|rounds| - 1]);
      var before := FiredAll(c, rounds[..|rounds| - 1]);
      if before.pending != [] {
        SchedulingExtends(Removed(before), rounds[|rounds| - 1]);
      }
    }
  }

  lemma StepExtends(c: Clock, a: Action, c': Clock)
    requires Does(c, a, c')
    ensures Extends(c, c')
  {
    hide Inserted;
    match a
    case Scheduling(q) =>
    case Ticking(user, rounds) => FiringExtends(Ticked(c, user), rounds);
    case Idling(rounds) => FiringExtends(MovedOn(c), rounds);
  }

  lemma {:induction false} RunExtends(run: seq<Clock>, actions: seq<Action>, k: nat, n: nat)
    requires IsRun(run, actions) && k <= n < |run|
    ensures Extends(run[k], run[n])
    decreases n - k
  {
    hide Does, AtStart;
    if k < n {
      RunExtends(run, actions, k, n - 1);
      StepExtends(run[n - 1], actions[n - 1], run[n]);
    }
  }

  lemma FiredWasScheduled(c: Clock, i: nat)
    requires Inv(c) && i < |c.fired|
    ensures c.fired[i].what in c.scheduled
  {
    assert Whats(c.fired)[i] in multiset(Whats(c.fired));
    assert c.fired[i].what in Accounted(c);
  }

  /**
   * A request made in a run is served, by a call to its own handler, exactly when its time is over. `serial` tells it from
   * all others.
   */
  lemma RequestIsServed(run: seq<Clock>, actions: seq<Action>, k: nat, n: nat)
    requires IsRun(run, actions) && k < n < |run| && actions[k].Scheduling?
    ensures forall i | 0 <= i < |run[n].fired| && run[n].fired[i].what.serial == |run[k].scheduled| ::
              run[n].fired[i].what.callOnInterrupt == actions[k].q.toCall
    ensures (exists i :: 0 <= i < |run[n].fired| && run[n].fired[i].what.serial == |run[k].scheduled|) <==>
            run[n].totalTicks >= run[k].totalTicks + actions[k].q.fromNow
  {
    hide Inv, Inserted, Whats;
    var q := actions[k].q;
    var p := PendingInterrupt(q.toCall, run[k].totalTicks + q.fromNow, |run[k].scheduled|);
    assert Does(run[k], actions[k], run[k + 1]);
    RunExtends(run, actions, 0, n);
    RunExtends(run, actions, k + 1, n);
    assert run[n].scheduled[|run[k].scheduled|] == p;
    FiredIffDue(run, actions, n, p);
    RunKeepsInv(run, actions, n);
    forall i | 0 <= i < |run[n].fired| && run[n].fired[i].what.serial == p.serial
      ensures run[n].fired[i].what == p && p in Whats(run[n].fired)
    {
      FiredWasScheduled(run[n], i);
      assert Whats(run[n].fired)[i] == run[n].fired[i].what;
    }
    if p in Whats(run[n].fired) {
      var i :| 0 <= i < |Whats(run[n].fired)| && Whats(run[n].fired)[i] == p;
      assert run[n].fired[i].what == p;
    }
  }

  class Interrupt {
    var level: IntStatus
    var inHandler: bool
    var yieldOnReturn: bool
    var status: MachineStatus
    var pending: seq<PendingInterrupt>
    var totalTicks: int
    var idleTicks: int
    var systemTicks: int
    var userTicks: int
    ghost var fired: seq<Fired>
    ghost var scheduled: seq<PendingInterrupt>
    var created: nat  // how often `Schedule` has allocated

    ghost function Now(): Clock
      reads this
    {
      Clock(totalTicks, idleTicks, systemTicks, userTicks, pending, fired, scheduled)
    }

    ghost predicate Valid()
      reads this
    {
      Inv(Now()) && NothingStale(Now()) && created == |scheduled|
    }

    constructor ()
      ensures Valid() && NothingDue(Now()) && AtStart(Now())
      ensures level == IntOff && !inHandler && !yieldOnReturn && status == SystemMode
    {
      hide Inv, NothingStale, NothingDue;
      level, inHandler, yieldOnReturn, status := IntOff, false, false, SystemMode;
      pending, fired, scheduled, created := [], [], [], 0;
      totalTicks, idleTicks, systemTicks, userTicks := 0, 0, 0, 0;
      new;
      StartHasInv(Now());
    }

    /** `false` is the failed ASSERT that the interrupt lies in the future. */
    method Schedule(toCall: int, fromNow: int) returns (ok: bool)
      requires Valid()
      modifies this`pending, this`scheduled, this`created
      ensures ok <==> fromNow > 0
      ensures ok ==> Valid() && Does(old(Now()), Scheduling(Request(toCall, fromNow)), Now())
      ensures ok && old(NothingDue(Now())) ==> NothingDue(Now())
      ensures scheduled == old(scheduled) + if ok then [PendingInterrupt(toCall, totalTicks + fromNow, |old(scheduled)|)] else []
    {
      hide Inv, NothingStale, NothingDue, Inserted;
      if !(fromNow > 0) {
        return false;
      }
      ScheduleKeepsInv(Now(), Request(toCall, fromNow));
      var toOccur := PendingInterrupt(toCall, totalTicks + fromNow, created);
      pending := Inserted(pending, toOccur, PendingCompare);
      scheduled := scheduled + [toOccur];
      created := created + 1;
      return true;
    }

    /** Only a handler may ask for a context switch. */
    method YieldOnReturn() returns (ok: bool)
      modifies this`yieldOnReturn
      ensures ok == inHandler && yieldOnReturn == (ok || old(yieldOnReturn))
    {
      if !inHandler {
        return false;
      }
      yieldOnReturn := true;
      return true;
    }

    /** A handler: it schedules any number of interrupts, all in the future, and may ask for a context switch. */
    method CallBack(what: PendingInterrupt) returns (ghost requests: seq<Request>)
      requires Valid() && inHandler
      modifies this`pending, this`scheduled, this`created, this`yieldOnReturn
      ensures Positive(requests) && Now() == WithAllScheduled(old(Now()), requests) && created == |scheduled|
      ensures old(scheduled) <= scheduled && (old(yieldOnReturn) ==> yieldOnReturn)
      ensures Valid()
    {
      hide Inv, NothingStale, NothingDue, WithScheduled;
      var qs: seq<Request> :| Positive(qs);
      requests := qs;
      var i := 0;
      ghost var before := Now();
      while i < |qs|
        invariant old(scheduled) <= scheduled && yieldOnReturn == old(yieldOnReturn)
        invariant i <= |qs| && Positive(qs) && Valid() && WithAllScheduled(before, qs) == WithAllScheduled(Now(), qs[i..])
      {
        assert qs[i] in qs && qs[i..][1..] == qs[i + 1..];
        ScheduleFirst(Now(), qs[i..]);
        var ok := Schedule(qs[i].toCall, qs[i].fromNow);
        assert ok;
        i := i + 1;
      }
      NoneScheduled(Now());
      if * {
        var ok := YieldOnReturn();
      }
    }

    /** Fires everything that is due; afterwards nothing is. */
    method CheckIfDue(advanceClock: bool) returns (any: bool, ghost rounds: seq<seq<Request>>)
      requires Valid() && level == IntOff && !inHandler
      modifies this`pending, this`scheduled, this`created, this`yieldOnReturn, this`inHandler, this`totalTicks, this`idleTicks,
               this`fired
      ensures Valid() && NothingDue(Now()) && !inHandler
      ensures any <==> old(pending) != [] && (advanceClock || old(pending)[0].when <= old(totalTicks))
      ensures !any ==> Now() == old(Now()) && !FrontDue(Now())
      ensures any ==> FiresWhatIsDue(MovedOn(old(Now())), rounds, Now())
      ensures any ==> totalTicks == if old(pending)[0].when > old(totalTicks) then old(pending)[0].when else old(totalTicks)
      ensures any ==> old(fired) < fired && fired[|old(fired)|] == Fired(old(pending)[0], totalTicks)
      ensures old(scheduled) <= scheduled && (any ==> idleTicks == old(idleTicks) + totalTicks - old(totalTicks))
      ensures systemTicks == old(systemTicks) && userTicks == old(userTicks) && (old(yieldOnReturn) ==> yieldOnReturn)
    {
      hide Inv, NothingStale, NothingDue, FiresWhatIsDue;
      rounds := [];
      if pending == [] {
        NothingLeft(Now());
        return false, [];
      }
      var next := pending[0];
      if next.when > totalTicks {
        if !advanceClock {
          NothingLeft(Now());
          return false, [];
        } else {
          AdvanceKeepsInv(Now());
          idleTicks := idleTicks + (next.when - totalTicks);
          totalTicks := next.when;
        }
      }
      inHandler := true;
      rounds := FireDue();
      inHandler := false;
      return true, rounds;
    }

    /** The firing loop. */
    method FireDue() returns (ghost rounds: seq<seq<Request>>)
      requires Valid() && inHandler && FrontDue(Now())
      modifies this`pending, this`scheduled, this`created, this`yieldOnReturn, this`fired
      ensures Valid() && NothingDue(Now()) && FiresWhatIsDue(old(Now()), rounds, Now())
      ensures old(fired) < fired && fired[|old(fired)|] == Fired(old(pending)[0], totalTicks) && old(scheduled) <= scheduled
      ensures old(yieldOnReturn) ==> yieldOnReturn
    {
      hide Inv, NothingStale, NothingDue, DueCount, Fire;
      ghost var start := Now();
      var next; ghost var requests;
      next, requests := FireFront();
      rounds := [requests];
      FiredOneMore(start, [], requests);
      while pending != [] && pending[0].when <= totalTicks
        invariant Valid() && OnlyDue(start, rounds) && (forall qs <- rounds :: Positive(qs)) && Now() == FiredAll(start, rounds)
        invariant old(fired) < fired && fired[|old(fired)|] == Fired(old(pending)[0], totalTicks) && old(scheduled) <= scheduled
        invariant old(yieldOnReturn) ==> yieldOnReturn
        decreases DueCount(pending, totalTicks)
      {
        ghost var before := rounds;
        next, requests := FireFront();
        rounds := rounds + [requests];
        FiredOneMore(start, before, requests);
      }
      NothingLeft(Now());
    }

    /** One round of the firing loop. */
    method FireFront() returns (next: PendingInterrupt, ghost requests: seq<Request>)
      requires Valid() && inHandler && FrontDue(Now())
      modifies this`pending, this`scheduled, this`created, this`yieldOnReturn, this`fired
      ensures Valid() && Positive(requests) && Now() == Fire(old(Now()), requests)
      ensures next == old(pending)[0] && fired == old(fired) + [Fired(next, totalTicks)] && old(scheduled) <= scheduled
      ensures DueCount(pending, totalTicks) == DueCount(old(pending), totalTicks) - 1 && (old(yieldOnReturn) ==> yieldOnReturn)
    {
      hide Inv, NothingStale, NothingDue, DueCount, WithAllScheduled;
      ghost var before := Now();
      RemoveKeepsInv(before);
      next := pending[0];
      pending := pending[1..];
      fired := fired + [Fired(next, totalTicks)];
      requests := CallBack(next);
      FireKeepsInv(before, requests);
    }

    /** Time advances by one tick and what has become due fires; `yieldNow` asks the caller to yield the processor. */
    method OneTick() returns (yieldNow: bool, ghost rounds: seq<seq<Request>>)
      requires Valid() && NothingDue(Now()) && !inHandler
      modifies this
      ensures Valid() && NothingDue(Now()) && !inHandler && level == IntOn
      ensures Does(old(Now()), Ticking(old(status) != SystemMode, rounds), Now())
      ensures totalTicks == old(totalTicks) + if old(status) == SystemMode then SYSTEM_TICK else USER_TICK
      ensures idleTicks == old(idleTicks)
      ensures systemTicks == old(systemTicks) + if old(status) == SystemMode then SYSTEM_TICK else 0
      ensures !yieldOnReturn && status == if yieldNow then SystemMode else old(status)
      ensures old(yieldOnReturn) ==> yieldNow
      ensures forall p | p in old(pending) && p.when <= totalTicks :: p in Whats(fired)
    {
      hide Inv, NothingStale, NothingDue, FiresWhatIsDue, Whats;
      ghost var before := Now();
      if status == SystemMode {
        totalTicks := totalTicks + SYSTEM_TICK;
        systemTicks := systemTicks + SYSTEM_TICK;
      } else {
        totalTicks := totalTicks + USER_TICK;
        userTicks := userTicks + USER_TICK;
      }
      TickKeepsInv(before, Now(), totalTicks - before.totalTicks);
      level := IntOff;
      ghost var ticked := Now();
      var any;
      any, rounds := CheckIfDue(false);
      if !any {
        rounds := [];
        NothingFired(ticked);
      }
      level := IntOn;
      PendingWasScheduled(before);
      FiredWhenDue(before.pending, ticked, Now());
      yieldNow := yieldOnReturn;
      if yieldOnReturn {
        yieldOnReturn := false;
        status := SystemMode;
      }
    }

    /** `ok` is false where a handler tries to enable interrupts, which an ASSERT forbids. */
    method SetLevel(now: IntStatus) returns (ok: bool, was: IntStatus, yieldNow: bool)
      requires Valid() && (now == IntOn && level == IntOff && !inHandler ==> NothingDue(Now()))
      modifies this
      ensures ok <==> now == IntOff || !old(inHandler)
      ensures was == old(level)
      ensures ok ==> Valid() && level == now && inHandler == old(inHandler)
      ensures !ok ==> Now() == old(Now()) && level == old(level) && inHandler == old(inHandler)
      ensures ok && now == IntOn && was == IntOff ==> NothingDue(Now())
      ensures ok && !(now == IntOn && was == IntOff) ==> Now() == old(Now())
      ensures ok && now == IntOn && was == IntOff ==>
                totalTicks == old(totalTicks) + if old(status) == SystemMode then SYSTEM_TICK else USER_TICK
    {
      hide Inv, NothingStale, NothingDue;
      was, yieldNow := level, false;
      if !(now == IntOff || !inHandler) {
        return false, was, false;
      }
      level := now;
      if now == IntOn && was == IntOff {
        var must, _ := OneTick();
        yieldNow := must;
      }
      ok := true;
    }

    /** With nothing to run, time jumps to the next interrupt; with nothing pending either, the machine halts. */
    method Idle() returns (halted: bool, ghost rounds: seq<seq<Request>>)
      requires Valid() && NothingDue(Now()) && !inHandler && level == IntOff
      modifies this
      ensures Valid() && NothingDue(Now()) && !inHandler && level == IntOff
      ensures halted <==> old(pending) == []
      ensures !halted ==> Does(old(Now()), Idling(rounds), Now())
      ensures !halted ==>
                && status == SystemMode && totalTicks == old(pending)[0].when
                && idleTicks == old(idleTicks) + totalTicks - old(totalTicks)
                && old(fired) < fired && fired[|old(fired)|] == Fired(old(pending)[0], totalTicks)
    {
      hide Inv, NothingStale, Accounted;
      status := IdleMode;
      assert pending != [] ==> pending[0] in pending;
      var any;
      any, rounds := CheckIfDue(true);
      if any {
        status := SystemMode;
      }
      halted := !any;
    }
  }
}
