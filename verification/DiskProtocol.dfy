/** code/filesys/synchdisk.cc: the cached disk under any number of threads. */
module DiskProtocols {
  import opened ThreadIds
  import opened SynchDisks
  import D = DeviceProtocols

  datatype Request = Read(sector: nat) | Write(sector: nat, data: Sector)

  /** What has been done to the disk, in order; a read records what it returns. */
  datatype Event = DidRead(sector: nat, data: Sector) | DidWrite(sector: nat, data: Sector)

  datatype State = State(device: D.Device<Request>, sectors: Disk, cache: seq<CacheEntry>, initial: Disk, log: seq<Event>)

  /** The free choices of a step: the request an idle thread makes, the cache entry found or replaced, the clock. */
  datatype Choice = Choice(request: Request, entry: nat, ticks: int)

  /** Thread `t` can take a step; a lookup that can hit does hit. */
  predicate CanStep(s: State, t: Tid, c: Choice) {
    && D.CanStep(s.device, t) && c.request.sector < NUM_SECTORS && c.entry < |s.cache|
    && var pc := s.device.pcs[t];
       pc.Issuing? ==>
         && pc.request.sector < NUM_SECTORS
         && (Cached(s.cache, pc.request.sector, c.entry) || forall i | 0 <= i < |s.cache| :: !Cached(s.cache, pc.request.sector, i))
  }

  /** The step sends a request to the drive, rather than find the sector in the cache. */
  predicate SendsRequest(s: State, t: Tid, c: Choice)
    requires CanStep(s, t, c)
  {
    var pc := s.device.pcs[t];
    pc.Issuing? && (pc.request.Write? || !Cached(s.cache, pc.request.sector, c.entry))
  }

  /** The drive's ASSERT that it has no other request. */
  predicate AssertHolds(s: State, t: Tid, c: Choice)
    requires CanStep(s, t, c)
  {
    SendsRequest(s, t, c) ==> !s.device.active
  }

  /** What an issuing thread does to the cache, the sectors and the history: what the locked parts of the class do. */
  function Perform(s: State, q: Request, c: Choice): State
    requires q.sector < NUM_SECTORS && c.entry < |s.cache|
  {
    if q.Write? then
      s.(sectors := s.sectors[q.sector := q.data], cache := Invalidated(s.cache, q.sector),
         log := s.log + [DidWrite(q.sector, q.data)])
    else
      s.(cache := AfterRead(s.cache, s.sectors, q.sector, c.entry, c.ticks),
         log := s.log + [DidRead(q.sector, ReadThrough(s.cache, s.sectors, q.sector, c.entry))])
  }

  function Step(s: State, t: Tid, c: Choice): State
    requires CanStep(s, t, c)
  {
    var pc := s.device.pcs[t];
    var s1 := if pc.Issuing? then Perform(s, pc.request, c) else s;
    s1.(device := D.Step(s.device, t, c.request, SendsRequest(s, t, c)))
  }

  predicate Init(s: State) {
    && D.Init(s.device) && s.sectors == s.initial && s.log == []
    && |s.cache| > 0 && forall i | 0 <= i < |s.cache| :: s.cache[i].valid == -1
  }

  function Replayed(d: Disk, log: seq<Event>): Disk {
    if log == [] then d
    else
      var e := log[|log| - 1];
      var before := Replayed(d, log[..|log| - 1]);
      if e.DidWrite? && e.sector < NUM_SECTORS then before[e.sector := e.data] else before
  }

  /** Every read returned what the writes before it had left in its sector. */
  ghost predicate ReadsRight(d: Disk, log: seq<Event>) {
    forall i | 0 <= i < |log| && log[i].DidRead? :: log[i].sector < NUM_SECTORS && log[i].data == Replayed(d, log[..i])[log[i].sector]
  }

  ghost predicate DataOk(s: State) {
    && Coherent(s.cache, s.sectors) && |s.cache| > 0
    && s.sectors == Replayed(s.initial, s.log) && ReadsRight(s.initial, s.log)
  }

  lemma ReplaySnoc(d: Disk, log: seq<Event>, e: Event)
    ensures Replayed(d, log + [e]) == if e.DidWrite? && e.sector < NUM_SECTORS then Replayed(d, log)[e.sector := e.data] else Replayed(d, log)
    ensures ReadsRight(d, log) && (e.DidRead? ==> e.sector < NUM_SECTORS && e.data == Replayed(d, log)[e.sector]) ==> ReadsRight(d, log + [e])
  {
    var log' := log + [e];
    assert log'[..|log|] == log;
    forall i | 0 <= i < |log|
      ensures log'[..i] == log[..i]
    {
    }
  }

  lemma PerformKeepsData(s: State, q: Request, c: Choice)
    requires DataOk(s) && q.sector < NUM_SECTORS && c.entry < |s.cache|
    requires q.Read? ==> Cached(s.cache, q.sector, c.entry) || forall i | 0 <= i < |s.cache| :: !Cached(s.cache, q.sector, i)
    ensures DataOk(Perform(s, q, c))
  {
    hide Replayed, ReadsRight, Coherent, ReadThrough;
    var s' := Perform(s, q, c);
    var e := s'.log[|s.log|];
    assert s'.log == s.log + [e];
    ReplaySnoc(s.initial, s.log, e);
    if q.Read? {
      ReadKeepsCoherent(s.cache, s.sectors, q.sector, c.entry, c.ticks);
    } else {
      WriteKeepsCoherent(s.cache, s.sectors, q.sector, q.data);
    }
  }

  lemma StepKeepsInv(s: State, t: Tid, c: Choice)
    requires D.Inv(s.device) && DataOk(s) && CanStep(s, t, c)
    ensures D.Inv(Step(s, t, c).device) && DataOk(Step(s, t, c)) && AssertHolds(s, t, c)
  {
    hide D.Inv, Perform, Replayed, ReadsRight, Coherent, D.Step;
    D.StepKeepsInv(s.device, t, c.request, SendsRequest(s, t, c));
    if s.device.pcs[t].Issuing? {
      PerformKeepsData(s, s.device.pcs[t].request, c);
    }
  }

  ghost predicate Next(s: State, s': State) {
    || (exists t: Tid, c: Choice :: CanStep(s, t, c) && s' == Step(s, t, c))
    || (s.device.active && s' == s.(device := D.Interrupted(s.device)))
  }

  ghost predicate IsRun(run: seq<State>) {
    |run| > 0 && Init(run[0]) && forall i | 0 <= i < |run| - 1 :: Next(run[i], run[i + 1])
  }

  lemma {:induction false} RunKeepsInv(run: seq<State>, i: nat)
    requires IsRun(run) && i < |run|
    ensures D.Inv(run[i].device) && DataOk(run[i])
  {
    hide CanStep, Step, D.Inv, D.Interrupted, D.Init;
    if i == 0 {
      D.InitHasInv(run[0].device);
    } else {
      RunKeepsInv(run, i - 1);
      var s := run[i - 1];
      assert Next(s, run[i - 1 + 1]);
      if s.device.active && run[i] == s.(device := D.Interrupted(s.device)) {
        D.InterruptKeepsInv(s.device);
      } else {
        var t: Tid, c: Choice :| CanStep(s, t, c) && run[i] == Step(s, t, c);
        StepKeepsInv(s, t, c);
      }
    }
  }

  /**
   * In every state of every run: the drive is never asked twice, its semaphore and `active` flag count the request
   * that is out, and every read has returned the last data written to its sector.
   */
  lemma Safety(run: seq<State>, i: nat)
    requires IsRun(run) && i < |run|
    ensures var s := run[i];
      && (forall t: Tid, c: Choice | CanStep(s, t, c) :: AssertHolds(s, t, c))
      && s.device.semaphore.value + (if s.device.active then 1 else 0) == |D.Waiting(s.device)| <= 1
      && s.sectors == Replayed(s.initial, s.log) && ReadsRight(s.initial, s.log) && Coherent(s.cache, s.sectors)
  {
    hide Step, Replayed, ReadsRight, Coherent, D.Inv;
    var s := run[i];
    RunKeepsInv(run, i);
    D.OneRequest(s.device);
    forall t: Tid, c: Choice | CanStep(s, t, c)
      ensures AssertHolds(s, t, c)
    {
      StepKeepsInv(s, t, c);
    }
  }

  /** A run that comes to rest has no thread left in the middle of a read or write. */
  lemma NobodyStuck(run: seq<State>, i: nat)
    requires IsRun(run) && i < |run| && !run[i].device.active
    requires forall t: Tid | t < |run[i].device.pcs| :: run[i].device.pcs[t].Idle? || !D.Runnable(run[i].device.pcs[t])
    ensures forall t: Tid | t < |run[i].device.pcs| :: run[i].device.pcs[t].Idle?
  {
    RunKeepsInv(run, i);
    D.NobodyStuck(run[i].device);
  }
}
