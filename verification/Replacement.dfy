/** code/vm/: which page the replacement strategy takes, over whole runs. */
module Replacements {
  import opened Words
  import opened Bitmaps
  import opened Paging

  /** `vm'` comes out of `vm` by an operation at time `now`. */
  ghost predicate Steps(vm: Vm, op: Op, now: int, vm': Vm) {
    Sensible(op) && (Inv(vm) ==> vm' == Apply(vm, op, now).1)
  }

  /** A run from a machine none of whose frames is in use; time never goes back, but may stand still between two accesses. */
  ghost predicate IsRun(run: seq<Vm>, ops: seq<Op>, times: seq<int>) {
    && |times| == |ops| == |run| - 1 && Inv(run[0]) && (forall f | 0 <= f < |run[0].used| :: !run[0].used[f])
    && (forall i, j | 0 <= i < j < |times| :: times[i] <= times[j])
    && forall i | 0 <= i < |ops| :: Steps(run[i], ops[i], times[i], run[i + 1])
  }

  /** The operation reads or writes the page. */
  predicate Uses(vm: Vm, op: Op, t: int, p: int) {
    match op
    case ReadOp(u, addr, size) => u == t && addr / PAGE_SIZE == p && InRange(vm, u, addr, size)
    case WriteOp(u, addr, size, _) => u == t && addr / PAGE_SIZE == p && InRange(vm, u, addr, size)
    case _ => false
  }

  predicate Resident(vm: Vm, t: int, p: int) {
    HasPage(vm, t, p) && EntryOf(vm, t, p).valid
  }

  predicate FrameInUse(vm: Vm, f: int) {
    0 <= f < |vm.used| && |vm.used| == |vm.owner| == |vm.lastUsed| && vm.used[f]
  }

  function PageIn(vm: Vm, f: int): PhyMemPageEntry
    requires FrameInUse(vm, f)
  {
    vm.owner[f]
  }

  /** Frame `f` holds the same page since the same time. */
  predicate Kept(vm: Vm, vm': Vm, f: int) {
    FrameInUse(vm, f) && FrameInUse(vm', f) && vm'.owner[f] == vm.owner[f] && vm'.lastUsed[f] == vm.lastUsed[f]
  }

  predicate Brought(vm: Vm, t: int, p: int, now: int, vm': Vm, f: int) {
    FrameInUse(vm', f) && vm'.owner[f] == PhyMemPageEntry(t, p) && vm'.lastUsed[f] == now && HasPage(vm, t, p) && !Resident(vm, t, p)
  }

  lemma FaultTracks(vm: Vm, t: int, p: int, now: int, f: int)
    requires Inv(vm) && HasPage(vm, t, p) && FrameInUse(PageFault(vm, t, p, now), f)
    ensures Kept(vm, PageFault(vm, t, p, now), f) || Brought(vm, t, p, now, PageFault(vm, t, p, now), f)
  {
    if FirstClear(vm.used) == -1 {
      assert vm.used[f];
      EvictKeeps(vm, Oldest(vm.lastUsed, |vm.lastUsed|));
    }
  }

  lemma AccessTracks(vm: Vm, t: int, addr: word, size: nat, writing: bool, now: int, f: int)
    requires Inv(vm) && InRange(vm, t, addr, size) && FrameInUse(Access(vm, t, addr, size, writing, now).1, f)
    ensures var vm' := Access(vm, t, addr, size, writing, now).1;
            Kept(vm, vm', f) || Brought(vm, t, addr / PAGE_SIZE, now, vm', f)
  {
    hide PageFault;
    RangeHasPage(vm, t, addr, size);
    if !Resident(vm, t, addr / PAGE_SIZE) {
      PageFaultKeeps(vm, t, addr / PAGE_SIZE, now);
      FaultTracks(vm, t, addr / PAGE_SIZE, now, f);
    }
  }

  /** After a step, each frame in use holds what it held, or a page that this step used and that was not in memory. */
  lemma StepTracks(vm: Vm, op: Op, now: int, vm': Vm, f: int)
    requires Inv(vm) && Steps(vm, op, now, vm') && FrameInUse(vm', f)
    ensures Kept(vm, vm', f) || (Uses(vm, op, PageIn(vm', f).mainThreadId, PageIn(vm', f).virtualPage) &&
                                 Brought(vm, PageIn(vm', f).mainThreadId, PageIn(vm', f).virtualPage, now, vm', f))
  {
    hide Access, LoadedWord, StoredPage;
    match op
    case CreateOp(t, image) =>
    case DeleteOp(t) =>
    case ReadOp(t, addr, size) =>
      if InRange(vm, t, addr, size) {
        AccessTracks(vm, t, addr, size, false, now, f);
      } else if t in vm.spaces {
        OutOfRangeFails(vm, t, addr, size, 0, now);
      }
    case WriteOp(t, addr, size, value) =>
      if InRange(vm, t, addr, size) {
        AccessTracks(vm, t, addr, size, true, now, f);
      } else if t in vm.spaces {
        OutOfRangeFails(vm, t, addr, size, value, now);
      }
  }

  lemma {:induction false} RunKeepsInv(run: seq<Vm>, ops: seq<Op>, times: seq<int>, i: nat)
    requires IsRun(run, ops, times) && i < |run|
    ensures Inv(run[i])
  {
    hide InvBut, Apply, ApplyFlat, Meaning;
    if i > 0 {
      RunKeepsInv(run, ops, times, i - 1);
      assert Steps(run[i - 1], ops[i - 1], times[i - 1], run[i]);
      ApplyAgrees(run[i - 1], ops[i - 1], times[i - 1]);
    }
  }

  /** Step `j` brought the page into memory, and it has stayed there until state `i`. */
  ghost predicate BroughtAt(run: seq<Vm>, i: nat, t: int, p: int, j: nat) {
    && j < i < |run| && HasPage(run[j], t, p) && !Resident(run[j], t, p)
    && forall k | j < k <= i :: Resident(run[k], t, p)
  }

  lemma FrameHoldsPage(vm: Vm, f: int)
    requires Inv(vm) && FrameInUse(vm, f)
    ensures Resident(vm, PageIn(vm, f).mainThreadId, PageIn(vm, f).virtualPage)
  {
    assert FrameOk(vm, f);
  }

  /** The weight of a frame is the time at which its page was brought in, by a step that used the page. */
  lemma {:induction false} WeightIsLoadTime(run: seq<Vm>, ops: seq<Op>, times: seq<int>, i: nat, f: int) returns (j: nat)
    requires IsRun(run, ops, times) && i < |run| && FrameInUse(run[i], f)
    ensures BroughtAt(run, i, PageIn(run[i], f).mainThreadId, PageIn(run[i], f).virtualPage, j)
    ensures run[i].lastUsed[f] == times[j]
    ensures Uses(run[j], ops[j], PageIn(run[i], f).mainThreadId, PageIn(run[i], f).virtualPage)
  {
    hide Inv, Apply, Uses;
    RunKeepsInv(run, ops, times, i);
    FrameHoldsPage(run[i], f);
    RunKeepsInv(run, ops, times, i - 1);
    StepTracks(run[i - 1], ops[i - 1], times[i - 1], run[i], f);
    if Kept(run[i - 1], run[i], f) {
      j := WeightIsLoadTime(run, ops, times, i - 1, f);
    } else {
      j := i - 1;
    }
  }

  /** The last step before state `i` that used the page; -1 if none has. */
  ghost function LastUse(run: seq<Vm>, ops: seq<Op>, i: nat, t: int, p: int): (j: int)
    requires i <= |ops| < |run|
    ensures -1 <= j < i && (j >= 0 ==> Uses(run[j], ops[j], t, p)) && forall k | j < k < i :: !Uses(run[k], ops[k], t, p)
  {
    if i == 0 then -1 else if Uses(run[i - 1], ops[i - 1], t, p) then i - 1 else LastUse(run, ops, i - 1, t, p)
  }

  /** When the page in frame `f` was last used. */
  ghost function LastUseIn(run: seq<Vm>, ops: seq<Op>, i: nat, f: int): int
    requires i <= |ops| < |run| && FrameInUse(run[i], f)
  {
    LastUse(run, ops, i, PageIn(run[i], f).mainThreadId, PageIn(run[i], f).virtualPage)
  }

  /** No page in memory has gone unused for longer than the one in frame `f`. */
  ghost predicate LeastRecentlyUsed(run: seq<Vm>, ops: seq<Op>, i: nat, f: int)
    requires i <= |ops| < |run|
  {
    FrameInUse(run[i], f) && forall g | FrameInUse(run[i], g) :: LastUseIn(run, ops, i, f) <= LastUseIn(run, ops, i, g)
  }

  /** The operation needs a page that is not in memory, and every frame is taken. */
  ghost predicate Replaces(vm: Vm, op: Op, t: int, p: int) {
    Uses(vm, op, t, p) && !Resident(vm, t, p) && |vm.lastUsed| > 0 && forall f | 0 <= f < |vm.used| :: vm.used[f]
  }

  /** The frame of least weight. */
  function Victim(vm: Vm): nat
    requires |vm.lastUsed| > 0
  {
    Oldest(vm.lastUsed, |vm.lastUsed|)
  }

  lemma FaultTakesVictim(vm: Vm, t: int, p: int, now: int)
    requires Inv(vm) && HasPage(vm, t, p) && !Resident(vm, t, p) && forall f | 0 <= f < |vm.used| :: vm.used[f]
    ensures |vm.lastUsed| > 0 && FrameInUse(vm, Victim(vm))
    ensures var vm', v := PageFault(vm, t, p, now), PageIn(vm, Victim(vm));
            && Resident(vm, v.mainThreadId, v.virtualPage) && !Resident(vm', v.mainThreadId, v.virtualPage)
            && (forall u, q | Resident(vm, u, q) && PhyMemPageEntry(u, q) != v :: Resident(vm', u, q))
  {
    var f := Oldest(vm.lastUsed, |vm.lastUsed|);
    assert FirstClear(vm.used) == -1;
    EvictKeeps(vm, f);
    FrameHoldsPage(vm, f);
    var v, vm' := PageIn(vm, f), PageFault(vm, t, p, now);
    assert HasPage(Evicted(vm, f), t, p);
    assert HasPage(Evicted(vm, f), v.mainThreadId, v.virtualPage);
    forall u, q | Resident(vm, u, q) && PhyMemPageEntry(u, q) != v
      ensures Resident(vm', u, q)
    {
      assert HasPage(Evicted(vm, f), u, q);
    }
  }

  lemma AccessTakesVictim(vm: Vm, t: int, addr: word, size: nat, writing: bool, now: int)
    requires Inv(vm) && InRange(vm, t, addr, size) && !Resident(vm, t, addr / PAGE_SIZE) && forall f | 0 <= f < |vm.used| :: vm.used[f]
    ensures |vm.lastUsed| > 0 && FrameInUse(vm, Victim(vm))
    ensures var vm', v := Access(vm, t, addr, size, writing, now).1, PageIn(vm, Victim(vm));
            && Resident(vm, v.mainThreadId, v.virtualPage) && !Resident(vm', v.mainThreadId, v.virtualPage)
            && (forall u, q | Resident(vm, u, q) && PhyMemPageEntry(u, q) != v :: Resident(vm', u, q))
  {
    hide PageFault, Victim;
    var p := addr / PAGE_SIZE;
    RangeHasPage(vm, t, addr, size);
    FaultTakesVictim(vm, t, p, now);
    PageFaultKeeps(vm, t, p, now);
    var vm1, vm' := PageFault(vm, t, p, now), Access(vm, t, addr, size, writing, now).1;
    forall u, q
      ensures Resident(vm', u, q) == Resident(vm1, u, q)
    {
    }
  }

  /** Of the pages in memory, exactly the one in the frame of least weight goes. */
  lemma VictimGoes(vm: Vm, op: Op, now: int, vm': Vm, t: int, p: int)
    requires Inv(vm) && Steps(vm, op, now, vm') && Replaces(vm, op, t, p)
    ensures FrameInUse(vm, Victim(vm))
    ensures forall u, q | Resident(vm, u, q) :: !Resident(vm', u, q) <==> PageIn(vm, Victim(vm)) == PhyMemPageEntry(u, q)
  {
    hide Access, LoadedWord, StoredPage, Inv, Victim;
    match op
    case ReadOp(u, addr, size) => AccessTakesVictim(vm, u, addr, size, false, now);
    case WriteOp(u, addr, size, value) => AccessTakesVictim(vm, u, addr, size, true, now);
  }

  /** The page that goes is the one that was brought in first. */
  lemma VictimCameFirst(run: seq<Vm>, ops: seq<Op>, times: seq<int>, i: nat, t: int, p: int, g: int) returns (jv: nat, jg: nat)
    requires IsRun(run, ops, times) && i < |ops| && Replaces(run[i], ops[i], t, p) && FrameInUse(run[i], g)
    ensures FrameInUse(run[i], Victim(run[i]))
    ensures var v := PageIn(run[i], Victim(run[i])); BroughtAt(run, i, v.mainThreadId, v.virtualPage, jv)
    ensures BroughtAt(run, i, PageIn(run[i], g).mainThreadId, PageIn(run[i], g).virtualPage, jg)
    ensures jv < |times| && jg < |times| && times[jv] <= times[jg]
  {
    hide Inv, Replaces, Uses, Apply;
    RunKeepsInv(run, ops, times, i);
    VictimGoes(run[i], ops[i], times[i], run[i + 1], t, p);
    jv := WeightIsLoadTime(run, ops, times, i, Victim(run[i]));
    jg := WeightIsLoadTime(run, ops, times, i, g);
  }

  lemma UsedSinceBrought(run: seq<Vm>, ops: seq<Op>, times: seq<int>, i: nat, f: int) returns (j: nat)
    requires IsRun(run, ops, times) && i < |run| && FrameInUse(run[i], f)
    ensures BroughtAt(run, i, PageIn(run[i], f).mainThreadId, PageIn(run[i], f).virtualPage, j)
    ensures run[i].lastUsed[f] == times[j] && j <= LastUseIn(run, ops, i, f)
  {
    hide Inv, Uses, Apply;
    j := WeightIsLoadTime(run, ops, times, i, f);
  }

  /**
   * Replacement is first in, first out. It takes the least recently used page exactly if every page that was brought in
   * by the time of the victim's last use has been used since; pages brought in later need not be looked at.
   */
  lemma VictimIsLruIff(run: seq<Vm>, ops: seq<Op>, times: seq<int>, i: nat, t: int, p: int)
    requires IsRun(run, ops, times) && i < |ops| && Replaces(run[i], ops[i], t, p)
    ensures FrameInUse(run[i], Victim(run[i]))
    ensures var use := LastUseIn(run, ops, i, Victim(run[i]));
            && 0 <= use < i
            && (LeastRecentlyUsed(run, ops, i, Victim(run[i])) <==>
                forall g | FrameInUse(run[i], g) && run[i].lastUsed[g] <= times[use] :: use <= LastUseIn(run, ops, i, g))
  {
    hide Inv, Uses, Apply, Replaces, BroughtAt, Victim, LastUse;
    RunKeepsInv(run, ops, times, i);
    VictimGoes(run[i], ops[i], times[i], run[i + 1], t, p);
    var v := Victim(run[i]);
    var _ := UsedSinceBrought(run, ops, times, i, v);
    var use := LastUseIn(run, ops, i, v);
    forall g | FrameInUse(run[i], g) && run[i].lastUsed[g] > times[use]
      ensures use <= LastUseIn(run, ops, i, g)
    {
      var _ := UsedSinceBrought(run, ops, times, i, g);
    }
  }

  /** In particular a page that goes without having been used again is the least recently used one, if time always moves on. */
  lemma UntouchedVictimIsLru(run: seq<Vm>, ops: seq<Op>, times: seq<int>, i: nat, t: int, p: int)
    requires IsRun(run, ops, times) && i < |ops| && Replaces(run[i], ops[i], t, p)
    requires forall k, l | 0 <= k < l < |times| :: times[k] < times[l]
    requires FrameInUse(run[i], Victim(run[i])) && 0 <= LastUseIn(run, ops, i, Victim(run[i]))
    requires run[i].lastUsed[Victim(run[i])] == times[LastUseIn(run, ops, i, Victim(run[i]))]
    ensures LeastRecentlyUsed(run, ops, i, Victim(run[i]))
  {
    hide Inv, Uses, Apply, Replaces, BroughtAt, LastUse;
    forall g | FrameInUse(run[i], g)
      ensures LastUseIn(run, ops, i, Victim(run[i])) <= LastUseIn(run, ops, i, g)
    {
      var _ := UsedSinceBrought(run, ops, times, i, g);
    }
  }

  // The shortest run in which the victim is not the least recently used page.

  /** Two frames with pages 0, 1 and 2 of a space: page 0 comes in, page 1 comes in, page 0 is used again, page 2 is needed. */
  function Reads(image: seq<Page>): seq<Op> {
    [CreateOp(0, image), ReadOp(0, 0, 1), ReadOp(0, PAGE_SIZE, 1), ReadOp(0, 0, 1), ReadOp(0, 2 * PAGE_SIZE, 1)]
  }

  /** The machine with two frames and one space of three pages; `in0` and so on are the frames of the pages, or -1. */
  predicate Holds(vm: Vm, image: seq<Page>, used: seq<bool>, lastUsed: seq<int>, in0: int, in1: int) {
    && |image| == 3 && |vm.memory| == |vm.owner| == 2 && vm.used == used && vm.lastUsed == lastUsed
    && vm.spaces.Keys == {0} && vm.spaces[0].backing == image
    && vm.spaces[0].pageTable == [TranslationEntry(in0, in0 != -1, false, false), TranslationEntry(in1, in1 != -1, false, false),
                                  TranslationEntry(-1, false, false, false)]
    && (in0 != -1 ==> 0 <= in0 < 2 && vm.owner[in0] == PhyMemPageEntry(0, 0))
    && (in1 != -1 ==> 0 <= in1 < 2 && vm.owner[in1] == PhyMemPageEntry(0, 1))
  }

  lemma FirstRead(vm: Vm, image: seq<Page>, now: int)
    requires Inv(vm) && Holds(vm, image, [false, false], [-1, -1], -1, -1)
    ensures Holds(Apply(vm, ReadOp(0, 0, 1), now).1, image, [true, false], [now, -1], 0, -1)
  {
    assert FirstClear(vm.used) == 0;
  }

  lemma SecondRead(vm: Vm, image: seq<Page>, t0: int, now: int)
    requires Inv(vm) && Holds(vm, image, [true, false], [t0, -1], 0, -1)
    ensures Holds(Apply(vm, ReadOp(0, PAGE_SIZE, 1), now).1, image, [true, true], [t0, now], 0, 1)
  {
    assert FirstClear(vm.used) == 1;
  }

  lemma SpaceMade(vm: Vm, image: seq<Page>)
    requires Inv(vm) && |vm.memory| == 2 && vm.used == [false, false] && vm.lastUsed == [-1, -1] && vm.spaces == map[] && vm.virtPageNums == 0
    requires |image| == 3
    ensures Holds(Apply(vm, CreateOp(0, image), 0).1, image, [false, false], [-1, -1], -1, -1)
  {
  }

  lemma ThirdRead(vm: Vm, image: seq<Page>, now: int)
    requires Inv(vm) && Holds(vm, image, [true, true], [1, 2], 0, 1)
    ensures Apply(vm, ReadOp(0, 0, 1), now).1 == vm
  {
  }

  predicate TwoEmptyFrames(vm: Vm) {
    |vm.memory| == 2 && vm.used == [false, false] && vm.lastUsed == [-1, -1] && vm.spaces == map[] && vm.virtPageNums == 0
  }

  /** The states of the run. */
  lemma ReadsRun(vm: Vm, image: seq<Page>) returns (run: seq<Vm>)
    requires Inv(vm) && TwoEmptyFrames(vm) && |image| == 3
    ensures |run| == 6 && run[0] == vm && forall i | 0 <= i < 5 :: Steps(run[i], Reads(image)[i], i, run[i + 1])
    ensures Holds(run[2], image, [true, false], [1, -1], 0, -1)
    ensures Holds(run[3], image, [true, true], [1, 2], 0, 1) && run[4] == run[3] && Inv(run[4])
  {
    hide Inv, Apply, ApplyFlat, Meaning;
    var ops := Reads(image);
    ApplyAgrees(vm, ops[0], 0);
    var vm1 := Apply(vm, ops[0], 0).1;
    ApplyAgrees(vm1, ops[1], 1);
    var vm2 := Apply(vm1, ops[1], 1).1;
    ApplyAgrees(vm2, ops[2], 2);
    var vm3 := Apply(vm2, ops[2], 2).1;
    SpaceMade(vm, image);
    FirstRead(vm1, image, 1);
    SecondRead(vm2, image, 1, 2);
    ThirdRead(vm3, image, 3);
    run := [vm, vm1, vm2, vm3, vm3, Apply(vm3, ops[4], 4).1];
  }

  lemma TwoUses(run: seq<Vm>, image: seq<Page>)
    requires |run| == 6 && Holds(run[3], image, [true, true], [1, 2], 0, 1) && Holds(run[2], image, [true, false], [1, -1], 0, -1)
    requires run[4] == run[3]
    ensures LastUse(run, Reads(image), 4, 0, 0) == 3 && LastUse(run, Reads(image), 4, 0, 1) == 2
    ensures Victim(run[4]) == 0 && !LeastRecentlyUsed(run, Reads(image), 4, 0)
  {
    hide LastUse, Uses;
    var ops := Reads(image);
    assert Uses(run[3], ops[3], 0, 0) && !Uses(run[3], ops[3], 0, 1) && Uses(run[2], ops[2], 0, 1) by { UsesAre(run, image); }
    assert FrameInUse(run[4], 1);
  }

  lemma UsesAre(run: seq<Vm>, image: seq<Page>)
    requires |run| == 6 && Holds(run[3], image, [true, true], [1, 2], 0, 1) && Holds(run[2], image, [true, false], [1, -1], 0, -1)
    ensures Uses(run[3], Reads(image)[3], 0, 0) && !Uses(run[3], Reads(image)[3], 0, 1) && Uses(run[2], Reads(image)[2], 0, 1)
  {
  }

  /** The page that goes is the one used last, not the one that has gone unused longest. */
  lemma LastUsedPageGoes(vm: Vm, image: seq<Page>) returns (run: seq<Vm>)
    requires Inv(vm) && TwoEmptyFrames(vm) && |image| == 3
    ensures IsRun(run, Reads(image), [0, 1, 2, 3, 4]) && run[0] == vm
    ensures LastUse(run, Reads(image), 4, 0, 0) == 3 && LastUse(run, Reads(image), 4, 0, 1) == 2
    ensures Resident(run[4], 0, 0) && Resident(run[4], 0, 1) && !Resident(run[5], 0, 0) && Resident(run[5], 0, 1)
    ensures |run[4].lastUsed| == 2 && !LeastRecentlyUsed(run, Reads(image), 4, Victim(run[4]))
  {
    hide Inv, Steps, LastUse, LeastRecentlyUsed;
    run := ReadsRun(vm, image);
    TwoUses(run, image);
    ThirdMisses(run[4], image);
    VictimGoes(run[4], Reads(image)[4], 4, run[5], 0, 2);
  }

  lemma ThirdMisses(vm: Vm, image: seq<Page>)
    requires Holds(vm, image, [true, true], [1, 2], 0, 1)
    ensures Replaces(vm, Reads(image)[4], 0, 2) && Resident(vm, 0, 0) && Resident(vm, 0, 1)
  {
  }
}
