/** code/vm/: page tables, the inverted frame table, replacement and write-back. */
module Paging {
  import opened Words
  import opened Wrappers
  import opened Bitmaps

  const PAGE_SIZE := 128
  const MAX_VIRT_PAGES := 4096

  type Page = s: seq<byte> | |s| == PAGE_SIZE witness seq(PAGE_SIZE, i => 0)

  datatype TranslationEntry = TranslationEntry(physicalPage: int, valid: bool, readOnly: bool, dirty: bool)

  /** `backing` is what the private file of the address space holds behind its header, page by page. */
  datatype AddrSpace = AddrSpace(pageTable: seq<TranslationEntry>, backing: seq<Page>)

  datatype PhyMemPageEntry = PhyMemPageEntry(mainThreadId: int, virtualPage: int)

  datatype Vm = Vm(
    memory: seq<Page>,               // main memory, frame by frame
    used: seq<bool>,                 // the frame bitmap
    owner: seq<PhyMemPageEntry>,     // the inverted page table
    lastUsed: seq<int>,              // the weights of the replacement strategy
    spaces: map<int, AddrSpace>, virtPageNums: int)

  predicate HasPage(vm: Vm, t: int, p: int) {
    t in vm.spaces && 0 <= p < |vm.spaces[t].pageTable| == |vm.spaces[t].backing|
  }

  function EntryOf(vm: Vm, t: int, p: int): TranslationEntry
    requires HasPage(vm, t, p)
  {
    vm.spaces[t].pageTable[p]
  }

  /** A valid entry and its frame point to each other, and a clean frame equals its page in the file. */
  predicate EntryOk(vm: Vm, t: int, p: int)
    requires |vm.used| == |vm.owner| == |vm.memory| && HasPage(vm, t, p)
  {
    var e := EntryOf(vm, t, p);
    && !e.readOnly
    && (e.valid ==>
          && 0 <= e.physicalPage < |vm.memory| && vm.used[e.physicalPage] && vm.owner[e.physicalPage] == PhyMemPageEntry(t, p)
          && (!e.dirty ==> vm.memory[e.physicalPage] == vm.spaces[t].backing[p]))
  }

  /** A frame in use belongs to a valid entry that points to it. */
  predicate FrameOk(vm: Vm, f: int)
    requires 0 <= f < |vm.used| == |vm.owner|
  {
    vm.used[f] ==>
      var o := vm.owner[f];
      HasPage(vm, o.mainThreadId, o.virtualPage) &&
      EntryOf(vm, o.mainThreadId, o.virtualPage).valid && EntryOf(vm, o.mainThreadId, o.virtualPage).physicalPage == f
  }

  /** The invariant, except perhaps for frame `hole`, to which no entry points. */
  ghost predicate InvBut(vm: Vm, hole: int) {
    && |vm.memory| > 0 && |vm.used| == |vm.owner| == |vm.lastUsed| == |vm.memory|
    && (forall t | t in vm.spaces :: |vm.spaces[t].pageTable| == |vm.spaces[t].backing|)
    && (forall t, p | HasPage(vm, t, p) :: EntryOk(vm, t, p) && (EntryOf(vm, t, p).valid ==> EntryOf(vm, t, p).physicalPage != hole))
    && (forall f | 0 <= f < |vm.used| && f != hole :: FrameOk(vm, f))
  }

  ghost predicate Inv(vm: Vm) {
    InvBut(vm, -1)
  }

  /** What a page means to its owner: the frame if it is in memory, else the file. */
  function Content(vm: Vm, t: int, p: int): Page
    requires HasPage(vm, t, p)
  {
    var e := EntryOf(vm, t, p);
    if e.valid && 0 <= e.physicalPage < |vm.memory| then vm.memory[e.physicalPage] else vm.spaces[t].backing[p]
  }

  /** The same address spaces, with the same pages and the same content. */
  ghost predicate SameContents(vm: Vm, vm': Vm) {
    && vm.spaces.Keys == vm'.spaces.Keys && vm.virtPageNums == vm'.virtPageNums
    && (forall t | t in vm.spaces :: |vm'.spaces[t].pageTable| == |vm.spaces[t].pageTable|)
    && (forall t, p | HasPage(vm, t, p) :: HasPage(vm', t, p) && Content(vm', t, p) == Content(vm, t, p))
  }

  /** The first frame among the first `n` with the smallest weight. */
  function Oldest(lastUsed: seq<int>, n: nat): (f: nat)
    requires 0 < n <= |lastUsed|
    ensures f < n && forall g | 0 <= g < n :: lastUsed[f] <= lastUsed[g]
    ensures forall g | 0 <= g < f :: lastUsed[f] < lastUsed[g]
  {
    if n == 1 then 0
    else
      var f := Oldest(lastUsed, n - 1);
      if lastUsed[n - 1] < lastUsed[f] then n - 1 else f
  }

  /** Frees frame `f` of its page, which goes back to the file if it is dirty. */
  function Evicted(vm: Vm, f: nat): Vm
    requires f < |vm.owner| == |vm.memory| && HasPage(vm, vm.owner[f].mainThreadId, vm.owner[f].virtualPage)
  {
    var o := vm.owner[f];
    var s, e := vm.spaces[o.mainThreadId], EntryOf(vm, o.mainThreadId, o.virtualPage);
    var s1 := if e.dirty then s.(backing := s.backing[o.virtualPage := vm.memory[f]]) else s;
    vm.(spaces := vm.spaces[o.mainThreadId := s1.(pageTable := s1.pageTable[o.virtualPage := e.(valid := false)])])
  }

  /** Brings a page into frame `f`. */
  function Loaded(vm: Vm, t: int, p: int, f: nat, now: int): Vm
    requires f < |vm.owner| == |vm.memory| == |vm.lastUsed| && HasPage(vm, t, p)
  {
    var s, e := vm.spaces[t], EntryOf(vm, t, p);
    vm.(owner := vm.owner[f := PhyMemPageEntry(t, p)], lastUsed := vm.lastUsed[f := now],
        memory := vm.memory[f := s.backing[p]],
        spaces := vm.spaces[t := s.(pageTable := s.pageTable[p := e.(valid := true, physicalPage := f)])])
  }

  lemma EvictKeeps(vm: Vm, f: nat)
    requires Inv(vm) && f < |vm.memory| && vm.used[f]
    ensures HasPage(vm, vm.owner[f].mainThreadId, vm.owner[f].virtualPage)
    ensures InvBut(Evicted(vm, f), f) && SameContents(vm, Evicted(vm, f))
    ensures forall t, p | HasPage(vm, t, p) && !EntryOf(vm, t, p).valid :: HasPage(Evicted(vm, f), t, p) && !EntryOf(Evicted(vm, f), t, p).valid
  {
    assert FrameOk(vm, f);
    var vm' := Evicted(vm, f);
    forall t, p | HasPage(vm', t, p)
      ensures HasPage(vm, t, p) && EntryOk(vm', t, p) && (EntryOf(vm', t, p).valid ==> EntryOf(vm', t, p).physicalPage != f)
      ensures Content(vm', t, p) == Content(vm, t, p)
    {
      assert HasPage(vm, t, p) && EntryOk(vm, t, p);
    }
    forall t, p | HasPage(vm, t, p)
      ensures HasPage(vm', t, p)
    {
    }
    forall g | 0 <= g < |vm'.used| && g != f
      ensures FrameOk(vm', g)
    {
      assert FrameOk(vm, g);
    }
  }

  lemma LoadKeeps(vm: Vm, t: int, p: int, f: nat, now: int)
    requires InvBut(vm, f) && f < |vm.memory| && vm.used[f] && HasPage(vm, t, p) && !EntryOf(vm, t, p).valid
    ensures Inv(Loaded(vm, t, p, f, now)) && SameContents(vm, Loaded(vm, t, p, f, now))
  {
    var vm' := Loaded(vm, t, p, f, now);
    forall u, q | HasPage(vm', u, q)
      ensures HasPage(vm, u, q) && EntryOk(vm', u, q) && Content(vm', u, q) == Content(vm, u, q)
    {
      assert HasPage(vm, u, q) && EntryOk(vm, u, q);
    }
    forall u, q | HasPage(vm, u, q)
      ensures HasPage(vm', u, q)
    {
    }
    forall g | 0 <= g < |vm'.used|
      ensures FrameOk(vm', g)
    {
      if g != f {
        assert FrameOk(vm, g);
      }
    }
  }

  /** `pageFaultHandler`. */
  function PageFault(vm: Vm, t: int, p: int, now: int): Vm
    requires Inv(vm) && HasPage(vm, t, p)
  {
    var empty := FirstClear(vm.used);
    if EntryOf(vm, t, p).valid then vm
    else if empty != -1 then Loaded(vm.(used := vm.used[empty := true]), t, p, empty, now)
    else
      var f := Oldest(vm.lastUsed, |vm.lastUsed|);
      EvictKeeps(vm, f);
      Loaded(Evicted(vm, f), t, p, f, now)
  }

  lemma TakeFrame(vm: Vm, f: nat)
    requires Inv(vm) && f < |vm.used| && !vm.used[f]
    ensures InvBut(vm.(used := vm.used[f := true]), f) && SameContents(vm, vm.(used := vm.used[f := true]))
  {
    var vm' := vm.(used := vm.used[f := true]);
    forall t, p | HasPage(vm', t, p)
      ensures EntryOk(vm', t, p) && (EntryOf(vm', t, p).valid ==> EntryOf(vm', t, p).physicalPage != f)
    {
      assert HasPage(vm, t, p) && EntryOk(vm, t, p);
    }
    forall g | 0 <= g < |vm'.used| && g != f
      ensures FrameOk(vm', g)
    {
      assert FrameOk(vm, g);
    }
    assert forall t, p | HasPage(vm, t, p) :: HasPage(vm', t, p);
  }

  lemma SameContentsTransitive(a: Vm, b: Vm, c: Vm)
    requires SameContents(a, b) && SameContents(b, c)
    ensures SameContents(a, c)
  {
  }

  /** The handler brings the page in, changes what no page means, and keeps all tables consistent. */
  lemma PageFaultKeeps(vm: Vm, t: int, p: int, now: int)
    requires Inv(vm) && HasPage(vm, t, p)
    ensures var vm' := PageFault(vm, t, p, now);
            Inv(vm') && SameContents(vm, vm') && HasPage(vm', t, p) && EntryOf(vm', t, p).valid
  {
    hide InvBut, SameContents, FirstClear, Oldest;
    SameContentsReflexive(vm);
    SizesOk(vm);
    if !EntryOf(vm, t, p).valid {
      var empty := FirstClear(vm.used);
      if empty != -1 {
        var vm1 := vm.(used := vm.used[empty := true]);
        TakeFrame(vm, empty);
        LoadKeeps(vm1, t, p, empty, now);
        SameContentsTransitive(vm, vm1, Loaded(vm1, t, p, empty, now));
      } else {
        var f := Oldest(vm.lastUsed, |vm.lastUsed|);
        EvictKeeps(vm, f);
        LoadKeeps(Evicted(vm, f), t, p, f, now);
        SameContentsTransitive(vm, Evicted(vm, f), Loaded(Evicted(vm, f), t, p, f, now));
      }
    }
  }

  /** The handler marks no page dirty and no page clean: a page that was written to once is written back whenever it goes. */
  lemma PageFaultKeepsDirty(vm: Vm, t: int, p: int, now: int, u: int, q: int)
    requires Inv(vm) && HasPage(vm, t, p) && HasPage(vm, u, q)
    ensures var vm' := PageFault(vm, t, p, now);
            HasPage(vm', u, q) && EntryOf(vm', u, q).dirty == EntryOf(vm, u, q).dirty && EntryOf(vm', u, q).readOnly == EntryOf(vm, u, q).readOnly
  {
    hide FirstClear;
    SizesOk(vm);
    if !EntryOf(vm, t, p).valid && FirstClear(vm.used) == -1 {
      EvictKeeps(vm, Oldest(vm.lastUsed, |vm.lastUsed|));
    }
  }

  lemma SameContentsReflexive(vm: Vm)
    ensures SameContents(vm, vm)
  {
  }

  lemma SizesOk(vm: Vm)
    requires Inv(vm)
    ensures |vm.memory| > 0 && |vm.used| == |vm.owner| == |vm.lastUsed| == |vm.memory|
  {
  }

  /** With every frame in use, the page goes into the first frame of least weight, which gets the time as its new weight. */
  lemma OldestIsReplaced(vm: Vm, t: int, p: int, now: int)
    requires Inv(vm) && HasPage(vm, t, p) && !EntryOf(vm, t, p).valid && forall f | 0 <= f < |vm.used| :: vm.used[f]
    ensures var vm' := PageFault(vm, t, p, now);
            && HasPage(vm', t, p)
            && var f := EntryOf(vm', t, p).physicalPage;
            && 0 <= f < |vm.lastUsed| && (forall g | 0 <= g < |vm.lastUsed| :: vm.lastUsed[f] <= vm.lastUsed[g])
            && vm'.lastUsed == vm.lastUsed[f := now]
  {
    var f := Oldest(vm.lastUsed, |vm.lastUsed|);
    assert FirstClear(vm.used) == -1;
    EvictKeeps(vm, f);
    assert HasPage(Evicted(vm, f), t, p);
  }

  // Creation and deletion of address spaces.

  function Create(vm: Vm, t: int, image: seq<Page>): Vm {
    if t in vm.spaces || vm.virtPageNums + |image| > MAX_VIRT_PAGES then vm
    else
      vm.(spaces := vm.spaces[t := AddrSpace(seq(|image|, i => TranslationEntry(-1, false, false, false)), image)],
          virtPageNums := vm.virtPageNums + |image|)
  }

  /** The bitmap after the frames of the first `n` pages have been given back. */
  function Released(used: seq<bool>, pageTable: seq<TranslationEntry>, n: nat): (r: seq<bool>)
    requires n <= |pageTable|
    ensures |r| == |used|
    ensures forall f | 0 <= f < |used| :: r[f] <==> used[f] && forall p | 0 <= p < n :: !(pageTable[p].valid && pageTable[p].physicalPage == f)
  {
    if n == 0 then used
    else
      var r := Released(used, pageTable, n - 1);
      var e := pageTable[n - 1];
      if e.valid && 0 <= e.physicalPage < |used| then r[e.physicalPage := false] else r
  }

  function Delete(vm: Vm, t: int): Vm {
    if t !in vm.spaces then vm
    else
      var table := vm.spaces[t].pageTable;
      vm.(used := Released(vm.used, table, |table|), spaces := vm.spaces - {t})
  }

  lemma CreateKeeps(vm: Vm, t: int, image: seq<Page>)
    requires Inv(vm)
    ensures Inv(Create(vm, t, image))
    ensures forall u, p | HasPage(vm, u, p) :: HasPage(Create(vm, t, image), u, p) && Content(Create(vm, t, image), u, p) == Content(vm, u, p)
    ensures t !in vm.spaces && t in Create(vm, t, image).spaces ==>
              forall p | 0 <= p < |image| :: HasPage(Create(vm, t, image), t, p) && Content(Create(vm, t, image), t, p) == image[p] &&
                                             !EntryOf(Create(vm, t, image), t, p).valid && !EntryOf(Create(vm, t, image), t, p).dirty
  {
    var vm' := Create(vm, t, image);
    if vm' != vm {
      forall u, p | HasPage(vm', u, p)
        ensures EntryOk(vm', u, p) && (EntryOf(vm', u, p).valid ==> EntryOf(vm', u, p).physicalPage != -1)
      {
        if u != t {
          assert HasPage(vm, u, p) && EntryOk(vm, u, p);
        }
      }
      forall f | 0 <= f < |vm'.used|
        ensures FrameOk(vm', f)
      {
        assert FrameOk(vm, f);
      }
      assert forall u, p | HasPage(vm, u, p) :: HasPage(vm', u, p);
    }
  }

  lemma DeleteKeeps(vm: Vm, t: int)
    requires Inv(vm)
    ensures Inv(Delete(vm, t)) && t !in Delete(vm, t).spaces
    ensures forall u, p | HasPage(vm, u, p) && u != t :: HasPage(Delete(vm, t), u, p) && Content(Delete(vm, t), u, p) == Content(vm, u, p)
  {
    var vm' := Delete(vm, t);
    if t in vm.spaces {
      forall u, p | HasPage(vm', u, p)
        ensures HasPage(vm, u, p) && EntryOk(vm', u, p) && (EntryOf(vm', u, p).valid ==> EntryOf(vm', u, p).physicalPage != -1)
      {
        assert HasPage(vm, u, p) && EntryOk(vm, u, p);
        var e := EntryOf(vm, u, p);
        if e.valid {
          forall q | 0 <= q < |vm.spaces[t].pageTable|
            ensures !(vm.spaces[t].pageTable[q].valid && vm.spaces[t].pageTable[q].physicalPage == e.physicalPage)
          {
            assert HasPage(vm, t, q) && EntryOk(vm, t, q);
          }
        }
      }
      forall f | 0 <= f < |vm'.used|
        ensures FrameOk(vm', f)
      {
        assert FrameOk(vm, f);
      }
      assert forall u, p | HasPage(vm, u, p) && u != t :: HasPage(vm', u, p);
    }
  }

  // The processor's view: translation, reads and writes.

  datatype Translation = Physical(frame: int, offset: nat) | PageFaultException | ReadOnlyException | BusErrorException | AddressErrorException

  predicate Aligned(addr: word, size: nat) {
    (size == 4 ==> addr % 4 == 0) && (size == 2 ==> addr % 2 == 0)
  }

  /** `Translate` through the page table; a write marks the entry dirty. */
  function Translate(vm: Vm, t: int, addr: word, size: nat, writing: bool): (Translation, Vm)
    requires t in vm.spaces
  {
    var vpn, offset := addr / PAGE_SIZE, addr % PAGE_SIZE;
    if !Aligned(addr, size) || vpn >= |vm.spaces[t].pageTable| then (AddressErrorException, vm)
    else
      var s := vm.spaces[t];
      var e := s.pageTable[vpn];
      if !e.valid then (PageFaultException, vm)
      else if e.readOnly && writing then (ReadOnlyException, vm)
      else if !(0 <= e.physicalPage < |vm.memory|) then (BusErrorException, vm)
      else (Physical(e.physicalPage, offset),
            if writing then vm.(spaces := vm.spaces[t := s.(pageTable := s.pageTable[vpn := e.(dirty := true)])]) else vm)
  }

  /**
   * Which exception a translation ends in, if any; the physical address otherwise. Only a write that succeeds changes
   * anything, and only by making the entry dirty.
   */
  lemma TranslationIs(vm: Vm, t: int, addr: word, size: nat, writing: bool)
    requires t in vm.spaces && size in {1, 2, 4}
    ensures var (x, vm') := Translate(vm, t, addr, size, writing);
            var table, p := vm.spaces[t].pageTable, addr / PAGE_SIZE;
            && (x == AddressErrorException <==> addr % size != 0 || addr >= |table| * PAGE_SIZE)
            && (x == PageFaultException <==> addr % size == 0 && addr < |table| * PAGE_SIZE && !table[p].valid)
            && (x == ReadOnlyException <==> addr % size == 0 && addr < |table| * PAGE_SIZE && table[p].valid && table[p].readOnly && writing)
            && (x.Physical? ==> table[p].valid && x.frame * PAGE_SIZE + x.offset == table[p].physicalPage * PAGE_SIZE + addr % PAGE_SIZE &&
                                0 <= x.frame < |vm.memory| && x.offset < PAGE_SIZE)
            && (x == BusErrorException ==> !(0 <= table[p].physicalPage < |vm.memory|))
            && vm' == if x.Physical? && writing
                      then vm.(spaces := vm.spaces[t := vm.spaces[t].(pageTable := table[p := table[p].(dirty := true)])])
                      else vm
  {
  }

  /** `Translate`, and if the page was missing, the handler and `Translate` again. */
  function Access(vm: Vm, t: int, addr: word, size: nat, writing: bool, now: int): (Translation, Vm)
    requires Inv(vm) && t in vm.spaces
  {
    var first := Translate(vm, t, addr, size, writing);
    if first.0 != PageFaultException then first
    else
      assert HasPage(vm, t, addr / PAGE_SIZE);
      var vm1 := PageFault(vm, t, addr / PAGE_SIZE, now);
      PageFaultKeeps(vm, t, addr / PAGE_SIZE, now);
      Translate(vm1, t, addr, size, writing)
  }

  predicate InRange(vm: Vm, t: int, addr: word, size: nat) {
    t in vm.spaces && Aligned(addr, size) && addr / PAGE_SIZE < |vm.spaces[t].pageTable|
  }

  /** An aligned access within the address space always succeeds, if need be at the second attempt. */
  lemma AccessSucceeds(vm: Vm, t: int, addr: word, size: nat, writing: bool, now: int)
    requires Inv(vm) && InRange(vm, t, addr, size)
    ensures var (x, vm') := Access(vm, t, addr, size, writing, now);
            && x.Physical? && x.offset == addr % PAGE_SIZE && 0 <= x.frame < |vm'.memory|
            && HasPage(vm', t, addr / PAGE_SIZE) && EntryOf(vm', t, addr / PAGE_SIZE).valid
            && EntryOf(vm', t, addr / PAGE_SIZE).physicalPage == x.frame && (writing ==> EntryOf(vm', t, addr / PAGE_SIZE).dirty)
            && Inv(vm') && SameContents(vm, vm')
  {
    hide SameContents, PageFault;
    var p := addr / PAGE_SIZE;
    assert HasPage(vm, t, p);
    SameContentsReflexive(vm);
    if EntryOf(vm, t, p).valid {
      TranslateKeeps(vm, t, addr, size, writing);
    } else {
      PageFaultKeeps(vm, t, p, now);
      var vm1 := PageFault(vm, t, p, now);
      KeepsSize(vm, vm1, t);
      TranslateKeeps(vm1, t, addr, size, writing);
      SameContentsTransitive(vm, vm1, Translate(vm1, t, addr, size, writing).1);
    }
  }

  lemma KeepsSize(vm: Vm, vm': Vm, t: int)
    requires SameContents(vm, vm') && t in vm.spaces
    ensures t in vm'.spaces && |vm'.spaces[t].pageTable| == |vm.spaces[t].pageTable|
  {
  }

  lemma TranslateKeeps(vm: Vm, t: int, addr: word, size: nat, writing: bool)
    requires Inv(vm) && InRange(vm, t, addr, size) && HasPage(vm, t, addr / PAGE_SIZE) && EntryOf(vm, t, addr / PAGE_SIZE).valid
    ensures var (x, vm') := Translate(vm, t, addr, size, writing);
            && x == Physical(EntryOf(vm, t, addr / PAGE_SIZE).physicalPage, addr % PAGE_SIZE) && 0 <= x.frame < |vm'.memory|
            && HasPage(vm', t, addr / PAGE_SIZE) && EntryOf(vm', t, addr / PAGE_SIZE).valid
            && EntryOf(vm', t, addr / PAGE_SIZE).physicalPage == x.frame && (writing ==> EntryOf(vm', t, addr / PAGE_SIZE).dirty)
            && Inv(vm') && SameContents(vm, vm')
  {
    var q := addr / PAGE_SIZE;
    assert EntryOk(vm, t, q);
    var (x, vm') := Translate(vm, t, addr, size, writing);
    forall u, p | HasPage(vm', u, p)
      ensures HasPage(vm, u, p) && EntryOk(vm', u, p) && (EntryOf(vm', u, p).valid ==> EntryOf(vm', u, p).physicalPage != -1)
    {
      assert HasPage(vm, u, p) && EntryOk(vm, u, p);
    }
    forall f | 0 <= f < |vm'.used|
      ensures FrameOk(vm', f)
    {
      assert FrameOk(vm, f);
    }
    assert forall u, p | HasPage(vm, u, p) :: HasPage(vm', u, p);
  }

  function SignExtended(b: byte): word {
    if b < 0x80 then b else 0xffff_ff00 + b
  }

  /** What a load of 1, 2 or 4 bytes makes of a page; a single byte is a signed `char`. */
  function LoadedWord(page: Page, offset: nat, size: nat): word
    requires offset + size <= PAGE_SIZE && size in {1, 2, 4}
  {
    if size == 1 then SignExtended(page[offset])
    else if size == 2 then page[offset] + 0x100 * page[offset + 1]
    else WordOf(page[offset], page[offset + 1], page[offset + 2], page[offset + 3])
  }

  function StoredPage(page: Page, offset: nat, size: nat, value: word): (r: Page)
    requires offset + size <= PAGE_SIZE && size in {1, 2, 4}
  {
    if size == 1 then page[offset := ByteOf(value, 0)]
    else if size == 2 then page[offset := ByteOf(value, 0)][offset + 1 := ByteOf(value, 1)]
    else page[offset := ByteOf(value, 0)][offset + 1 := ByteOf(value, 1)][offset + 2 := ByteOf(value, 2)][offset + 3 := ByteOf(value, 3)]
  }

  lemma FitsInPage(addr: word, size: nat)
    requires Aligned(addr, size) && size in {1, 2, 4}
    ensures addr % PAGE_SIZE + size <= PAGE_SIZE
  {
  }

  /** `ReadMem`; `None` if an exception other than a page fault came up. */
  function ReadMem(vm: Vm, t: int, addr: word, size: nat, now: int): (Option<word>, Vm)
    requires Inv(vm) && t in vm.spaces && size in {1, 2, 4}
  {
    var (x, vm1) := Access(vm, t, addr, size, false, now);
    if x.Physical? && 0 <= x.frame < |vm1.memory| && x.offset + size <= PAGE_SIZE then
      (Some(LoadedWord(vm1.memory[x.frame], x.offset, size)), vm1)
    else (None, vm1)
  }

  function WriteMem(vm: Vm, t: int, addr: word, size: nat, value: word, now: int): (bool, Vm)
    requires Inv(vm) && t in vm.spaces && size in {1, 2, 4}
  {
    var (x, vm1) := Access(vm, t, addr, size, true, now);
    if x.Physical? && 0 <= x.frame < |vm1.memory| && x.offset + size <= PAGE_SIZE then
      (true, vm1.(memory := vm1.memory[x.frame := StoredPage(vm1.memory[x.frame], x.offset, size, value)]))
    else (false, vm1)
  }

  /** A read in range returns the bytes that the page means, least significant first, and changes no meaning. */
  lemma ReadMemReads(vm: Vm, t: int, addr: word, size: nat, now: int)
    requires Inv(vm) && InRange(vm, t, addr, size) && size in {1, 2, 4}
    ensures HasPage(vm, t, addr / PAGE_SIZE) && addr % PAGE_SIZE + size <= PAGE_SIZE
    ensures var (v, vm') := ReadMem(vm, t, addr, size, now);
            var page, o := Content(vm, t, addr / PAGE_SIZE), addr % PAGE_SIZE;
            && v == Some(LoadedWord(page, o, size))
            && (size == 1 ==> v.value == page[o] as int + if page[o] < 0x80 then 0 else 0xffff_ff00)
            && (size == 2 ==> v.value == page[o] as int + page[o + 1] as int * 0x100)
            && (size == 4 ==> v.value == page[o] as int + page[o + 1] as int * 0x100 + page[o + 2] as int * 0x1_0000 + page[o + 3] as int * 0x100_0000)
            && Inv(vm') && SameContents(vm, vm')
  {
    hide InvBut, Access;
    RangeHasPage(vm, t, addr, size);
    FitsInPage(addr, size);
    AccessSucceeds(vm, t, addr, size, false, now);
  }

  lemma RangeHasPage(vm: Vm, t: int, addr: word, size: nat)
    requires Inv(vm) && InRange(vm, t, addr, size)
    ensures HasPage(vm, t, addr / PAGE_SIZE)
  {
  }

  /** Out of range or misaligned, both fail and change nothing. */
  lemma OutOfRangeFails(vm: Vm, t: int, addr: word, size: nat, value: word, now: int)
    requires Inv(vm) && t in vm.spaces && size in {1, 2, 4} && !InRange(vm, t, addr, size)
    ensures ReadMem(vm, t, addr, size, now) == (None, vm) && WriteMem(vm, t, addr, size, value, now) == (false, vm)
  {
  }

  lemma StoreKeeps(vm: Vm, t: int, p: int, page: Page)
    requires Inv(vm) && HasPage(vm, t, p) && EntryOf(vm, t, p).valid && EntryOf(vm, t, p).dirty
    requires 0 <= EntryOf(vm, t, p).physicalPage < |vm.memory|
    ensures var vm' := vm.(memory := vm.memory[EntryOf(vm, t, p).physicalPage := page]);
            && Inv(vm') && Content(vm', t, p) == page
            && forall u, q | HasPage(vm, u, q) && !(u == t && q == p) :: HasPage(vm', u, q) && Content(vm', u, q) == Content(vm, u, q)
  {
    var f := EntryOf(vm, t, p).physicalPage;
    var vm' := vm.(memory := vm.memory[f := page]);
    assert EntryOk(vm, t, p);
    forall u, q | HasPage(vm', u, q)
      ensures EntryOk(vm', u, q) && (EntryOf(vm', u, q).valid ==> EntryOf(vm', u, q).physicalPage != -1)
      ensures !(u == t && q == p) ==> Content(vm', u, q) == Content(vm, u, q)
    {
      assert HasPage(vm, u, q) && EntryOk(vm, u, q);
    }
    forall g | 0 <= g < |vm'.used|
      ensures FrameOk(vm', g)
    {
      assert FrameOk(vm, g);
    }
    assert forall u, q | HasPage(vm, u, q) :: HasPage(vm', u, q);
  }

  /** Byte `j` of a page after a store at `o`. */
  lemma StoredPageAt(page: Page, o: nat, size: nat, value: word, j: nat)
    requires o + size <= PAGE_SIZE && size in {1, 2, 4} && j < PAGE_SIZE
    ensures StoredPage(page, o, size, value)[j] == if o <= j < o + size then ByteOf(value, j - o) else page[j]
  {
    hide ByteOf;
  }

  /** The bytes of a word are its digits to base 256. */
  lemma Digits(value: word)
    ensures ByteOf(value, 0) == value % 0x100 && ByteOf(value, 1) == value / 0x100 % 0x100
    ensures ByteOf(value, 2) == value / 0x1_0000 % 0x100 && ByteOf(value, 3) == value / 0x100_0000
  {
    var v1: word := value / 0x100;
    var v2: word := v1 / 0x100;
    var v3: word := v2 / 0x100;
    assert ByteOf(value, 3) == ByteOf(v1, 2) == ByteOf(v2, 1) == ByteOf(v3, 0);
    assert ByteOf(value, 2) == ByteOf(v1, 1) == ByteOf(v2, 0);
    assert ByteOf(value, 1) == ByteOf(v1, 0);
    hide ByteOf;
    assert v2 == value / 0x1_0000 && v3 == value / 0x100_0000;
  }

  /** A write in range changes exactly its own bytes of its own page: they become the digits of the value, lowest first. */
  lemma WriteMemWrites(vm: Vm, t: int, addr: word, size: nat, value: word, now: int)
    requires Inv(vm) && InRange(vm, t, addr, size) && size in {1, 2, 4}
    ensures HasPage(vm, t, addr / PAGE_SIZE) && addr % PAGE_SIZE + size <= PAGE_SIZE
    ensures var (ok, vm') := WriteMem(vm, t, addr, size, value, now);
            var p := addr / PAGE_SIZE;
            && ok && Inv(vm') && vm'.spaces.Keys == vm.spaces.Keys && vm'.virtPageNums == vm.virtPageNums
            && (forall u | u in vm.spaces :: |vm'.spaces[u].pageTable| == |vm.spaces[u].pageTable|)
            && HasPage(vm', t, p) && Content(vm', t, p) == StoredPage(Content(vm, t, p), addr % PAGE_SIZE, size, value)
            && (forall j | 0 <= j < PAGE_SIZE && !(addr % PAGE_SIZE <= j < addr % PAGE_SIZE + size) ::
                  Content(vm', t, p)[j] == Content(vm, t, p)[j])
            && Content(vm', t, p)[addr % PAGE_SIZE] == value % 0x100
            && (size >= 2 ==> Content(vm', t, p)[addr % PAGE_SIZE + 1] == value / 0x100 % 0x100)
            && (size == 4 ==> Content(vm', t, p)[addr % PAGE_SIZE + 2] == value / 0x1_0000 % 0x100 &&
                              Content(vm', t, p)[addr % PAGE_SIZE + 3] == value / 0x100_0000)
            && forall u, q | HasPage(vm, u, q) && !(u == t && q == p) :: HasPage(vm', u, q) && Content(vm', u, q) == Content(vm, u, q)
  {
    hide InvBut, StoredPage, Access, ByteOf;
    RangeHasPage(vm, t, addr, size);
    FitsInPage(addr, size);
    AccessSucceeds(vm, t, addr, size, true, now);
    var (x, vm1) := Access(vm, t, addr, size, true, now);
    StoreKeeps(vm1, t, addr / PAGE_SIZE, StoredPage(vm1.memory[x.frame], x.offset, size, value));
    Digits(value);
    var page, o := Content(vm, t, addr / PAGE_SIZE), addr % PAGE_SIZE;
    forall j: nat | j < PAGE_SIZE
      ensures StoredPage(page, o, size, value)[j] == if o <= j < o + size then ByteOf(value, j - o) else page[j]
    {
      StoredPageAt(page, o, size, value, j);
    }
  }

  lemma TwoBytes(value: word)
    ensures value % 0x100 + value / 0x100 % 0x100 * 0x100 == value % 0x1_0000
  {
    var v: word := value / 0x100;
    assert v == 0x100 * (v / 0x100) + v % 0x100;
    assert value == 0x1_0000 * (v / 0x100) + 0x100 * (v % 0x100) + value % 0x100;
  }

  lemma FourBytes(value: word)
    ensures value % 0x100 + value / 0x100 % 0x100 * 0x100 + value / 0x1_0000 % 0x100 * 0x1_0000 + value / 0x100_0000 * 0x100_0000 == value
  {
    Digits(value);
    WordOfBytes(value);
    hide ByteOf;
  }

  /** What was written is read back, modulo what fits; a single byte comes back as a signed `char`. */
  lemma WriteThenRead(vm: Vm, t: int, addr: word, size: nat, value: word, now: int, later: int)
    requires Inv(vm) && InRange(vm, t, addr, size) && size in {1, 2, 4}
    ensures var vm' := WriteMem(vm, t, addr, size, value, now).1;
            && Inv(vm') && t in vm'.spaces
            && var v := ReadMem(vm', t, addr, size, later).0;
            && (size == 1 ==> v == Some(if value % 0x100 < 0x80 then value % 0x100 else value % 0x100 + 0xffff_ff00))
            && (size == 2 ==> v == Some(value % 0x1_0000))
            && (size == 4 ==> v == Some(value))
  {
    hide InvBut, WriteMem, ReadMem, StoredPage, LoadedWord, Content;
    WriteMemWrites(vm, t, addr, size, value, now);
    ReadMemReads(WriteMem(vm, t, addr, size, value, now).1, t, addr, size, later);
    TwoBytes(value);
    FourBytes(value);
  }

  // Runs, against flat memories.

  /** One flat memory per address space, byte by byte, and the number of pages ever handed out. */
  datatype Flat = Flat(spaces: map<int, seq<byte>>, pagesEver: int)

  /** Pages laid end to end. */
  function Bytes(pages: seq<Page>): (r: seq<byte>)
    ensures |r| == |pages| * PAGE_SIZE && forall x | 0 <= x < |r| :: r[x] == pages[x / PAGE_SIZE][x % PAGE_SIZE]
  {
    seq(|pages| * PAGE_SIZE, x requires 0 <= x < |pages| * PAGE_SIZE => pages[x / PAGE_SIZE][x % PAGE_SIZE])
  }

  function Contents(vm: Vm, t: int, n: nat): (r: seq<Page>)
    requires t in vm.spaces && n <= |vm.spaces[t].pageTable| == |vm.spaces[t].backing|
    ensures |r| == n && forall p | 0 <= p < n :: r[p] == Content(vm, t, p)
  {
    if n == 0 then [] else Contents(vm, t, n - 1) + [Content(vm, t, n - 1)]
  }

  function Meaning(vm: Vm): Flat
    requires Inv(vm)
  {
    Flat(map t | t in vm.spaces :: Bytes(Contents(vm, t, |vm.spaces[t].pageTable|)), vm.virtPageNums)
  }

  datatype Op =
    | CreateOp(t: int, image: seq<Page>)
    | DeleteOp(t: int)
    | ReadOp(t: int, addr: word, size: nat)
    | WriteOp(t: int, addr: word, size: nat, value: word)

  datatype Answer = Created(there: bool) | Done(ok: bool) | Got(value: Option<word>)

  predicate Sensible(op: Op) {
    (op.ReadOp? ==> op.size in {1, 2, 4}) && (op.WriteOp? ==> op.size in {1, 2, 4})
  }

  /** An operation of the paged machine at time `now`; a thread without an address space gets nothing. */
  function Apply(vm: Vm, op: Op, now: int): (Answer, Vm)
    requires Inv(vm) && Sensible(op)
  {
    match op
    case CreateOp(t, image) => (Created(t in Create(vm, t, image).spaces), Create(vm, t, image))
    case DeleteOp(t) => (Done(true), Delete(vm, t))
    case ReadOp(t, addr, size) => if t !in vm.spaces then (Got(None), vm) else (Got(ReadMem(vm, t, addr, size, now).0), ReadMem(vm, t, addr, size, now).1)
    case WriteOp(t, addr, size, value) =>
      if t !in vm.spaces then (Done(false), vm)
      else (Done(WriteMem(vm, t, addr, size, value, now).0), WriteMem(vm, t, addr, size, value, now).1)
  }

  /** The number that the `size` bytes at `addr` make, least significant first. */
  function Number(bytes: seq<byte>, addr: nat, size: nat): (r: nat)
    requires addr + size <= |bytes| && size <= 4
    ensures r < if size == 0 then 1 else if size == 1 then 0x100 else if size == 2 then 0x1_0000 else if size == 3 then 0x100_0000 else 0x1_0000_0000
    decreases size
  {
    if size == 0 then 0 else bytes[addr] + 0x100 * Number(bytes, addr + 1, size - 1)
  }

  /** The bytes with the lowest `size` bytes of a number at `addr`. */
  function WithNumber(bytes: seq<byte>, addr: nat, size: nat, value: word): (r: seq<byte>)
    requires addr + size <= |bytes| && size <= 4
    ensures |r| == |bytes| && forall x | 0 <= x < |r| :: r[x] == if addr <= x < addr + size then ByteOf(value, x - addr) else bytes[x]
    decreases size
  {
    if size == 0 then bytes else WithNumber(bytes, addr, size - 1, value)[addr + size - 1 := ByteOf(value, size - 1)]
  }

  /** The same operation on flat memories, which know nothing of pages and frames. */
  function ApplyFlat(m: Flat, op: Op): (Answer, Flat)
    requires Sensible(op)
  {
    match op
    case CreateOp(t, image) =>
      if t in m.spaces then (Created(true), m)
      else if m.pagesEver + |image| > MAX_VIRT_PAGES then (Created(false), m)
      else (Created(true), Flat(m.spaces[t := Bytes(image)], m.pagesEver + |image|))
    case DeleteOp(t) => (Done(true), m.(spaces := m.spaces - {t}))
    case ReadOp(t, addr, size) =>
      if t in m.spaces && addr % size == 0 && addr + size <= |m.spaces[t]| then
        var n := Number(m.spaces[t], addr, size);
        (Got(Some(if size == 1 && n >= 0x80 then 0xffff_ff00 + n else n)), m)
      else (Got(None), m)
    case WriteOp(t, addr, size, value) =>
      if t in m.spaces && addr % size == 0 && addr + size <= |m.spaces[t]| then
        (Done(true), m.(spaces := m.spaces[t := WithNumber(m.spaces[t], addr, size, value)]))
      else (Done(false), m)
  }

  /** The pages of space `u` in `vm`, in terms of what they mean. */
  function SpaceContents(vm: Vm, u: int): seq<Page>
    requires Inv(vm) && u in vm.spaces
  {
    Contents(vm, u, |vm.spaces[u].pageTable|)
  }

  lemma SpaceContentsAre(vm: Vm, u: int, pages: seq<Page>)
    requires Inv(vm) && u in vm.spaces && |pages| == |vm.spaces[u].pageTable|
    requires forall p | HasPage(vm, u, p) :: Content(vm, u, p) == pages[p]
    ensures SpaceContents(vm, u) == pages && Meaning(vm).spaces[u] == Bytes(pages)
  {
    assert forall p | 0 <= p < |pages| :: HasPage(vm, u, p);
  }

  lemma SpaceContentsAt(vm: Vm, u: int, p: int)
    requires Inv(vm) && u in vm.spaces && 0 <= p < |vm.spaces[u].pageTable|
    ensures HasPage(vm, u, p) && |SpaceContents(vm, u)| == |vm.spaces[u].pageTable| && SpaceContents(vm, u)[p] == Content(vm, u, p)
    ensures Meaning(vm).spaces[u] == Bytes(SpaceContents(vm, u))
  {
  }

  lemma SpaceSize(vm: Vm, u: int)
    requires Inv(vm) && u in vm.spaces
    ensures |SpaceContents(vm, u)| == |vm.spaces[u].pageTable| && Meaning(vm).spaces[u] == Bytes(SpaceContents(vm, u))
  {
  }

  /** A space whose pages all mean what they meant before. */
  lemma SpaceKept(vm: Vm, vm': Vm, u: int)
    requires Inv(vm) && Inv(vm') && u in vm.spaces && u in vm'.spaces && |vm'.spaces[u].pageTable| == |vm.spaces[u].pageTable|
    requires forall p | HasPage(vm, u, p) :: HasPage(vm', u, p) && Content(vm', u, p) == Content(vm, u, p)
    ensures Meaning(vm').spaces[u] == Meaning(vm).spaces[u]
  {
    hide InvBut, Content;
    SpaceSize(vm, u);
    forall p | HasPage(vm', u, p)
      ensures Content(vm', u, p) == SpaceContents(vm, u)[p]
    {
      SpaceContentsAt(vm, u, p);
    }
    SpaceContentsAre(vm', u, SpaceContents(vm, u));
  }

  /** Two machines mean the same if they have the same spaces with the same contents. */
  lemma MeaningSame(vm: Vm, vm': Vm)
    requires Inv(vm) && Inv(vm') && SameContents(vm, vm')
    ensures Meaning(vm') == Meaning(vm)
  {
    hide InvBut, Content;
    forall t | t in vm.spaces
      ensures Meaning(vm').spaces[t] == Meaning(vm).spaces[t]
    {
      SpaceKept(vm, vm', t);
    }
  }

  lemma CreateAgrees(vm: Vm, t: int, image: seq<Page>)
    requires Inv(vm)
    ensures Inv(Create(vm, t, image)) && Meaning(Create(vm, t, image)) == ApplyFlat(Meaning(vm), CreateOp(t, image)).1
    ensures t in Create(vm, t, image).spaces <==> ApplyFlat(Meaning(vm), CreateOp(t, image)).0 == Created(true)
  {
    hide InvBut, Content;
    CreateKeeps(vm, t, image);
    var vm', m := Create(vm, t, image), ApplyFlat(Meaning(vm), CreateOp(t, image)).1;
    forall u | u in vm'.spaces
      ensures u in m.spaces && Meaning(vm').spaces[u] == m.spaces[u]
    {
      if u in vm.spaces {
        SpaceKept(vm, vm', u);
      } else {
        SpaceContentsAre(vm', u, image);
      }
    }
  }

  lemma DeleteAgrees(vm: Vm, t: int)
    requires Inv(vm)
    ensures Inv(Delete(vm, t)) && Meaning(Delete(vm, t)) == ApplyFlat(Meaning(vm), DeleteOp(t)).1
  {
    hide InvBut, Content;
    DeleteKeeps(vm, t);
    var vm', m := Delete(vm, t), ApplyFlat(Meaning(vm), DeleteOp(t)).1;
    forall u | u in vm'.spaces
      ensures u in m.spaces && Meaning(vm').spaces[u] == m.spaces[u]
    {
      SpaceKept(vm, vm', u);
    }
  }

  lemma WithinPage(addr: word, size: nat, n: nat)
    requires Aligned(addr, size) && size in {1, 2, 4}
    ensures addr / PAGE_SIZE < n <==> addr + size <= n * PAGE_SIZE
    ensures addr % PAGE_SIZE + size <= PAGE_SIZE
  {
    var p, o := addr / PAGE_SIZE, addr % PAGE_SIZE;
    assert addr == PAGE_SIZE * p + o;
    FitsInPage(addr, size);
    hide Aligned;
    if p < n {
      assert PAGE_SIZE * (p + 1) <= PAGE_SIZE * n;
    }
  }

  lemma ByteInPage(pages: seq<Page>, addr: word, i: nat)
    requires addr / PAGE_SIZE < |pages| && addr % PAGE_SIZE + i < PAGE_SIZE
    ensures addr + i < |Bytes(pages)| && Bytes(pages)[addr + i] == pages[addr / PAGE_SIZE][addr % PAGE_SIZE + i]
  {
    assert (addr + i) / PAGE_SIZE == addr / PAGE_SIZE && (addr + i) % PAGE_SIZE == addr % PAGE_SIZE + i;
  }

  lemma NumberUnfolds(bytes: seq<byte>, addr: nat, size: nat)
    requires addr + size <= |bytes| && size in {1, 2, 4}
    ensures size == 1 ==> Number(bytes, addr, size) == bytes[addr]
    ensures size == 2 ==> Number(bytes, addr, size) == bytes[addr] as int + bytes[addr + 1] as int * 0x100
    ensures size == 4 ==> Number(bytes, addr, size) ==
                            bytes[addr] as int + bytes[addr + 1] as int * 0x100 + bytes[addr + 2] as int * 0x1_0000 + bytes[addr + 3] as int * 0x100_0000
  {
    if size == 2 {
      assert Number(bytes, addr + 1, 1) == bytes[addr + 1];
    } else if size == 4 {
      assert Number(bytes, addr + 3, 1) == bytes[addr + 3];
      assert Number(bytes, addr + 2, 2) == bytes[addr + 2] as int + 0x100 * Number(bytes, addr + 3, 1);
      assert Number(bytes, addr + 1, 3) == bytes[addr + 1] as int + 0x100 * Number(bytes, addr + 2, 2);
    }
  }

  /** A load from a page reads the number that stands there in the flat memory. */
  lemma NumberInPage(pages: seq<Page>, addr: word, size: nat)
    requires size in {1, 2, 4} && Aligned(addr, size) && addr / PAGE_SIZE < |pages|
    ensures addr % PAGE_SIZE + size <= PAGE_SIZE && addr + size <= |Bytes(pages)|
    ensures var n := Number(Bytes(pages), addr, size);
            LoadedWord(pages[addr / PAGE_SIZE], addr % PAGE_SIZE, size) == if size == 1 && n >= 0x80 then 0xffff_ff00 + n else n
  {
    hide Bytes, Number;
    WithinPage(addr, size, |pages|);
    NumberUnfolds(Bytes(pages), addr, size);
    ByteInPage(pages, addr, 0);
    if size >= 2 {
      ByteInPage(pages, addr, 1);
    }
    if size == 4 {
      ByteInPage(pages, addr, 2);
      ByteInPage(pages, addr, 3);
    }
  }

  lemma ReadAgrees(vm: Vm, t: int, addr: word, size: nat, now: int)
    requires Inv(vm) && InRange(vm, t, addr, size) && size in {1, 2, 4}
    ensures var (v, vm') := ReadMem(vm, t, addr, size, now);
            Inv(vm') && (Got(v), Meaning(vm')) == ApplyFlat(Meaning(vm), ReadOp(t, addr, size))
  {
    hide ReadMem, InvBut, Content, Contents, Number, LoadedWord, Bytes;
    ReadMemReads(vm, t, addr, size, now);
    MeaningSame(vm, ReadMem(vm, t, addr, size, now).1);
    SpaceContentsAt(vm, t, addr / PAGE_SIZE);
    NumberInPage(SpaceContents(vm, t), addr, size);
  }

  lemma WriteAgrees(vm: Vm, t: int, addr: word, size: nat, value: word, now: int)
    requires Inv(vm) && InRange(vm, t, addr, size) && size in {1, 2, 4}
    ensures var (ok, vm') := WriteMem(vm, t, addr, size, value, now);
            ok && Inv(vm') && (Done(true), Meaning(vm')) == ApplyFlat(Meaning(vm), WriteOp(t, addr, size, value))
  {
    hide StoredPage, WriteMem, InvBut, Content, Contents, ByteOf, Bytes, WithNumber;
    WriteMemWrites(vm, t, addr, size, value, now);
    var vm', p := WriteMem(vm, t, addr, size, value, now).1, addr / PAGE_SIZE;
    SpaceContentsAt(vm, t, p);
    var pages: seq<Page> := SpaceContents(vm, t)[p := StoredPage(Content(vm, t, p), addr % PAGE_SIZE, size, value)];
    forall q | HasPage(vm', t, q)
      ensures Content(vm', t, q) == pages[q]
    {
      SpaceContentsAt(vm, t, q);
    }
    SpaceContentsAre(vm', t, pages);
    BytesStored(SpaceContents(vm, t), addr, size, value);
    forall u | u in vm.spaces && u != t
      ensures Meaning(vm').spaces[u] == Meaning(vm).spaces[u]
    {
      SpaceKept(vm, vm', u);
    }
    assert Meaning(vm').spaces == Meaning(vm).spaces[t := Bytes(pages)];
  }

  lemma BytesStored(pages: seq<Page>, addr: word, size: nat, value: word)
    requires size in {1, 2, 4} && Aligned(addr, size) && addr / PAGE_SIZE < |pages|
    ensures addr % PAGE_SIZE + size <= PAGE_SIZE && addr + size <= |Bytes(pages)|
    ensures var pages': seq<Page> := pages[addr / PAGE_SIZE := StoredPage(pages[addr / PAGE_SIZE], addr % PAGE_SIZE, size, value)];
            Bytes(pages') == WithNumber(Bytes(pages), addr, size, value)
  {
    hide StoredPage, ByteOf;
    WithinPage(addr, size, |pages|);
    var p, o := addr / PAGE_SIZE, addr % PAGE_SIZE;
    var pages': seq<Page> := pages[p := StoredPage(pages[p], o, size, value)];
    forall x | 0 <= x < |Bytes(pages)|
      ensures Bytes(pages')[x] == if addr <= x < addr + size then ByteOf(value, x - addr) else Bytes(pages)[x]
    {
      if x / PAGE_SIZE == p {
        StoredPageAt(pages[p], o, size, value, x % PAGE_SIZE);
      }
    }
  }

  /** Each operation of the paged machine answers as the flat one does, and leaves it meaning what the flat one then holds. */
  lemma ApplyAgrees(vm: Vm, op: Op, now: int)
    requires Inv(vm) && Sensible(op)
    ensures var (answer, vm') := Apply(vm, op, now);
            Inv(vm') && (answer, Meaning(vm')) == ApplyFlat(Meaning(vm), op)
  {
    hide InvBut, LoadedWord, ReadMem, WriteMem, SameContents, Create, Delete;
    match op
    case CreateOp(t, image) => CreateAgrees(vm, t, image);
    case DeleteOp(t) => DeleteAgrees(vm, t);
    case ReadOp(t, addr, size) =>
      if InRange(vm, t, addr, size) {
        ReadAgrees(vm, t, addr, size, now);
      } else if t in vm.spaces {
        OutOfRangeFails(vm, t, addr, size, 0, now);
      }
    case WriteOp(t, addr, size, value) =>
      if InRange(vm, t, addr, size) {
        WriteAgrees(vm, t, addr, size, value, now);
      } else if t in vm.spaces {
        OutOfRangeFails(vm, t, addr, size, value, now);
      }
  }

  /** The answers of a run; operation `i` happens at time `times[i]`. */
  function Answers(vm: Vm, ops: seq<Op>, times: seq<int>): seq<Answer>
    requires Inv(vm) && |ops| == |times| && forall i | 0 <= i < |ops| :: Sensible(ops[i])
    decreases |ops|
  {
    if ops == [] then []
    else
      var (answer, vm') := Apply(vm, ops[0], times[0]);
      ApplyAgrees(vm, ops[0], times[0]);
      [answer] + Answers(vm', ops[1..], times[1..])
  }

  function FlatAnswers(m: Flat, ops: seq<Op>): seq<Answer>
    requires forall i | 0 <= i < |ops| :: Sensible(ops[i])
    decreases |ops|
  {
    if ops == [] then [] else [ApplyFlat(m, ops[0]).0] + FlatAnswers(ApplyFlat(m, ops[0]).1, ops[1..])
  }

  /** Demand paging is transparent: no run of operations, of any number of threads, tells it from flat memories. */
  lemma {:induction false} RunsAgree(vm: Vm, ops: seq<Op>, times: seq<int>)
    requires Inv(vm) && |ops| == |times| && forall i | 0 <= i < |ops| :: Sensible(ops[i])
    ensures Answers(vm, ops, times) == FlatAnswers(Meaning(vm), ops)
    decreases |ops|
  {
    hide Inv, Apply, ApplyFlat, Meaning;
    if ops != [] {
      ApplyAgrees(vm, ops[0], times[0]);
      RunsAgree(Apply(vm, ops[0], times[0]).1, ops[1..], times[1..]);
    }
  }
}
