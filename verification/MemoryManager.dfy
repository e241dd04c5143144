/** code/vm/MemoryManager.cc and its parts as an object whose tables are changed step by step. */
module MemoryManagers {
  import opened Words
  import opened Wrappers
  import opened Bitmaps
  import opened Paging

  class MemoryManager {
    const mainMemory: array<Page>
    const phyMemoryMap: Bitmap
    const phyMemPageTable: array<PhyMemPageEntry>
    const lastUsedTimeTable: array<int>
    var virtMemTable: map<int, AddrSpace>
    var virtPageNums: int

    ghost function Now(): Vm
      requires phyMemoryMap.Valid()
      reads this, mainMemory, phyMemoryMap.words, phyMemPageTable, lastUsedTimeTable
    {
      Vm(mainMemory[..], phyMemoryMap.Contents(), phyMemPageTable[..], lastUsedTimeTable[..], virtMemTable, virtPageNums)
    }

    ghost predicate Valid()
      reads this, mainMemory, phyMemoryMap.words, phyMemPageTable, lastUsedTimeTable
    {
      && phyMemoryMap.Valid() && Inv(Now()) && lastUsedTimeTable as object != phyMemoryMap.words as object
      && phyMemoryMap.numBits == mainMemory.Length
    }

    constructor (pageNums: nat)
      requires pageNums > 0
      ensures Valid() && virtMemTable == map[] && virtPageNums == 0 && mainMemory.Length == pageNums
      ensures fresh(mainMemory) && fresh(phyMemoryMap.words) && fresh(phyMemPageTable) && fresh(lastUsedTimeTable)
    {
      mainMemory := new Page[pageNums](i => seq(PAGE_SIZE, j => 0));
      phyMemoryMap := new Bitmap(pageNums);
      phyMemPageTable := new PhyMemPageEntry[pageNums](i => PhyMemPageEntry(0, 0));
      lastUsedTimeTable := new int[pageNums](i => -1);
      virtMemTable, virtPageNums := map[], 0;
    }

    /** The scan for the smallest weight. */
    method FindOneElementToSwap() returns (target: nat)
      requires lastUsedTimeTable.Length > 0
      ensures target == Oldest(lastUsedTimeTable[..], lastUsedTimeTable.Length)
    {
      var min := 0;
      target := 0;
      for i := 0 to lastUsedTimeTable.Length
        invariant i > 0 ==> target == Oldest(lastUsedTimeTable[..], i) && min == lastUsedTimeTable[target]
      {
        if i == 0 || lastUsedTimeTable[i] < min {
          min := lastUsedTimeTable[i];
          target := i;
        }
      }
    }

    method PageFaultHandler(currentThreadId: int, vpn: int, now: int)
      requires Valid() && HasPage(Now(), currentThreadId, vpn)
      modifies this`virtMemTable, mainMemory, phyMemoryMap.words, phyMemPageTable, lastUsedTimeTable
      ensures Valid() && Now() == PageFault(old(Now()), currentThreadId, vpn, now)
    {
      ghost var vm := Now();
      PageFaultKeeps(vm, currentThreadId, vpn, now);
      SizesOk(vm);
      hide InvBut, BitsOf, SameContents;
      if !virtMemTable[currentThreadId].pageTable[vpn].valid {
        var swapPhyPage := phyMemoryMap.FindAndSet();
        if swapPhyPage == -1 {
          swapPhyPage := FindOneElementToSwap();
          EvictKeeps(vm, swapPhyPage);
          Evict(swapPhyPage);
        }
        Load(currentThreadId, vpn, swapPhyPage, now);
      }
    }

    /** Writes the page in the frame back if it is dirty, and marks it absent. */
    method Evict(swapPhyPage: nat)
      requires phyMemoryMap.Valid() && swapPhyPage < mainMemory.Length == phyMemPageTable.Length
      requires HasPage(Now(), phyMemPageTable[swapPhyPage].mainThreadId, phyMemPageTable[swapPhyPage].virtualPage)
      modifies this`virtMemTable
      ensures Now() == Evicted(old(Now()), swapPhyPage)
    {
      hide BitsOf;
      var swapThreadId := phyMemPageTable[swapPhyPage].mainThreadId;
      var swapVirtPage := phyMemPageTable[swapPhyPage].virtualPage;
      var space := virtMemTable[swapThreadId];
      if space.pageTable[swapVirtPage].dirty {
        space := space.(backing := space.backing[swapVirtPage := mainMemory[swapPhyPage]]);
      }
      var entry := space.pageTable[swapVirtPage].(valid := false);
      virtMemTable := virtMemTable[swapThreadId := space.(pageTable := space.pageTable[swapVirtPage := entry])];
    }

    /** Enters the page in both tables and reads it from the file. */
    method Load(currentThreadId: int, vpn: int, swapPhyPage: nat, now: int)
      requires phyMemoryMap.Valid() && HasPage(Now(), currentThreadId, vpn) && lastUsedTimeTable as object != phyMemoryMap.words as object
      requires swapPhyPage < mainMemory.Length == phyMemPageTable.Length == lastUsedTimeTable.Length
      modifies this`virtMemTable, mainMemory, phyMemPageTable, lastUsedTimeTable
      ensures phyMemoryMap.Valid() && Now() == Loaded(old(Now()), currentThreadId, vpn, swapPhyPage, now)
    {
      hide BitsOf;
      phyMemPageTable[swapPhyPage] := PhyMemPageEntry(currentThreadId, vpn);
      lastUsedTimeTable[swapPhyPage] := now;
      var space := virtMemTable[currentThreadId];
      var entry := space.pageTable[vpn].(valid := true, physicalPage := swapPhyPage);
      virtMemTable := virtMemTable[currentThreadId := space.(pageTable := space.pageTable[vpn := entry])];
      mainMemory[swapPhyPage] := space.backing[vpn];
    }

    /** `false` if the limit on pages, which counts every page ever handed out, is reached. */
    method CreateAddrSpace(threadId: int, image: seq<Page>) returns (there: bool)
      requires Valid()
      modifies this
      ensures Valid() && Now() == Create(old(Now()), threadId, image) && there == (threadId in virtMemTable)
    {
      ghost var vm := Now();
      CreateKeeps(vm, threadId, image);
      hide InvBut, BitsOf;
      if threadId in virtMemTable {
        return true;
      }
      if virtPageNums + |image| > MAX_VIRT_PAGES {
        return false;
      }
      virtMemTable := virtMemTable[threadId := AddrSpace(seq(|image|, i => TranslationEntry(-1, false, false, false)), image)];
      virtPageNums := virtPageNums + |image|;
      return true;
    }

    /** `Machine::Translate`, through the page table. */
    method TranslateAddress(threadId: int, addr: word, size: nat, writing: bool) returns (x: Translation)
      requires phyMemoryMap.Valid() && threadId in virtMemTable
      modifies this`virtMemTable
      ensures phyMemoryMap.Valid() && (x, Now()) == Translate(old(Now()), threadId, addr, size, writing)
    {
      hide BitsOf;
      if (size == 4 && addr % 4 != 0) || (size == 2 && addr % 2 != 0) {
        return AddressErrorException;
      }
      var vpn, offset := addr / PAGE_SIZE, addr % PAGE_SIZE;
      var space := virtMemTable[threadId];
      if vpn >= |space.pageTable| {
        return AddressErrorException;
      } else if !space.pageTable[vpn].valid {
        return PageFaultException;
      }
      var entry := space.pageTable[vpn];
      if entry.readOnly && writing {
        return ReadOnlyException;
      }
      if !(0 <= entry.physicalPage < mainMemory.Length) {
        return BusErrorException;
      }
      if writing {
        virtMemTable := virtMemTable[threadId := space.(pageTable := space.pageTable[vpn := entry.(dirty := true)])];
      }
      return Physical(entry.physicalPage, offset);
    }

    /** The translation of `Machine::ReadMem` and `WriteMem`, tried again after a page fault. */
    method Locate(threadId: int, addr: word, size: nat, writing: bool, now: int) returns (x: Translation)
      requires Valid() && threadId in virtMemTable
      modifies this`virtMemTable, mainMemory, phyMemoryMap.words, phyMemPageTable, lastUsedTimeTable
      ensures phyMemoryMap.Valid() && (x, Now()) == Access(old(Now()), threadId, addr, size, writing, now)
    {
      SizesOk(Now());
      FaultHasPage(Now(), threadId, addr, size, writing);
      hide InvBut, BitsOf, Translate, PageFault;
      ghost var vm := Now();
      x := TranslateAddress(threadId, addr, size, writing);
      if x == PageFaultException {
        assert Now() == vm;
        PageFaultKeeps(vm, threadId, addr / PAGE_SIZE, now);
        PageFaultHandler(threadId, addr / PAGE_SIZE, now);
        x := TranslateAddress(threadId, addr, size, writing);
      }
    }

    method ReadMemory(threadId: int, addr: word, size: nat, now: int) returns (value: Option<word>)
      requires Valid() && threadId in virtMemTable && size in {1, 2, 4}
      modifies this`virtMemTable, mainMemory, phyMemoryMap.words, phyMemPageTable, lastUsedTimeTable
      ensures phyMemoryMap.Valid() && (value, Now()) == ReadMem(old(Now()), threadId, addr, size, now)
    {
      hide InvBut, BitsOf, Access, LoadedWord;
      var x := Locate(threadId, addr, size, false, now);
      if x.Physical? && 0 <= x.frame < mainMemory.Length && x.offset + size <= PAGE_SIZE {
        return Some(LoadedWord(mainMemory[x.frame], x.offset, size));
      }
      return None;
    }

    method WriteMemory(threadId: int, addr: word, size: nat, value: word, now: int) returns (ok: bool)
      requires Valid() && threadId in virtMemTable && size in {1, 2, 4}
      modifies this`virtMemTable, mainMemory, phyMemoryMap.words, phyMemPageTable, lastUsedTimeTable
      ensures phyMemoryMap.Valid() && (ok, Now()) == WriteMem(old(Now()), threadId, addr, size, value, now)
    {
      hide InvBut, BitsOf, Access, StoredPage;
      var x := Locate(threadId, addr, size, true, now);
      if x.Physical? && 0 <= x.frame < mainMemory.Length && x.offset + size <= PAGE_SIZE {
        mainMemory[x.frame] := StoredPage(mainMemory[x.frame], x.offset, size, value);
        return true;
      }
      return false;
    }

    /** Gives back the frames of the thread's pages one by one, then the space. */
    method DeleteAddrSpace(threadId: int)
      requires Valid()
      modifies this`virtMemTable, phyMemoryMap.words
      ensures Valid() && Now() == Delete(old(Now()), threadId)
    {
      ghost var vm := Now();
      DeleteKeeps(vm, threadId);
      hide InvBut, BitsOf;
      if threadId in virtMemTable {
        var pageTable := virtMemTable[threadId].pageTable;
        FramesInRange(vm, threadId);
        for i := 0 to |pageTable|
          modifies phyMemoryMap.words
          invariant phyMemoryMap.Valid() && phyMemoryMap.Contents() == Released(vm.used, pageTable, i)
          invariant lastUsedTimeTable[..] == vm.lastUsed
        {
          if pageTable[i].valid {
            phyMemoryMap.Clear(pageTable[i].physicalPage);
          }
        }
        virtMemTable := virtMemTable - {threadId};
      }
    }
  }

  lemma FaultHasPage(vm: Vm, t: int, addr: word, size: nat, writing: bool)
    requires Inv(vm) && t in vm.spaces
    ensures Translate(vm, t, addr, size, writing).0 == PageFaultException ==>
              HasPage(vm, t, addr / PAGE_SIZE) && Translate(vm, t, addr, size, writing).1 == vm
  {
  }

  lemma FramesInRange(vm: Vm, t: int)
    requires Inv(vm) && t in vm.spaces
    ensures forall p | 0 <= p < |vm.spaces[t].pageTable| && vm.spaces[t].pageTable[p].valid ::
              0 <= vm.spaces[t].pageTable[p].physicalPage < |vm.memory| == |vm.used|
  {
    var table := vm.spaces[t].pageTable;
    forall p | 0 <= p < |table| && table[p].valid
      ensures 0 <= table[p].physicalPage < |vm.memory|
    {
      assert HasPage(vm, t, p) && EntryOk(vm, t, p);
    }
  }
}
