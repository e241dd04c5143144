/** code/filesys/synchdisk.cc, code/machine/disk.h: the disk as an array of sectors behind a small write-through cache. */
module SynchDisks {
  import opened Words

  const SECTOR_SIZE := 128
  const NUM_SECTORS := 1024

  type Sector = s: seq<byte> | |s| == SECTOR_SIZE witness seq(SECTOR_SIZE, i => 0)

  const BLANK: Sector := seq(SECTOR_SIZE, i => 0)

  /** A whole disk. */
  type Disk = d: seq<Sector> | |d| == NUM_SECTORS ghost witness seq<Sector>(NUM_SECTORS, i => BLANK)

  /** `valid` is 1 for a live entry and -1 for a dead one; the value 0 is never stored. */
  datatype CacheEntry = CacheEntry(valid: int, dirty: int, sector: int, lru: int, data: Sector)

  /** The cache agrees with the disk, and caches no sector twice. */
  ghost predicate Coherent(cache: seq<CacheEntry>, sectors: Disk) {
    && (forall i | 0 <= i < |cache| && cache[i].valid == 1 ::
          0 <= cache[i].sector < |sectors| && cache[i].data == sectors[cache[i].sector])
    && (forall i, j | 0 <= i < j < |cache| && cache[i].valid == 1 && cache[j].valid == 1 ::
          cache[i].sector != cache[j].sector)
  }

  predicate Cached(cache: seq<CacheEntry>, n: int, i: int) {
    0 <= i < |cache| && cache[i].valid == 1 && cache[i].sector == n
  }

  /** What a read of sector `n` returns if it looks at entry `i`. */
  function ReadThrough(cache: seq<CacheEntry>, sectors: Disk, n: nat, i: nat): Sector
    requires n < NUM_SECTORS
  {
    if Cached(cache, n, i) then cache[i].data else sectors[n]
  }

  /** A hit at entry `i` renews its time stamp; a miss fills the entry. */
  function AfterRead(cache: seq<CacheEntry>, sectors: Disk, n: nat, i: nat, ticks: int): seq<CacheEntry>
    requires n < NUM_SECTORS && i < |cache|
  {
    cache[i := if Cached(cache, n, i) then cache[i].(lru := ticks) else CacheEntry(1, 0, n, ticks, sectors[n])]
  }

  /** A write marks every entry of the sector dead. */
  function Invalidated(cache: seq<CacheEntry>, n: nat): (r: seq<CacheEntry>)
    ensures |r| == |cache|
    ensures forall i | 0 <= i < |r| :: r[i] == if cache[i].sector == n then cache[i].(valid := -1) else cache[i]
  {
    if cache == [] then []
    else
      var last := cache[|cache| - 1];
      Invalidated(cache[..|cache| - 1], n) + [if last.sector == n then last.(valid := -1) else last]
  }

  lemma ReadKeepsCoherent(cache: seq<CacheEntry>, sectors: Disk, n: nat, i: nat, ticks: int)
    requires Coherent(cache, sectors) && n < NUM_SECTORS && i < |cache|
    requires Cached(cache, n, i) || forall j | 0 <= j < |cache| :: !Cached(cache, n, j)
    ensures Coherent(AfterRead(cache, sectors, n, i, ticks), sectors) && ReadThrough(cache, sectors, n, i) == sectors[n]
  {
    forall j | 0 <= j < |cache| && cache[j].valid == 1 && !Cached(cache, n, i)
      ensures cache[j].sector != n
    {
      assert !Cached(cache, n, j);
    }
  }

  lemma WriteKeepsCoherent(cache: seq<CacheEntry>, sectors: Disk, n: nat, data: Sector)
    requires Coherent(cache, sectors) && n < NUM_SECTORS
    ensures Coherent(Invalidated(cache, n), sectors[n := data])
  {
  }

  class SynchDisk {
    var sectors: Disk
    const cache: array<CacheEntry>

    ghost predicate Valid()
      reads this, cache
    {
      cache.Length > 0 && Coherent(cache[..], sectors)
    }

    /** Whatever the cache array holds at first, every entry is marked dead. */
    constructor (cacheSize: nat, onDisk: Disk, garbage: CacheEntry)
      requires cacheSize > 0
      ensures Valid() && fresh(cache) && cache.Length == cacheSize && sectors == onDisk
    {
      sectors := onDisk;
      cache := new CacheEntry[cacheSize](i => garbage);
      new;
      for i := 0 to cacheSize
        modifies cache
        invariant forall j | 0 <= j < i :: cache[j].valid == -1
      {
        cache[i] := cache[i].(valid := -1);
      }
    }

    method FindInCache(sectorNumber: nat) returns (index: int)
      ensures index == -1 || 0 <= index < cache.Length
      ensures index == -1 ==> forall i | 0 <= i < cache.Length :: cache[i].valid == 1 ==> cache[i].sector != sectorNumber
      ensures index != -1 ==> cache[index].valid == 1 && cache[index].sector == sectorNumber
    {
      for i := 0 to cache.Length
        invariant forall j | 0 <= j < i :: cache[j].valid == 1 ==> cache[j].sector != sectorNumber
      {
        if cache[i].valid == 1 && cache[i].sector == sectorNumber {
          return i;
        }
      }
      return -1;
    }

    method FindVictim() returns (swap: nat)
      requires cache.Length > 0
      ensures swap < cache.Length
      ensures (forall i | 0 <= i < cache.Length :: cache[i].valid != 0) ==>
                forall i | 0 <= i < cache.Length :: cache[swap].lru <= cache[i].lru
    {
      swap := 0;
      for i := 0 to cache.Length
        invariant swap < cache.Length
        invariant forall j | 0 <= j < i :: cache[swap].lru <= cache[j].lru
      {
        if cache[i].valid == 0 {
          return i;
        } else if cache[i].lru < cache[swap].lru {
          swap := i;
        }
      }
    }

    /** What `ReadSector` does while it holds the lock: looks at an entry that has the sector, or picks one for it. */
    method ReadLocked(sectorNumber: nat) returns (data: Sector, ghost entry: nat, ghost ticks: int)
      requires cache.Length > 0 && sectorNumber < NUM_SECTORS
      modifies cache
      ensures entry < cache.Length
      ensures Cached(old(cache[..]), sectorNumber, entry) || forall i | 0 <= i < cache.Length :: !Cached(old(cache[..]), sectorNumber, i)
      ensures data == ReadThrough(old(cache[..]), sectors, sectorNumber, entry)
      ensures cache[..] == AfterRead(old(cache[..]), sectors, sectorNumber, entry, ticks)
      ensures Cached(cache[..], sectorNumber, entry) && cache[entry].lru == ticks
      ensures !Cached(old(cache[..]), sectorNumber, entry) && (forall i | 0 <= i < cache.Length :: old(cache[i].valid) != 0) ==>
                forall i | 0 <= i < cache.Length :: old(cache[entry].lru) <= old(cache[i].lru)
    {
      var now: int := *;
      ticks := now;
      var index := FindInCache(sectorNumber);
      if index != -1 {
        data := cache[index].data;
        cache[index] := cache[index].(lru := now);
        entry := index;
      } else {
        data := sectors[sectorNumber];
        var swap := FindVictim();
        cache[swap] := CacheEntry(1, 0, sectorNumber, now, data);
        entry := swap;
      }
    }

    /** Returns what the sector holds, whether or not the cache had it; the clock value used for `lru` is arbitrary. */
    method ReadSector(sectorNumber: nat) returns (data: Sector)
      requires Valid() && sectorNumber < NUM_SECTORS
      modifies cache
      ensures Valid() && data == sectors[sectorNumber]
    {
      hide Coherent, AfterRead, ReadThrough;
      ghost var entry, ticks;
      ghost var before := cache[..];
      data, entry, ticks := ReadLocked(sectorNumber);
      ReadKeepsCoherent(before, sectors, sectorNumber, entry, ticks);
    }

    /** What `WriteSector` does while it holds the lock. */
    method WriteLocked(sectorNumber: nat, data: Sector)
      requires sectorNumber < NUM_SECTORS
      modifies this, cache
      ensures sectors == old(sectors)[sectorNumber := data] && cache[..] == Invalidated(old(cache[..]), sectorNumber)
    {
      sectors := sectors[sectorNumber := data];
      for i := 0 to cache.Length
        modifies cache
        invariant forall j | 0 <= j < i :: cache[j] == Invalidated(old(cache[..]), sectorNumber)[j]
        invariant forall j | i <= j < cache.Length :: cache[j] == old(cache[j])
      {
        if cache[i].sector == sectorNumber {
          cache[i] := cache[i].(valid := -1);
        }
      }
    }

    method WriteSector(sectorNumber: nat, data: Sector)
      requires Valid() && sectorNumber < NUM_SECTORS
      modifies this, cache
      ensures Valid() && sectors == old(sectors)[sectorNumber := data]
    {
      hide Coherent, Invalidated;
      WriteKeepsCoherent(cache[..], sectors, sectorNumber, data);
      WriteLocked(sectorNumber, data);
    }
  }
}
