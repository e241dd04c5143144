/** The sectors of a whole volume: which file owns which, and that no sector has two owners. */
module Volumes {
  import opened Words
  import opened Bitmaps
  import opened SynchDisks
  import opened FileHeaders
  import opened FileContents

  /**
   * The ownership invariant. `hs` gives, for the header sector of every file, its current header;
   * `bits` is the current free map. Every slot of every file is a sector of its own, marked in the map.
   */
  ghost predicate Owned(d: Disk, hs: map<int, Header>, bits: seq<bool>) {
    && |bits| == NUM_SECTORS
    && (forall f | f in hs :: WellFormed(d, hs[f], f) && hs[f].selfSector == f)
    && (forall f | f in hs :: SlotsMarked(d, hs[f], f, bits))
    && (forall f, g | f in hs && g in hs && f != g :: SlotsDisjoint(d, hs[f], f, hs[g], g))
  }

  ghost predicate SlotsDisjoint(d: Disk, h: Header, f: int, h': Header, f': int)
    requires WellFormed(d, h, f) && WellFormed(d, h', f')
  {
    forall j, k | IsSlot(h, j) && IsSlot(h', k) :: Slot(d, h, f, j) != Slot(d, h', f', k)
  }

  /** No slot of the file is among the sectors in which the disks differ. */
  ghost predicate Untouched(d: Disk, d': Disk, h: Header, f: int)
    requires WellFormed(d, h, f)
  {
    forall k | IsSlot(h, k) :: d'[Slot(d, h, f, k)] == d[Slot(d, h, f, k)]
  }

  /** An untouched file keeps its header sector, its slots and its contents. */
  lemma UntouchedKeeps(d: Disk, d': Disk, h: Header, f: int)
    requires WellFormed(d, h, f) && Untouched(d, d', h, f)
    ensures WellFormed(d', h, f) && d'[f] == d[f] && FileBytes(d', h) == FileBytes(d, h)
    ensures forall k | IsSlot(h, k) :: Slot(d', h, f, k) == Slot(d, h, f, k)
  {
    assert IsSlot(h, 0) && Slot(d, h, f, 0) == f;
    FileFrame(d, d', h, f);
  }

  /** Changing file `f` and nothing that another file owns keeps the ownership invariant. */
  lemma OwnedAfterChange(d: Disk, hs: map<int, Header>, bits: seq<bool>, d': Disk, h': Header, bits': seq<bool>, f: int)
    requires Owned(d, hs, bits) && |bits'| == NUM_SECTORS
    requires WellFormed(d', h', f) && h'.selfSector == f && SlotsMarked(d', h', f, bits')
    requires forall g | g in hs && g != f :: Untouched(d, d', hs[g], g) && SlotsMarked(d, hs[g], g, bits')
    requires forall g | g in hs && g != f :: forall j, k | IsSlot(h', j) && IsSlot(hs[g], k) :: Slot(d', h', f, j) != Slot(d, hs[g], g, k)
    ensures Owned(d', hs[f := h'], bits')
    ensures forall g | g in hs && g != f :: d'[g] == d[g] && FileBytes(d', hs[g]) == FileBytes(d, hs[g])
    ensures forall g | g in hs && g != f :: forall k | IsSlot(hs[g], k) :: Slot(d', hs[g], g, k) == Slot(d, hs[g], g, k)
  {
    forall g | g in hs && g != f
      ensures WellFormed(d', hs[g], g) && d'[g] == d[g] && FileBytes(d', hs[g]) == FileBytes(d, hs[g])
      ensures forall k | IsSlot(hs[g], k) :: Slot(d', hs[g], g, k) == Slot(d, hs[g], g, k)
    {
      UntouchedKeeps(d, d', hs[g], g);
    }
    var hs' := hs[f := h'];
    hide WellFormed;
    forall g, g' | g in hs' && g' in hs' && g != g'
      ensures SlotsDisjoint(d', hs'[g], g, hs'[g'], g')
    {
      if g != f && g' != f {
        assert SlotsDisjoint(d, hs[g], g, hs[g'], g');
      }
    }
  }

  /** Growing a file keeps the ownership invariant, with the new header and free map. */
  lemma OwnedAfterGrow(d: Disk, hs: map<int, Header>, bits: seq<bool>, d': Disk, h': Header, bits': seq<bool>, f: int, n: nat)
    requires Owned(d, hs, bits) && f in hs && |bits'| == NUM_SECTORS && Grown(d, hs[f], bits, d', h', bits', f, n)
    ensures Owned(d', hs[f := h'], bits')
    ensures forall g | g in hs && g != f :: d'[g] == d[g] && FileBytes(d', hs[g]) == FileBytes(d, hs[g])
  {
    var h := hs[f];
    forall g | g in hs && g != f
      ensures Untouched(d, d', hs[g], g) && SlotsMarked(d, hs[g], g, bits')
      ensures forall j, k | IsSlot(h', j) && IsSlot(hs[g], k) :: Slot(d', h', f, j) != Slot(d, hs[g], g, k)
    {
      assert SlotsDisjoint(d, h, f, hs[g], g);
      GrowthMisses(d, h, bits, d', h', bits', f, n, hs[g], g);
    }
    assert SlotsMarked(d', h', f, bits');
    OwnedAfterChange(d, hs, bits, d', h', bits', f);
  }

  lemma GrowthMisses(d: Disk, h: Header, bits: seq<bool>, d': Disk, h': Header, bits': seq<bool>, f: int, n: nat, hg: Header, g: int)
    requires WellFormed(d, h, f) && WellFormed(d, hg, g) && |bits| == |bits'| == NUM_SECTORS
    requires SlotsDisjoint(d, h, f, hg, g) && SlotsMarked(d, hg, g, bits) && Grown(d, h, bits, d', h', bits', f, n)
    ensures Untouched(d, d', hg, g) && SlotsMarked(d, hg, g, bits')
    ensures forall j, k | IsSlot(h', j) && IsSlot(hg, k) :: Slot(d', h', f, j) != Slot(d, hg, g, k)
  {
    forall j, k | IsSlot(h', j) && IsSlot(hg, k)
      ensures Slot(d', h', f, j) != Slot(d, hg, g, k)
    {
      assert bits[Slot(d, hg, g, k)];
      if IsSlot(h, j) {
        assert Slot(d', h', f, j) == Slot(d, h, f, j);
      }
    }
    forall k | IsSlot(hg, k)
      ensures d'[Slot(d, hg, g, k)] == d[Slot(d, hg, g, k)]
    {
      if h'.nsectors > NUM_DIRECT {
        assert IsSlot(h', 1) && Slot(d', h', f, 1) == h'.dataSectors[NUM_DIRECT];
      }
    }
  }

  /** Writing into a file keeps the ownership invariant and every other file's header and contents. */
  lemma OwnedAfterStore(d: Disk, hs: map<int, Header>, bits: seq<bool>, d': Disk, h': Header, f: int, position: nat, from: seq<byte>)
    requires Owned(d, hs, bits) && f in hs && position <= hs[f].limit && Stored(d, hs[f], d', h', f, position, from)
    ensures Owned(d', hs[f := h'], bits)
    ensures forall g | g in hs && g != f :: d'[g] == d[g] && FileBytes(d', hs[g]) == FileBytes(d, hs[g])
    ensures forall g | g in hs && g != f :: forall k | IsSlot(hs[g], k) :: Slot(d', hs[g], g, k) == Slot(d, hs[g], g, k)
  {
    var h := hs[f];
    forall g | g in hs && g != f
      ensures Untouched(d, d', hs[g], g)
      ensures forall j, k | IsSlot(h', j) && IsSlot(hs[g], k) :: Slot(d', h', f, j) != Slot(d, hs[g], g, k)
    {
      assert SlotsDisjoint(d, h, f, hs[g], g);
      StoreMisses(d, h, d', h', f, position, from, hs[g], g);
    }
    assert SlotsMarked(d', h', f, bits);
    OwnedAfterChange(d, hs, bits, d', h', bits, f);
  }

  lemma StoreMisses(d: Disk, h: Header, d': Disk, h': Header, f: int, position: nat, from: seq<byte>, hg: Header, g: int)
    requires WellFormed(d, h, f) && WellFormed(d, hg, g) && SlotsDisjoint(d, h, f, hg, g)
    requires position <= h.limit && Stored(d, h, d', h', f, position, from)
    ensures Untouched(d, d', hg, g)
    ensures forall j, k | IsSlot(h', j) && IsSlot(hg, k) :: Slot(d', h', f, j) != Slot(d, hg, g, k)
  {
    forall j, k | IsSlot(h', j) && IsSlot(hg, k)
      ensures Slot(d', h', f, j) != Slot(d, hg, g, k)
    {
      assert IsSlot(h, j) && Slot(d', h', f, j) == Slot(d, h, f, j);
    }
    forall k | IsSlot(hg, k)
      ensures d'[Slot(d, hg, g, k)] == d[Slot(d, hg, g, k)]
    {
      var s := Slot(d, hg, g, k);
      assert IsSlot(h, 0) && Slot(d, h, f, 0) == f != s;
      if d'[s] != d[s] {
        var n: nat :| n < h.nsectors && s == DataSector(d, h, n);
        BlockIsSlot(d, h, f, n);
        assert false;
      }
    }
  }

  /** The header stored in sector `f`. */
  function HdrAt(d: Disk, f: nat): Header
    requires f < NUM_SECTORS
  {
    Parse(d[f])
  }

  const FREE_MAP_SECTOR := 0
  const FREE_MAP_BYTES := NUM_SECTORS / 8

  /** The free map as it stands in the file whose header is `h`. */
  function FreeMap(d: Disk, h: Header): (bits: seq<bool>)
    ensures |bits| == NUM_SECTORS
  {
    if h.limit == FREE_MAP_BYTES then BitsOf(ToWords(FileBytes(d, h)), NUM_SECTORS)
    else seq(NUM_SECTORS, i => false)
  }

  /** `hs` is what the disk holds in the header sectors, and the free map on disk accounts for every file. */
  ghost predicate Volume(d: Disk, hs: map<int, Header>) {
    && FREE_MAP_SECTOR in hs
    && hs[FREE_MAP_SECTOR].limit == hs[FREE_MAP_SECTOR].capacity == FREE_MAP_BYTES
    && Owned(d, hs, FreeMap(d, hs[FREE_MAP_SECTOR]))
    && forall f | f in hs :: 0 <= f < NUM_SECTORS && HdrAt(d, f) == hs[f]
  }

  /** A write that fits keeps the volume. */
  lemma VolumeAfterStore(d: Disk, hs: map<int, Header>, d': Disk, h': Header, f: int, position: nat, from: seq<byte>)
    requires Volume(d, hs) && f in hs && f != FREE_MAP_SECTOR && position <= hs[f].limit
    requires Stored(d, hs[f], d', h', f, position, from)
    ensures Volume(d', hs[f := h']) && FreeMap(d', hs[FREE_MAP_SECTOR]) == FreeMap(d, hs[FREE_MAP_SECTOR])
    ensures forall g | g in hs && g != f :: FileBytes(d', hs[g]) == FileBytes(d, hs[g])
  {
    OwnedAfterStore(d, hs, FreeMap(d, hs[FREE_MAP_SECTOR]), d', h', f, position, from);
    ParseImage(h');
    hide Owned, Stored, Parse, Image, Prefix;
  }

  /** A sector that holds the header or a data block of a file. */
  ghost predicate InFile(d: Disk, h: Header, f: int, s: int) {
    s == f || (0 < h.nsectors <= MAX_BLOCKS && InBlocks(d, h, 0, h.nsectors - 1, s))
  }

  ghost predicate SlotsStay(d: Disk, h: Header, d': Disk, h': Header, f: int) {
    && h.nsectors <= MAX_BLOCKS && h'.nsectors <= MAX_BLOCKS
    && forall k | IsSlot(h, k) :: IsSlot(h', k) && Slot(d', h', f, k) == Slot(d, h, f, k)
  }

  /**
   * What happens on disk when a file `f`, new or not, gets a header `h'`: its old blocks stay, its new ones were clear,
   * the stored map marks exactly the new ones in addition, the headers of the map and of file `p` are as before, and
   * nothing is written but the file itself, the map and the blocks of file `p`.
   */
  ghost predicate Replaced(d: Disk, hs: map<int, Header>, f: int, h': Header, p: int, d': Disk) {
    && FREE_MAP_SECTOR in hs && p in hs && 0 <= p < NUM_SECTORS && f != p && f != FREE_MAP_SECTOR
    && var bits, bits' := FreeMap(d, hs[FREE_MAP_SECTOR]), FreeMap(d', hs[FREE_MAP_SECTOR]);
    && WellFormed(d', h', f) && h'.selfSector == f && HdrAt(d', f) == h'
    && (f in hs ==> SlotsStay(d, hs[f], d', h', f))
    && (forall k | IsSlot(h', k) && !(f in hs && IsSlot(hs[f], k)) :: !bits[Slot(d', h', f, k)])
    && (forall s | 0 <= s < NUM_SECTORS :: bits'[s] <==> bits[s] || Owns(d', h', f, s))
    && HdrAt(d', p) == hs[p] && HdrAt(d', FREE_MAP_SECTOR) == hs[FREE_MAP_SECTOR]
    && (forall s | 0 <= s < NUM_SECTORS && d'[s] != d[s] ::
          Owns(d', h', f, s) || InFile(d, hs[p], p, s) || InFile(d, hs[FREE_MAP_SECTOR], FREE_MAP_SECTOR, s))
  }

  /** What another file's slot has to do with the sectors of file `p`. */
  lemma SlotOutside(d: Disk, hs: map<int, Header>, bits: seq<bool>, p: int, g: int, k: int)
    requires Owned(d, hs, bits) && p in hs && g in hs && IsSlot(hs[g], k)
    ensures WellFormed(d, hs[g], g) && 0 <= Slot(d, hs[g], g, k) < NUM_SECTORS && bits[Slot(d, hs[g], g, k)]
    ensures InFile(d, hs[p], p, Slot(d, hs[g], g, k)) ==> p == g && k != 1
  {
    OwnedFacts(d, hs, bits, g);
    OwnedFacts(d, hs, bits, p);
    var s := Slot(d, hs[g], g, k);
    assert IsSlot(hs[p], 0) && Slot(d, hs[p], p, 0) == p;
    assert p != g ==> SlotsDisjoint(d, hs[p], p, hs[g], g);
    if InFile(d, hs[p], p, s) && s != p {
      var n: nat :| n <= hs[p].nsectors - 1 && s == DataSector(d, hs[p], n);
      BlockIsSlot(d, hs[p], p, n);
    }
  }

  /** No slot of another file is among those of the file that is replaced, and only blocks of `p` and the map change. */
  lemma ReplacedMisses(d: Disk, hs: map<int, Header>, f: int, h': Header, p: int, d': Disk, g: int, k: int)
    requires Volume(d, hs) && Replaced(d, hs, f, h', p, d') && g in hs && g != f && IsSlot(hs[g], k)
    ensures WellFormed(d, hs[g], g)
    ensures var s := Slot(d, hs[g], g, k);
            && 0 <= s < NUM_SECTORS && !Owns(d', h', f, s) && FreeMap(d', hs[FREE_MAP_SECTOR])[s]
            && (d'[s] != d[s] ==> k != 1 && (g == p || g == FREE_MAP_SECTOR))
  {
    hide FreeMap, Parse, InFile;
    var bits := FreeMap(d, hs[FREE_MAP_SECTOR]);
    SlotOutside(d, hs, bits, p, g, k);
    SlotOutside(d, hs, bits, FREE_MAP_SECTOR, g, k);
    assert f in hs ==> SlotsDisjoint(d, hs[f], f, hs[g], g);
  }

  lemma ReplacedKeepsFile(d: Disk, hs: map<int, Header>, f: int, h': Header, p: int, d': Disk, g: int)
    requires Volume(d, hs) && Replaced(d, hs, f, h', p, d') && g in hs && g != f
    ensures WellFormed(d', hs[g], g) && SlotsMarked(d', hs[g], g, FreeMap(d', hs[FREE_MAP_SECTOR]))
    ensures SlotsStay(d, hs[g], d', hs[g], g) && SlotsDisjoint(d', h', f, hs[g], g) && SlotsDisjoint(d', hs[g], g, h', f)
    ensures 0 <= g < NUM_SECTORS && HdrAt(d', g) == hs[g]
    ensures g != p && g != FREE_MAP_SECTOR ==> FileBytes(d', hs[g]) == FileBytes(d, hs[g])
  {
    hide FreeMap, Parse, Owned, InFile;
    VolumeFacts(d, hs, g);
    IndirectFacts(d, hs[g], g);
    forall k | IsSlot(hs[g], k)
      ensures var s := Slot(d, hs[g], g, k);
              && 0 <= s < NUM_SECTORS && !Owns(d', h', f, s) && FreeMap(d', hs[FREE_MAP_SECTOR])[s]
              && (d'[s] != d[s] ==> k != 1 && (g == p || g == FREE_MAP_SECTOR))
    {
      ReplacedMisses(d, hs, f, h', p, d', g, k);
    }
    if hs[g].nsectors > NUM_DIRECT {
      assert IsSlot(hs[g], 1) && Slot(d, hs[g], g, 1) == hs[g].dataSectors[NUM_DIRECT];
    }
    MapFrame(d, d', hs[g], g);
    assert IsSlot(hs[g], 0) && Slot(d, hs[g], g, 0) == g;
    if g != p && g != FREE_MAP_SECTOR {
      FileFrame(d, d', hs[g], g);
    }
  }

  /** Replacing a file keeps the volume, and every file but the map and `p` byte for byte. */
  lemma ReplacedKeepsVolume(d: Disk, hs: map<int, Header>, f: int, h': Header, p: int, d': Disk)
    requires Volume(d, hs) && Replaced(d, hs, f, h', p, d')
    ensures Volume(d', hs[f := h'])
    ensures forall g | g in hs && g != f && g != p && g != FREE_MAP_SECTOR :: FileBytes(d', hs[g]) == FileBytes(d, hs[g])
    ensures forall g | g in hs && g != f :: SlotsStay(d, hs[g], d', hs[g], g)
  {
    hide FreeMap, Parse, FileBytes, InFile, SlotsStay;
    var hs', bits' := hs[f := h'], FreeMap(d', hs[FREE_MAP_SECTOR]);
    forall g | g in hs && g != f
      ensures WellFormed(d', hs[g], g) && SlotsMarked(d', hs[g], g, bits')
      ensures SlotsStay(d, hs[g], d', hs[g], g) && SlotsDisjoint(d', h', f, hs[g], g) && SlotsDisjoint(d', hs[g], g, h', f)
      ensures 0 <= g < NUM_SECTORS && HdrAt(d', g) == hs[g]
      ensures g != p && g != FREE_MAP_SECTOR ==> FileBytes(d', hs[g]) == FileBytes(d, hs[g])
    {
      ReplacedKeepsFile(d, hs, f, h', p, d', g);
    }
    assert SlotsMarked(d', h', f, bits') by { SelfMarked(d', h', f, bits'); }
    hide WellFormed, SlotsMarked;
    forall g, g' | g in hs' && g' in hs' && g != g'
      ensures SlotsDisjoint(d', hs'[g], g, hs'[g'], g')
    {
      if g != f && g' != f {
        assert SlotsDisjoint(d, hs[g], g, hs[g'], g');
        DisjointStays(d, d', hs[g], g, hs[g'], g');
      }
    }
  }

  lemma SelfMarked(d: Disk, h: Header, f: int, bits: seq<bool>)
    requires |bits| == NUM_SECTORS && WellFormed(d, h, f) && forall s | 0 <= s < NUM_SECTORS && Owns(d, h, f, s) :: bits[s]
    ensures SlotsMarked(d, h, f, bits)
  {
    forall k | IsSlot(h, k)
      ensures bits[Slot(d, h, f, k)]
    {
      assert Owns(d, h, f, Slot(d, h, f, k));
    }
  }

  lemma DisjointStays(d: Disk, d': Disk, h: Header, g: int, h': Header, g': int)
    requires WellFormed(d, h, g) && WellFormed(d, h', g') && WellFormed(d', h, g) && WellFormed(d', h', g')
    requires SlotsDisjoint(d, h, g, h', g') && SlotsStay(d, h, d', h, g) && SlotsStay(d, h', d', h', g')
    ensures SlotsDisjoint(d', h, g, h', g')
  {
    hide WellFormed;
  }

  /**
   * What happens on disk when file `x` goes: the stored map gives up exactly its sectors, the headers of the map and
   * of file `p` are as before, and nothing is written but the map and the blocks of file `p`.
   */
  ghost predicate Vacated(d: Disk, hs: map<int, Header>, x: int, p: int, d': Disk) {
    && FREE_MAP_SECTOR in hs && p in hs && 0 <= p < NUM_SECTORS && x in hs && x != p && x != FREE_MAP_SECTOR
    && (forall s | 0 <= s < NUM_SECTORS ::
          FreeMap(d', hs[FREE_MAP_SECTOR])[s] <==> FreeMap(d, hs[FREE_MAP_SECTOR])[s] && !Owns(d, hs[x], x, s))
    && HdrAt(d', p) == hs[p] && HdrAt(d', FREE_MAP_SECTOR) == hs[FREE_MAP_SECTOR]
    && (forall s | 0 <= s < NUM_SECTORS && d'[s] != d[s] ::
          InFile(d, hs[p], p, s) || InFile(d, hs[FREE_MAP_SECTOR], FREE_MAP_SECTOR, s))
  }

  lemma VacatedMisses(d: Disk, hs: map<int, Header>, x: int, p: int, d': Disk, g: int, k: int)
    requires Volume(d, hs) && Vacated(d, hs, x, p, d') && g in hs && g != x && IsSlot(hs[g], k)
    ensures WellFormed(d, hs[g], g)
    ensures var s := Slot(d, hs[g], g, k);
            && 0 <= s < NUM_SECTORS && FreeMap(d', hs[FREE_MAP_SECTOR])[s]
            && (d'[s] != d[s] ==> k != 1 && (g == p || g == FREE_MAP_SECTOR))
  {
    hide FreeMap, Parse, InFile;
    var bits := FreeMap(d, hs[FREE_MAP_SECTOR]);
    SlotOutside(d, hs, bits, p, g, k);
    SlotOutside(d, hs, bits, FREE_MAP_SECTOR, g, k);
    OwnedFacts(d, hs, bits, x);
    assert SlotsDisjoint(d, hs[x], x, hs[g], g);
  }

  lemma VacatedKeepsFile(d: Disk, hs: map<int, Header>, x: int, p: int, d': Disk, g: int)
    requires Volume(d, hs) && Vacated(d, hs, x, p, d') && g in hs && g != x
    ensures WellFormed(d', hs[g], g) && SlotsMarked(d', hs[g], g, FreeMap(d', hs[FREE_MAP_SECTOR]))
    ensures SlotsStay(d, hs[g], d', hs[g], g) && 0 <= g < NUM_SECTORS && HdrAt(d', g) == hs[g]
    ensures g != p && g != FREE_MAP_SECTOR ==> FileBytes(d', hs[g]) == FileBytes(d, hs[g])
  {
    hide FreeMap, Parse, Owned, InFile;
    VolumeFacts(d, hs, g);
    IndirectFacts(d, hs[g], g);
    forall k | IsSlot(hs[g], k)
      ensures var s := Slot(d, hs[g], g, k);
              && 0 <= s < NUM_SECTORS && FreeMap(d', hs[FREE_MAP_SECTOR])[s]
              && (d'[s] != d[s] ==> k != 1 && (g == p || g == FREE_MAP_SECTOR))
    {
      VacatedMisses(d, hs, x, p, d', g, k);
    }
    if hs[g].nsectors > NUM_DIRECT {
      assert IsSlot(hs[g], 1) && Slot(d, hs[g], g, 1) == hs[g].dataSectors[NUM_DIRECT];
    }
    MapFrame(d, d', hs[g], g);
    assert IsSlot(hs[g], 0) && Slot(d, hs[g], g, 0) == g;
    if g != p && g != FREE_MAP_SECTOR {
      FileFrame(d, d', hs[g], g);
    }
  }

  /** Vacating a file keeps the volume of the others, and every one but the map and `p` byte for byte. */
  lemma VacatedKeepsVolume(d: Disk, hs: map<int, Header>, x: int, p: int, d': Disk)
    requires Volume(d, hs) && Vacated(d, hs, x, p, d')
    ensures Volume(d', hs - {x})
    ensures forall g | g in hs && g != x && g != p && g != FREE_MAP_SECTOR :: FileBytes(d', hs[g]) == FileBytes(d, hs[g])
    ensures forall g | g in hs && g != x :: SlotsStay(d, hs[g], d', hs[g], g)
  {
    hide FreeMap, Parse, FileBytes, InFile, SlotsStay;
    forall g | g in hs && g != x
      ensures WellFormed(d', hs[g], g) && SlotsMarked(d', hs[g], g, FreeMap(d', hs[FREE_MAP_SECTOR]))
      ensures SlotsStay(d, hs[g], d', hs[g], g) && 0 <= g < NUM_SECTORS && HdrAt(d', g) == hs[g]
      ensures g != p && g != FREE_MAP_SECTOR ==> FileBytes(d', hs[g]) == FileBytes(d, hs[g])
    {
      VacatedKeepsFile(d, hs, x, p, d', g);
    }
    hide WellFormed, SlotsMarked;
    forall g, g' | g in hs && g' in hs && g != x && g' != x && g != g'
      ensures SlotsDisjoint(d', hs[g], g, hs[g'], g')
    {
      assert SlotsDisjoint(d, hs[g], g, hs[g'], g');
      DisjointStays(d, d', hs[g], g, hs[g'], g');
    }
  }

  /** Why growing a file by `size` bytes cannot succeed. */
  predicate CannotGrow(h: Header, bits: seq<bool>, size: nat) {
    || size + h.capacity > MAX_FILE_SIZE
    || CountClear(bits) < BlocksFor(size)
    || (NeedsIndirect(h, BlocksFor(size)) && CountClear(bits) == BlocksFor(size))
  }

  /** The slots of `h` stay where they were, and the new slots of `h'` are sectors that were clear in `bits`. */
  ghost predicate GrewFrom(d: Disk, h: Header, bits: seq<bool>, d': Disk, h': Header, f: int)
    requires WellFormed(d, h, f) && WellFormed(d', h', f) && |bits| == NUM_SECTORS
  {
    && (forall k | IsSlot(h, k) :: IsSlot(h', k) && Slot(d', h', f, k) == Slot(d, h, f, k))
    && (forall k | IsSlot(h', k) && !IsSlot(h, k) :: !bits[Slot(d', h', f, k)])
  }

  /** What `WriteAt` does when it has to grow the file by `size` bytes first. */
  ghost predicate GrownStored(d: Disk, hs: map<int, Header>, d': Disk, h': Header, f: int, position: nat, from: seq<byte>, size: nat)
    requires FREE_MAP_SECTOR in hs && f in hs && position <= hs[f].limit
  {
    var h, n, bits := hs[f], BlocksFor(size), FreeMap(d, hs[FREE_MAP_SECTOR]);
    && Replaced(d, hs, f, h', FREE_MAP_SECTOR, d')
    && h' == h.(limit := h'.limit, capacity := h'.capacity, nsectors := h'.nsectors, dataSectors := h'.dataSectors)
    && h'.limit == position + |from| && h'.nsectors == h.nsectors + n
    && FileBytes(d', h') == FileBytes(d, h)[..position] + from
    && CountClear(FreeMap(d', hs[FREE_MAP_SECTOR])) == CountClear(bits) - n - (if NeedsIndirect(h, n) then 1 else 0)
  }

  lemma GrownStoredBytes(d: Disk, hs: map<int, Header>, d': Disk, h': Header, f: int, position: nat, from: seq<byte>, size: nat)
    requires FREE_MAP_SECTOR in hs && f in hs && position <= hs[f].limit && GrownStored(d, hs, d', h', f, position, from, size)
    ensures h'.limit == position + |from| && FileBytes(d', h') == FileBytes(d, hs[f])[..position] + from
    ensures h'.nsectors == hs[f].nsectors + BlocksFor(size)
  {
    hide Replaced, FileBytes, FreeMap;
  }

  lemma GrownGrewFrom(d: Disk, h: Header, bits: seq<bool>, d': Disk, h': Header, bits': seq<bool>, f: int, n: nat)
    requires WellFormed(d, h, f) && |bits| == |bits'| == NUM_SECTORS && Grown(d, h, bits, d', h', bits', f, n)
    ensures WellFormed(d', h', f) && GrewFrom(d, h, bits, d', h', f)
    ensures h'.nsectors == h.nsectors + n && h'.limit == h.limit && h'.selfSector == h.selfSector
    ensures h' == h.(nsectors := h'.nsectors, capacity := h'.capacity, dataSectors := h'.dataSectors)
    ensures CountClear(bits') == CountClear(bits) - n - (if NeedsIndirect(h, n) then 1 else 0)
  {
  }

  lemma GrewFromThenStored(d: Disk, h: Header, bits: seq<bool>, d1: Disk, h1: Header, d': Disk, h': Header, f: int,
                           position: nat, from: seq<byte>)
    requires WellFormed(d, h, f) && WellFormed(d1, h1, f) && |bits| == NUM_SECTORS && GrewFrom(d, h, bits, d1, h1, f)
    requires position <= h1.limit && Stored(d1, h1, d', h', f, position, from)
    ensures WellFormed(d', h', f) && GrewFrom(d, h, bits, d', h', f)
  {
  }

  lemma GrownKeepsBytes(d: Disk, h: Header, bits: seq<bool>, d': Disk, h': Header, bits': seq<bool>, f: int, n: nat)
    requires WellFormed(d, h, f) && |bits| == |bits'| == NUM_SECTORS && Grown(d, h, bits, d', h', bits', f, n)
    ensures FileBytes(d', h') == FileBytes(d, h)
  {
    FileBytesAt(d, h);
    FileBytesAt(d', h');
    forall i | 0 <= i < h.limit
      ensures ByteAt(d', h', i) == ByteAt(d, h, i)
    {
      var m := i / SECTOR_SIZE;
      BlockIsSlot(d, h, f, m);
      BlockIsSlot(d', h', f, m);
      assert Slot(d', h', f, m + 2) == Slot(d, h, f, m + 2);
    }
  }

  lemma SlotsKeptGrewFrom(d: Disk, h: Header, bits: seq<bool>, d1: Disk, d2: Disk, h1: Header, f: int)
    requires WellFormed(d, h, f) && WellFormed(d1, h1, f) && |bits| == NUM_SECTORS && GrewFrom(d, h, bits, d1, h1, f)
    requires WellFormed(d2, h1, f) && forall k | IsSlot(h1, k) :: Slot(d2, h1, f, k) == Slot(d1, h1, f, k)
    ensures GrewFrom(d, h, bits, d2, h1, f)
  {
  }

  lemma StoredFacts(d: Disk, h: Header, d': Disk, h': Header, f: int, position: nat, from: seq<byte>)
    requires WellFormed(d, h, f) && position <= h.limit && Stored(d, h, d', h', f, position, from)
    ensures WellFormed(d', h', f) && 0 <= f < NUM_SECTORS && HdrAt(d', f) == h'
    ensures h' == h.(limit := h'.limit) && h'.limit == position + |from|
    ensures FileBytes(d', h') == FileBytes(d, h)[..position] + from
  {
    ParseImage(h');
  }

  lemma OwnedFacts(d: Disk, hs: map<int, Header>, bits: seq<bool>, f: int)
    requires Owned(d, hs, bits) && f in hs
    ensures WellFormed(d, hs[f], f) && SlotsMarked(d, hs[f], f, bits) && hs[f].selfSector == f
  {
  }

  lemma VolumeFacts(d: Disk, hs: map<int, Header>, f: int)
    requires Volume(d, hs) && f in hs
    ensures WellFormed(d, hs[f], f) && Owned(d, hs, FreeMap(d, hs[FREE_MAP_SECTOR])) && FREE_MAP_SECTOR in hs
    ensures hs[f].selfSector == f
    ensures WellFormed(d, hs[FREE_MAP_SECTOR], FREE_MAP_SECTOR) && hs[FREE_MAP_SECTOR].limit == FREE_MAP_BYTES
  {
  }

  /** The map in memory marks exactly the file's new blocks in addition; only its indirect block and the map are written. */
  ghost predicate MapAccounts(d: Disk, hs: map<int, Header>, f: int, d2: Disk, h1: Header, bits1: seq<bool>) {
    && FREE_MAP_SECTOR in hs && |bits1| == NUM_SECTORS
    && (forall s | 0 <= s < NUM_SECTORS :: bits1[s] <==> FreeMap(d, hs[FREE_MAP_SECTOR])[s] || Owns(d2, h1, f, s))
    && (forall s | 0 <= s < NUM_SECTORS && d2[s] != d[s] :: Owns(d2, h1, f, s) || InFile(d, hs[FREE_MAP_SECTOR], FREE_MAP_SECTOR, s))
  }

  lemma AccountsAfterGrow(d: Disk, hs: map<int, Header>, f: int, n: nat, d1: Disk, h1: Header, bits1: seq<bool>)
    requires Volume(d, hs) && f in hs && WellFormed(d, hs[f], f)
    requires |bits1| == NUM_SECTORS && Grown(d, hs[f], FreeMap(d, hs[FREE_MAP_SECTOR]), d1, h1, bits1, f, n)
    ensures MapAccounts(d, hs, f, d1, h1, bits1)
  {
    hide FreeMap, Parse, InFile;
    var bits := FreeMap(d, hs[FREE_MAP_SECTOR]);
    OwnedFacts(d, hs, bits, f);
    forall s | 0 <= s < NUM_SECTORS && d1[s] != d[s]
      ensures Owns(d1, h1, f, s)
    {
      assert IsSlot(h1, 1) && Slot(d1, h1, f, 1) == s;
    }
    forall s | 0 <= s < NUM_SECTORS && Owns(d1, h1, f, s)
      ensures bits1[s]
    {
      var k :| IsSlot(h1, k) && Slot(d1, h1, f, k) == s;
      if IsSlot(hs[f], k) {
        assert bits[Slot(d, hs[f], f, k)];
      }
    }
  }

  /** The blocks of a file without an indirect block are where its header says, whatever the disk. */
  lemma DirectFile(d: Disk, d': Disk, h: Header, f: int, s: int)
    requires h.nsectors <= NUM_DIRECT
    ensures InFile(d, h, f, s) == InFile(d', h, f, s)
  {
    if 0 < h.nsectors && InBlocks(d, h, 0, h.nsectors - 1, s) {
      var n: nat :| n <= h.nsectors - 1 && s == DataSector(d, h, n);
      assert s == DataSector(d', h, n);
    }
    if 0 < h.nsectors && InBlocks(d', h, 0, h.nsectors - 1, s) {
      var n: nat :| n <= h.nsectors - 1 && s == DataSector(d', h, n);
      assert s == DataSector(d, h, n);
    }
  }

  lemma SameOwns(d: Disk, d': Disk, h: Header, h': Header, f: int, s: int)
    requires h'.nsectors == h.nsectors && SlotsStay(d, h, d', h', f)
    ensures Owns(d', h', f, s) == Owns(d, h, f, s)
  {
    if k :| h.nsectors <= MAX_BLOCKS && IsSlot(h, k) && Slot(d, h, f, k) == s {
      assert IsSlot(h', k);
    }
  }

  /** Where a file of direct blocks has its sectors does not depend on the disk. */
  lemma DirectOwns(d: Disk, d': Disk, h: Header, h': Header, x: int, s: int)
    requires h.nsectors <= NUM_DIRECT && h' == h.(limit := h'.limit)
    ensures Owns(d, h, x, s) == Owns(d', h', x, s)
  {
    SameOwns(d, d', h, h', x, s);
  }

  lemma AccountsAfterMapStore(d: Disk, hs: map<int, Header>, f: int, d1: Disk, h1: Header, bits1: seq<bool>, d2: Disk, map1: seq<byte>)
    requires MapAccounts(d, hs, f, d1, h1, bits1) && hs[FREE_MAP_SECTOR].capacity == FREE_MAP_BYTES
    requires WellFormed(d1, hs[FREE_MAP_SECTOR], FREE_MAP_SECTOR)
    requires Stored(d1, hs[FREE_MAP_SECTOR], d2, hs[FREE_MAP_SECTOR], FREE_MAP_SECTOR, 0, map1)
    requires SlotsStay(d1, h1, d2, h1, f)
    ensures MapAccounts(d, hs, f, d2, h1, bits1)
  {
    hide FreeMap, FileBytes, Owns, SlotsStay, Image;
    var hm := hs[FREE_MAP_SECTOR];
    IndirectFacts(d1, hm, FREE_MAP_SECTOR);
    forall s | 0 <= s < NUM_SECTORS
      ensures Owns(d2, h1, f, s) == Owns(d1, h1, f, s) && InFile(d1, hm, FREE_MAP_SECTOR, s) == InFile(d, hm, FREE_MAP_SECTOR, s)
    {
      SameOwns(d1, d2, h1, h1, f, s);
      DirectFile(d, d1, hm, FREE_MAP_SECTOR, s);
    }
    forall s | 0 <= s < NUM_SECTORS && d2[s] != d1[s]
      ensures InFile(d1, hm, FREE_MAP_SECTOR, s)
    {
    }
    hide InFile, WellFormed, Stored;
  }

  /** Storing the bytes of a growing write, after the map. */
  lemma ReplacedAfterStore(d: Disk, hs: map<int, Header>, f: int, d2: Disk, h1: Header, bits1: seq<bool>,
                           d3: Disk, h3: Header, position: nat, from: seq<byte>)
    requires MapAccounts(d, hs, f, d2, h1, bits1) && f in hs && f != FREE_MAP_SECTOR && h1.selfSector == f
    requires WellFormed(d, hs[f], f) && WellFormed(d2, h1, f) && position <= h1.limit && Stored(d2, h1, d3, h3, f, position, from)
    requires WellFormed(d3, h3, f) && HdrAt(d3, f) == h3 && GrewFrom(d, hs[f], FreeMap(d, hs[FREE_MAP_SECTOR]), d3, h3, f)
    requires FreeMap(d3, hs[FREE_MAP_SECTOR]) == bits1 && HdrAt(d3, FREE_MAP_SECTOR) == hs[FREE_MAP_SECTOR]
    ensures Replaced(d, hs, f, h3, FREE_MAP_SECTOR, d3)
  {
    hide FreeMap, Parse, FileBytes, InFile, Image;
    forall s | 0 <= s < NUM_SECTORS
      ensures Owns(d3, h3, f, s) == Owns(d2, h1, f, s)
    {
      SameOwns(d2, d3, h1, h3, f, s);
    }
    forall s | 0 <= s < NUM_SECTORS && d3[s] != d2[s]
      ensures Owns(d3, h3, f, s)
    {
      StoreWritesOwn(d2, h1, d3, h3, f, position, from, s);
    }
    hide Owns, WellFormed, Stored;
    assert hs[f].nsectors <= MAX_BLOCKS && h3.nsectors <= MAX_BLOCKS by { GrewShape(d, hs[f], d3, h3, f); }
  }

  lemma GrewShape(d: Disk, h: Header, d': Disk, h': Header, f: int)
    requires WellFormed(d, h, f) && WellFormed(d', h', f)
    ensures h.nsectors <= MAX_BLOCKS && h'.nsectors <= MAX_BLOCKS && 0 <= f < NUM_SECTORS
  {
  }

  lemma StoreWritesOwn(d: Disk, h: Header, d': Disk, h': Header, f: int, position: nat, from: seq<byte>, s: nat)
    requires WellFormed(d, h, f) && position <= h.limit && Stored(d, h, d', h', f, position, from)
    requires s < NUM_SECTORS && d'[s] != d[s]
    ensures Owns(d', h', f, s) && InFile(d, h, f, s)
  {
    hide FileBytes, Image;
    if s == f {
      assert IsSlot(h', 0) && Slot(d', h', f, 0) == s;
    } else {
      var n: nat :| n <= h.nsectors - 1 && s == DataSector(d, h, n);
      BlockIsSlot(d, h, f, n);
      assert IsSlot(h', n + 2) && Slot(d', h', f, n + 2) == s;
    }
  }

  /** The state of a growing write after blocks have been allocated in memory and before the bytes are stored. */
  ghost predicate Mapped(d: Disk, hs: map<int, Header>, f: int, n: nat, d2: Disk, h1: Header, bits1: seq<bool>)
    requires Volume(d, hs) && f in hs
  {
    var h, bits := hs[f], FreeMap(d, hs[FREE_MAP_SECTOR]);
    && Owned(d2, hs[f := h1], bits1)
    && h1 == h.(nsectors := h1.nsectors, capacity := h1.capacity, dataSectors := h1.dataSectors)
    && h1.nsectors == h.nsectors + n
    && WellFormed(d, h, f) && WellFormed(d2, h1, f) && GrewFrom(d, h, bits, d2, h1, f)
    && CountClear(bits1) == CountClear(bits) - n - (if NeedsIndirect(h, n) then 1 else 0)
    && FileBytes(d2, h1) == FileBytes(d, h)
    && (forall g | g in hs && g != f :: HdrAt(d2, g) == hs[g])
    && (forall g | g in hs && g != f && g != FREE_MAP_SECTOR :: FileBytes(d2, hs[g]) == FileBytes(d, hs[g]))
    && MapAccounts(d, hs, f, d2, h1, bits1)
  }

  lemma MappedFacts(d: Disk, hs: map<int, Header>, f: int, size: nat, d2: Disk, h1: Header, bits1: seq<bool>)
    requires Volume(d, hs) && f in hs && Mapped(d, hs, f, BlocksFor(size), d2, h1, bits1)
    ensures WellFormed(d2, h1, f) && h1.selfSector == f && h1.limit == hs[f].limit
    ensures h1.capacity >= hs[f].capacity + size
  {
    hide Owned, GrewFrom, FileBytes, Parse, FreeMap, MapAccounts;
    VolumeFacts(d, hs, f);
    IndirectFacts(d, hs[f], f);
    IndirectFacts(d2, h1, f);
  }

  lemma FreeMapFacts(d: Disk, hs: map<int, Header>, f: int)
    requires Volume(d, hs) && f in hs
    ensures FREE_MAP_SECTOR in hs && HdrAt(d, FREE_MAP_SECTOR) == hs[FREE_MAP_SECTOR]
    ensures WellFormed(d, hs[f], f) && SlotsMarked(d, hs[f], f, FreeMap(d, hs[FREE_MAP_SECTOR]))
    ensures FreeMap(d, hs[FREE_MAP_SECTOR])[0]
    ensures hs[FREE_MAP_SECTOR].capacity == hs[FREE_MAP_SECTOR].limit == FREE_MAP_BYTES
    ensures hs[FREE_MAP_SECTOR].selfSector == FREE_MAP_SECTOR && WellFormed(d, hs[FREE_MAP_SECTOR], FREE_MAP_SECTOR)
  {
    var hm := hs[FREE_MAP_SECTOR];
    hide FreeMap, Parse;
    assert SlotsMarked(d, hm, FREE_MAP_SECTOR, FreeMap(d, hm));
    assert IsSlot(hm, 0) && Slot(d, hm, FREE_MAP_SECTOR, 0) == 0;
  }

  lemma MappedAfterGrow(d: Disk, hs: map<int, Header>, f: int, n: nat, d1: Disk, h1: Header, bits1: seq<bool>)
    requires Volume(d, hs) && f in hs && f != FREE_MAP_SECTOR
    requires |bits1| == NUM_SECTORS && Grown(d, hs[f], FreeMap(d, hs[FREE_MAP_SECTOR]), d1, h1, bits1, f, n)
    ensures Mapped(d, hs, f, n, d1, h1, bits1)
    ensures FREE_MAP_SECTOR in hs && WellFormed(d1, hs[FREE_MAP_SECTOR], FREE_MAP_SECTOR)
  {
    var h, bits := hs[f], FreeMap(d, hs[FREE_MAP_SECTOR]);
    VolumeFacts(d, hs, f);
    OwnedAfterGrow(d, hs, bits, d1, h1, bits1, f, n);
    assert hs[f := h1][FREE_MAP_SECTOR] == hs[FREE_MAP_SECTOR];
    assert WellFormed(d1, hs[f := h1][FREE_MAP_SECTOR], FREE_MAP_SECTOR);
    AccountsAfterGrow(d, hs, f, n, d1, h1, bits1);
    hide MapAccounts, WellFormed, Owned, Grown, Parse, GrewFrom, FileBytes, FreeMap;
    GrownGrewFrom(d, h, bits, d1, h1, bits1, f, n);
    GrownKeepsBytes(d, h, bits, d1, h1, bits1, f, n);
  }

  lemma MappedAfterMapStore(d: Disk, hs: map<int, Header>, f: int, n: nat, d1: Disk, h1: Header, bits1: seq<bool>,
                            d2: Disk, map1: seq<byte>)
    requires Volume(d, hs) && f in hs && f != FREE_MAP_SECTOR && Mapped(d, hs, f, n, d1, h1, bits1)
    requires |map1| == FREE_MAP_BYTES && WellFormed(d1, hs[FREE_MAP_SECTOR], FREE_MAP_SECTOR)
    requires Stored(d1, hs[FREE_MAP_SECTOR], d2, hs[FREE_MAP_SECTOR], FREE_MAP_SECTOR, 0, map1)
    ensures Mapped(d, hs, f, n, d2, h1, bits1)
    ensures FileBytes(d2, hs[FREE_MAP_SECTOR]) == map1
  {
    hide WellFormed, Owned, Stored, GrewFrom, Parse, Image, FileBytes, FreeMap, MapAccounts;
    var h, hm, bits, hs1 := hs[f], hs[FREE_MAP_SECTOR], FreeMap(d, hs[FREE_MAP_SECTOR]), hs[f := h1];
    StoredFacts(d1, hm, d2, hm, FREE_MAP_SECTOR, 0, map1);
    OwnedAfterStore(d1, hs1, bits1, d2, hm, FREE_MAP_SECTOR, 0, map1);
    assert hs1[FREE_MAP_SECTOR := hm] == hs1;
    OwnedFacts(d2, hs1, bits1, f);
    GrewShape(d1, h1, d2, h1, f);
    assert SlotsStay(d1, h1, d2, h1, f);
    AccountsAfterMapStore(d, hs, f, d1, h1, bits1, d2, map1);
    SlotsKeptGrewFrom(d, h, bits, d1, d2, h1, f);
    assert FileBytes(d2, hs1[f]) == FileBytes(d1, hs1[f]);
    assert FileBytes(d2, hm) == FileBytes(d1, hm)[..0] + map1;
  }

  lemma StoredVolume(d: Disk, hs: map<int, Header>, f: int, n: nat, d2: Disk, h1: Header, bits1: seq<bool>, map1: seq<byte>,
                     position: nat, from: seq<byte>, d3: Disk, h3: Header)
    requires Volume(d, hs) && f in hs && f != FREE_MAP_SECTOR && position <= hs[f].limit
    requires Mapped(d, hs, f, n, d2, h1, bits1)
    requires |map1| == FREE_MAP_BYTES && BitsOf(ToWords(map1), NUM_SECTORS) == bits1
    requires FileBytes(d2, hs[FREE_MAP_SECTOR]) == map1
    requires Stored(d2, h1, d3, h3, f, position, from)
    ensures Volume(d3, hs[f := h3]) && FreeMap(d3, hs[FREE_MAP_SECTOR]) == bits1
    ensures forall g | g in hs && g != f && g != FREE_MAP_SECTOR :: FileBytes(d3, hs[g]) == FileBytes(d, hs[g])
  {
    hide WellFormed, Owned, Stored, Image, Parse, GrewFrom, FileBytes, BitsOf, ToWords, MapAccounts;
    var hm, hs1 := hs[FREE_MAP_SECTOR], hs[f := h1];
    StoredFacts(d2, h1, d3, h3, f, position, from);
    OwnedAfterStore(d2, hs1, bits1, d3, h3, f, position, from);
    assert hs1[f := h3] == hs[f := h3];
    assert FileBytes(d3, hm) == FileBytes(d2, hm) == map1;
  }

  /** The steps of a growing write put together: allocate, store the free map, store the bytes. */
  lemma GrowthComposes(d: Disk, hs: map<int, Header>, f: int, position: nat, from: seq<byte>, size: nat,
                       d2: Disk, h1: Header, bits1: seq<bool>, map1: seq<byte>, d3: Disk, h3: Header)
    requires Volume(d, hs) && f in hs && f != FREE_MAP_SECTOR && position <= hs[f].limit
    requires Mapped(d, hs, f, BlocksFor(size), d2, h1, bits1)
    requires |map1| == FREE_MAP_BYTES && BitsOf(ToWords(map1), NUM_SECTORS) == bits1
    requires FileBytes(d2, hs[FREE_MAP_SECTOR]) == map1
    requires Stored(d2, h1, d3, h3, f, position, from)
    ensures GrownStored(d, hs, d3, h3, f, position, from, size)
  {
    StoredVolume(d, hs, f, BlocksFor(size), d2, h1, bits1, map1, position, from, d3, h3);
    StoredFacts(d2, h1, d3, h3, f, position, from);
    GrewFromThenStored(d, hs[f], FreeMap(d, hs[FREE_MAP_SECTOR]), d2, h1, d3, h3, f, position, from);
    hide WellFormed, Owned, Stored, GrewFrom, FileBytes, FreeMap, MapAccounts, Parse, Replaced;
    assert hs[f := h3][FREE_MAP_SECTOR] == hs[FREE_MAP_SECTOR];
    ReplacedAfterStore(d, hs, f, d2, h1, bits1, d3, h3, position, from);
  }

  /** An empty file whose header sector was clear until now. */
  lemma NewFileOwned(d: Disk, hs: map<int, Header>, bits: seq<bool>, h: Header, f: int)
    requires Owned(d, hs, bits) && 0 <= f < NUM_SECTORS && !bits[f]
    requires h.limit == h.capacity == h.nsectors == h.dataSectors[NUM_DIRECT] == 0 && h.selfSector == f
    ensures f !in hs && WellFormed(d, h, f) && Owned(d, hs[f := h], bits[f := true])
  {
    var bits' := bits[f := true];
    forall g | g in hs
      ensures g != f && Untouched(d, d, hs[g], g) && SlotsMarked(d, hs[g], g, bits')
      ensures forall j, k | IsSlot(h, j) && IsSlot(hs[g], k) :: Slot(d, h, f, j) != Slot(d, hs[g], g, k)
    {
      assert SlotsMarked(d, hs[g], g, bits);
      assert IsSlot(hs[g], 0) && Slot(d, hs[g], g, 0) == g;
    }
    OwnedAfterChange(d, hs, bits, d, h, bits', f);
  }

  /** Writing a file's own header into its own sector. */
  lemma HeaderPut(d: Disk, hs: map<int, Header>, bits: seq<bool>, f: int)
    requires Owned(d, hs, bits) && f in hs
    ensures 0 <= f < NUM_SECTORS
    ensures var d' := d[f := Image(hs[f])];
            && Owned(d', hs, bits) && HdrAt(d', f) == hs[f]
            && (forall g | g in hs :: FileBytes(d', hs[g]) == FileBytes(d, hs[g]))
            && (forall g | g in hs && g != f :: d'[g] == d[g])
  {
    OwnedFacts(d, hs, bits, f);
    var h := hs[f];
    var d' := d[f := Image(h)];
    ParseImage(h);
    HeaderWritten(d, h, d', h, f, Image(h));
    HeaderPutMisses(d, hs, bits, d', f);
    FileBytesAt(d, h);
    FileBytesAt(d', h);
    IndirectFacts(d, h, f);
    hide Parse, Image, WellFormed;
    assert SlotsMarked(d', h, f, bits);
    OwnedAfterChange(d, hs, bits, d', h, bits, f);
    assert hs[f := h] == hs;
  }

  lemma HeaderPutMisses(d: Disk, hs: map<int, Header>, bits: seq<bool>, d': Disk, f: int)
    requires Owned(d, hs, bits) && f in hs && WellFormed(d', hs[f], f)
    requires forall s | 0 <= s < NUM_SECTORS && s != f :: d'[s] == d[s]
    requires forall k | IsSlot(hs[f], k) :: Slot(d', hs[f], f, k) == Slot(d, hs[f], f, k)
    ensures forall g | g in hs && g != f :: Untouched(d, d', hs[g], g) && SlotsMarked(d, hs[g], g, bits)
    ensures forall g | g in hs && g != f :: forall j, k | IsSlot(hs[f], j) && IsSlot(hs[g], k) :: Slot(d', hs[f], f, j) != Slot(d, hs[g], g, k)
  {
    forall g | g in hs && g != f
      ensures Untouched(d, d', hs[g], g) && SlotsMarked(d, hs[g], g, bits)
      ensures forall j, k | IsSlot(hs[f], j) && IsSlot(hs[g], k) :: Slot(d', hs[f], f, j) != Slot(d, hs[g], g, k)
    {
      assert SlotsDisjoint(d, hs[f], f, hs[g], g);
      assert IsSlot(hs[f], 0) && Slot(d, hs[f], f, 0) == f;
    }
  }

  /** Giving back the blocks and the header sector of a file; an indirect block in use must be full. */
  lemma OwnedAfterRemove(d: Disk, hs: map<int, Header>, bits: seq<bool>, bits': seq<bool>, x: int)
    requires Owned(d, hs, bits) && x in hs && |bits'| == NUM_SECTORS && !PartFilledIndirect(hs[x])
    requires forall s: nat | s < NUM_SECTORS :: bits'[s] <==> bits[s] && s !in Freed(d, hs[x]) && s != x
    ensures Owned(d, hs - {x}, bits')
  {
    forall g | g in hs && g != x
      ensures SlotsMarked(d, hs[g], g, bits')
    {
      assert SlotsMarked(d, hs[g], g, bits) && SlotsDisjoint(d, hs[x], x, hs[g], g);
      FreedMisses(d, hs[x], x, hs[g], g);
    }
  }

  lemma FreedMisses(d: Disk, h: Header, x: int, hg: Header, g: int)
    requires WellFormed(d, h, x) && WellFormed(d, hg, g) && SlotsDisjoint(d, h, x, hg, g) && !PartFilledIndirect(h)
    ensures forall k | IsSlot(hg, k) :: 0 <= Slot(d, hg, g, k) < NUM_SECTORS && Slot(d, hg, g, k) !in Freed(d, h) && Slot(d, hg, g, k) != x
  {
    hide Freed;
    forall k | IsSlot(hg, k)
      ensures 0 <= Slot(d, hg, g, k) < NUM_SECTORS && Slot(d, hg, g, k) !in Freed(d, h) && Slot(d, hg, g, k) != x
    {
      FreedSectors(d, h, x, Slot(d, hg, g, k));
      assert IsSlot(h, 0) && Slot(d, h, x, 0) == x;
    }
  }

  /** Storing the map that accounts for all files makes a sound volume. */
  lemma MapWritten(d: Disk, hs: map<int, Header>, bits: seq<bool>, d': Disk, hm: Header, bytes: seq<byte>)
    requires Owned(d, hs, bits) && FREE_MAP_SECTOR in hs && hs[FREE_MAP_SECTOR].capacity == FREE_MAP_BYTES == |bytes|
    requires BitsOf(ToWords(bytes), NUM_SECTORS) == bits
    requires WellFormed(d, hs[FREE_MAP_SECTOR], FREE_MAP_SECTOR)
    requires forall f | f in hs && f != FREE_MAP_SECTOR :: 0 <= f < NUM_SECTORS && HdrAt(d, f) == hs[f]
    requires Stored(d, hs[FREE_MAP_SECTOR], d', hm, FREE_MAP_SECTOR, 0, bytes)
    ensures Volume(d', hs[FREE_MAP_SECTOR := hm]) && FreeMap(d', hm) == bits
    ensures forall g | g in hs && g != FREE_MAP_SECTOR :: FileBytes(d', hs[g]) == FileBytes(d, hs[g])
    ensures forall g | g in hs && g != FREE_MAP_SECTOR :: 0 <= g < NUM_SECTORS && HdrAt(d', g) == hs[g]
  {
    hide WellFormed, Owned, Stored, Image, Parse, FileBytes, BitsOf, ToWords;
    StoredFacts(d, hs[FREE_MAP_SECTOR], d', hm, FREE_MAP_SECTOR, 0, bytes);
    OwnedAfterStore(d, hs, bits, d', hm, FREE_MAP_SECTOR, 0, bytes);
    assert FileBytes(d, hs[FREE_MAP_SECTOR])[..0] + bytes == bytes;
  }

  /** Storing a map, right or wrong, over the one in its file: what stays the same, and where it is written. */
  lemma MapRewritten(d: Disk, hs: map<int, Header>, bits: seq<bool>, d': Disk, hm: Header, bytes: seq<byte>)
    requires Volume(d, hs) && FREE_MAP_SECTOR in hs && |bytes| == FREE_MAP_BYTES && BitsOf(ToWords(bytes), NUM_SECTORS) == bits
    requires WellFormed(d, hs[FREE_MAP_SECTOR], FREE_MAP_SECTOR)
    requires Stored(d, hs[FREE_MAP_SECTOR], d', hm, FREE_MAP_SECTOR, 0, bytes)
    ensures hm == hs[FREE_MAP_SECTOR] && HdrAt(d', FREE_MAP_SECTOR) == hm
    ensures FreeMap(d', hm) == bits
    ensures forall g | g in hs && g != FREE_MAP_SECTOR ::
              0 <= g < NUM_SECTORS && HdrAt(d', g) == hs[g] && FileBytes(d', hs[g]) == FileBytes(d, hs[g])
    ensures forall s | 0 <= s < NUM_SECTORS && d'[s] != d[s] :: InFile(d, hm, FREE_MAP_SECTOR, s)
  {
    hide WellFormed, Owned, Stored, Parse, FileBytes, BitsOf, ToWords, InFile;
    var old_ := hs[FREE_MAP_SECTOR];
    StoredFacts(d, old_, d', hm, FREE_MAP_SECTOR, 0, bytes);
    OwnedAfterStore(d, hs, FreeMap(d, old_), d', hm, FREE_MAP_SECTOR, 0, bytes);
    assert FileBytes(d, old_)[..0] + bytes == bytes;
    forall s | 0 <= s < NUM_SECTORS && d'[s] != d[s]
      ensures InFile(d, old_, FREE_MAP_SECTOR, s)
    {
      StoreWritesOwn(d, old_, d', hm, FREE_MAP_SECTOR, 0, bytes, s);
    }
  }

  lemma MapIsDirect(d: Disk, d': Disk, hs: map<int, Header>, s: int)
    requires Volume(d, hs) && FREE_MAP_SECTOR in hs
    ensures InFile(d, hs[FREE_MAP_SECTOR], FREE_MAP_SECTOR, s) == InFile(d', hs[FREE_MAP_SECTOR], FREE_MAP_SECTOR, s)
  {
    hide InFile;
    IndirectFacts(d, hs[FREE_MAP_SECTOR], FREE_MAP_SECTOR);
    DirectFile(d, d', hs[FREE_MAP_SECTOR], FREE_MAP_SECTOR, s);
  }

  lemma HeaderInVolume(d: Disk, hs: map<int, Header>, f: int)
    requires Volume(d, hs) && f in hs
    ensures 0 <= f < NUM_SECTORS && HdrAt(d, f) == hs[f] && WellFormed(d, hs[f], f) && hs[f].selfSector == f
  {
    hide Parse;
    VolumeFacts(d, hs, f);
  }

  lemma MapHeaderOf(d: Disk, hs: map<int, Header>)
    requires Volume(d, hs)
    ensures FREE_MAP_SECTOR in hs && HdrAt(d, FREE_MAP_SECTOR) == hs[FREE_MAP_SECTOR]
  {
  }

  // Nothing is marked that no file owns.

  /** Every sector marked in `bits` belongs to one of the files. */
  ghost predicate AllOwned(d: Disk, hs: map<int, Header>, bits: seq<bool>) {
    |bits| == NUM_SECTORS && forall s | 0 <= s < NUM_SECTORS && bits[s] :: exists f :: f in hs && Owns(d, hs[f], f, s)
  }

  /** The map on disk marks no sector that no file owns: together with `Volume`, exactly the sectors in use. */
  ghost predicate Exact(d: Disk, hs: map<int, Header>) {
    FREE_MAP_SECTOR in hs && AllOwned(d, hs, FreeMap(d, hs[FREE_MAP_SECTOR]))
  }

  lemma ExactIff(d: Disk, hs: map<int, Header>, s: nat)
    requires Volume(d, hs) && Exact(d, hs) && s < NUM_SECTORS
    ensures FreeMap(d, hs[FREE_MAP_SECTOR])[s] <==> exists f :: f in hs && Owns(d, hs[f], f, s)
  {
    hide FreeMap, Parse;
    if f :| f in hs && Owns(d, hs[f], f, s) {
      OwnedFacts(d, hs, FreeMap(d, hs[FREE_MAP_SECTOR]), f);
    }
  }

  /** Sectors keep their owners when slots stay where they were. */
  lemma OwnersStay(d: Disk, h: Header, d': Disk, h': Header, f: int, s: int)
    requires SlotsStay(d, h, d', h', f) && Owns(d, h, f, s)
    ensures Owns(d', h', f, s)
  {
    var k :| IsSlot(h, k) && Slot(d, h, f, k) == s;
    assert IsSlot(h', k);
  }

  lemma ReplacedKeepsExact(d: Disk, hs: map<int, Header>, f: int, h': Header, p: int, d': Disk)
    requires Volume(d, hs) && Exact(d, hs) && Replaced(d, hs, f, h', p, d')
    ensures Exact(d', hs[f := h'])
  {
    hide Volume, FreeMap, Parse, FileBytes, InFile, SlotsStay, Owns, WellFormed;
    ReplacedKeepsVolume(d, hs, f, h', p, d');
    var hs' := hs[f := h'];
    forall s | 0 <= s < NUM_SECTORS && FreeMap(d', hs[FREE_MAP_SECTOR])[s]
      ensures exists g :: g in hs' && Owns(d', hs'[g], g, s)
    {
      if Owns(d', h', f, s) {
        assert f in hs' && Owns(d', hs'[f], f, s);
      } else {
        var g :| g in hs && Owns(d, hs[g], g, s);
        if g == f {
          OwnersStay(d, hs[f], d', h', f, s);
        } else {
          OwnersStay(d, hs[g], d', hs[g], g, s);
          assert g in hs' && Owns(d', hs'[g], g, s);
        }
      }
    }
  }

  lemma VacatedKeepsExact(d: Disk, hs: map<int, Header>, x: int, p: int, d': Disk)
    requires Volume(d, hs) && Exact(d, hs) && Vacated(d, hs, x, p, d')
    ensures Exact(d', hs - {x})
  {
    hide Volume, FreeMap, Parse, FileBytes, InFile, SlotsStay, Owns;
    VacatedKeepsVolume(d, hs, x, p, d');
    var hs' := hs - {x};
    forall s | 0 <= s < NUM_SECTORS && FreeMap(d', hs[FREE_MAP_SECTOR])[s]
      ensures exists g :: g in hs' && Owns(d', hs'[g], g, s)
    {
      var g :| g in hs && Owns(d, hs[g], g, s);
      OwnersStay(d, hs[g], d', hs[g], g, s);
      assert g in hs' && Owns(d', hs'[g], g, s);
    }
  }

  lemma StoreKeepsExact(d: Disk, hs: map<int, Header>, d': Disk, h': Header, f: int, position: nat, from: seq<byte>)
    requires Volume(d, hs) && Exact(d, hs) && f in hs && f != FREE_MAP_SECTOR && position <= hs[f].limit && WellFormed(d, hs[f], f)
    requires Stored(d, hs[f], d', h', f, position, from)
    ensures Exact(d', hs[f := h'])
  {
    hide Volume, FreeMap, Parse, FileBytes, Owns, Owned, InBlocks, Image;
    VolumeFacts(d, hs, f);
    VolumeAfterStore(d, hs, d', h', f, position, from);
    OwnedAfterStore(d, hs, FreeMap(d, hs[FREE_MAP_SECTOR]), d', h', f, position, from);
    var hs' := hs[f := h'];
    forall s | 0 <= s < NUM_SECTORS && FreeMap(d', hs[FREE_MAP_SECTOR])[s]
      ensures exists g :: g in hs' && Owns(d', hs'[g], g, s)
    {
      var g :| g in hs && Owns(d, hs[g], g, s);
      OwnedFacts(d, hs, FreeMap(d, hs[FREE_MAP_SECTOR]), g);
      assert SlotsStay(d, hs[g], d', hs'[g], g);
      OwnersStay(d, hs[g], d', hs'[g], g, s);
      assert g in hs' && Owns(d', hs'[g], g, s);
    }
  }
}
