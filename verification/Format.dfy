/** code/filesys/filesys.cc: making a file system on a disk that may hold anything. */
module Formats {
  import opened Words
  import opened Bitmaps
  import opened SynchDisks
  import opened FileHeaders
  import opened FileContents
  import opened Volumes
  import opened OpenFiles
  import opened Paths
  import opened DirTables
  import opened Directories
  import opened FileTrees

  const PIPE_FILE_SIZE := 1024

  lemma {:induction false} AllClear(n: nat)
    ensures CountClear(seq(n, i => false)) == n
  {
    if n > 0 {
      assert seq(n, i => false)[..n - 1] == seq(n - 1, i => false);
      AllClear(n - 1);
    }
  }

  /** The three reserved header sectors, before any block is allocated. */
  lemma ReservedOwned(d: Disk, m: Header, r: Header, p: Header, bits: seq<bool>)
    requires NewHeader(m, FREE_MAP_SECTOR) && NewHeader(r, DIRECTORY_SECTOR) && NewHeader(p, PIPE_SECTOR)
    requires bits == seq(NUM_SECTORS, i => false)[FREE_MAP_SECTOR := true][DIRECTORY_SECTOR := true][PIPE_SECTOR := true]
    ensures Owned(d, map[FREE_MAP_SECTOR := m, DIRECTORY_SECTOR := r, PIPE_SECTOR := p], bits)
    ensures AllOwned(d, map[FREE_MAP_SECTOR := m, DIRECTORY_SECTOR := r, PIPE_SECTOR := p], bits)
    ensures CountClear(bits) == NUM_SECTORS - 3 && bits[0]
  {
    hide WellFormed;
    var b0 := seq(NUM_SECTORS, i => false);
    var b1 := b0[FREE_MAP_SECTOR := true];
    var b2 := b1[DIRECTORY_SECTOR := true];
    AllClear(NUM_SECTORS);
    CountClearAfterMark(b0, FREE_MAP_SECTOR);
    CountClearAfterMark(b1, DIRECTORY_SECTOR);
    CountClearAfterMark(b2, PIPE_SECTOR);
    NoFilesOwned(d, b0);
    hide Owned;
    NewFileOwned(d, map[], b0, m, FREE_MAP_SECTOR);
    NewFileOwned(d, map[][FREE_MAP_SECTOR := m], b1, r, DIRECTORY_SECTOR);
    NewFileOwned(d, map[][FREE_MAP_SECTOR := m][DIRECTORY_SECTOR := r], b2, p, PIPE_SECTOR);
    assert map[][FREE_MAP_SECTOR := m][DIRECTORY_SECTOR := r][PIPE_SECTOR := p] ==
           map[FREE_MAP_SECTOR := m, DIRECTORY_SECTOR := r, PIPE_SECTOR := p];
    OwnsItsHeader(d, m, FREE_MAP_SECTOR);
    OwnsItsHeader(d, r, DIRECTORY_SECTOR);
    OwnsItsHeader(d, p, PIPE_SECTOR);
    HeadersOwned(d, map[FREE_MAP_SECTOR := m, DIRECTORY_SECTOR := r, PIPE_SECTOR := p], bits);
  }

  lemma OwnsItsHeader(d: Disk, h: Header, f: int)
    requires h.nsectors <= MAX_BLOCKS
    ensures Owns(d, h, f, f)
  {
    assert IsSlot(h, 0) && Slot(d, h, f, 0) == f;
  }

  lemma HeadersOwned(d: Disk, hs: map<int, Header>, bits: seq<bool>)
    requires |bits| == NUM_SECTORS && forall s | 0 <= s < NUM_SECTORS && bits[s] :: s in hs
    requires forall f | f in hs :: Owns(d, hs[f], f, f)
    ensures AllOwned(d, hs, bits)
  {
    hide Owns;
  }

  lemma NoFilesOwned(d: Disk, bits: seq<bool>)
    requires |bits| == NUM_SECTORS
    ensures Owned(d, map[], bits)
  {
  }

  /** One reserved file gets its blocks. */
  lemma ReservedGrown(d: Disk, hs: map<int, Header>, bits: seq<bool>, f: int, d': Disk, h': Header, bits': seq<bool>, n: nat)
    requires Owned(d, hs, bits) && f in hs && |bits'| == NUM_SECTORS && WellFormed(d, hs[f], f) && Grown(d, hs[f], bits, d', h', bits', f, n)
    requires NewHeader(hs[f], f) && n <= NUM_DIRECT && bits[0] && AllOwned(d, hs, bits) && AllDirect(hs)
    ensures Owned(d', hs[f := h'], bits') && CountClear(bits') == CountClear(bits) - n && bits'[0]
    ensures h'.selfSector == f && h'.ftype == hs[f].ftype && h'.limit == 0 && h'.capacity == n * SECTOR_SIZE
    ensures AllOwned(d', hs[f := h'], bits') && AllDirect(hs[f := h'])
  {
    OwnedAfterGrow(d, hs, bits, d', h', bits', f, n);
    hide Owned, Parse, FileBytes;
    GrownOwners(d, hs, bits, f, d', h', bits', n);
  }

  ghost predicate AllDirect(hs: map<int, Header>) {
    forall f | f in hs :: hs[f].nsectors <= NUM_DIRECT
  }

  lemma GrownOwners(d: Disk, hs: map<int, Header>, bits: seq<bool>, f: int, d': Disk, h': Header, bits': seq<bool>, n: nat)
    requires f in hs && |bits| == |bits'| == NUM_SECTORS && WellFormed(d, hs[f], f) && Grown(d, hs[f], bits, d', h', bits', f, n)
    requires AllOwned(d, hs, bits) && AllDirect(hs)
    ensures AllOwned(d', hs[f := h'], bits')
  {
    hide WellFormed, Owns;
    var hs' := hs[f := h'];
    forall s | 0 <= s < NUM_SECTORS && bits'[s]
      ensures exists g :: g in hs' && Owns(d', hs'[g], g, s)
    {
      if bits[s] {
        var g :| g in hs && Owns(d, hs[g], g, s);
        if g == f {
          GrewShape(d, hs[f], d', h', f);
          OwnersStay(d, hs[f], d', h', f, s);
        } else {
          DirectOwns(d, d', hs[g], hs[g], g, s);
        }
        assert g in hs' && Owns(d', hs'[g], g, s);
      } else {
        assert f in hs' && Owns(d', hs'[f], f, s);
      }
    }
  }

  /** Files of direct blocks own what they own on every disk, with whatever limits. */
  lemma DirectOwners(d: Disk, hs: map<int, Header>, d': Disk, hs': map<int, Header>, bits: seq<bool>)
    requires AllOwned(d, hs, bits) && AllDirect(hs) && hs'.Keys == hs.Keys
    requires forall f | f in hs :: hs'[f] == hs[f].(limit := hs'[f].limit)
    ensures AllOwned(d', hs', bits)
  {
    hide Owns;
    forall s | 0 <= s < NUM_SECTORS && bits[s]
      ensures exists f :: f in hs' && Owns(d', hs'[f], f, s)
    {
      var f :| f in hs && Owns(d, hs[f], f, s);
      DirectOwns(d, d', hs[f], hs'[f], f, s);
      assert f in hs' && Owns(d', hs'[f], f, s);
    }
  }

  /** The map that a formatted disk starts with. */
  ghost predicate Fresh(d: Disk, hs: map<int, Header>, bits: seq<bool>) {
    && Owned(d, hs, bits) && hs.Keys == {FREE_MAP_SECTOR, DIRECTORY_SECTOR, PIPE_SECTOR}
    && CountClear(bits) == NUM_SECTORS - 14 && AllOwned(d, hs, bits) && AllDirect(hs)
    && hs[FREE_MAP_SECTOR].capacity == FREE_MAP_BYTES && hs[FREE_MAP_SECTOR].ftype == TYPE_FILE && hs[FREE_MAP_SECTOR].limit == 0
    && hs[DIRECTORY_SECTOR].capacity >= DIR_BYTES && hs[DIRECTORY_SECTOR].ftype == TYPE_DIR && hs[DIRECTORY_SECTOR].limit == 0
    && hs[PIPE_SECTOR].capacity == PIPE_FILE_SIZE && hs[PIPE_SECTOR].ftype == TYPE_PIPE && hs[PIPE_SECTOR].limit == 0
  }

  lemma FreshFacts(d: Disk, hs: map<int, Header>, bits: seq<bool>)
    requires Fresh(d, hs, bits)
    ensures hs.Keys == {FREE_MAP_SECTOR, DIRECTORY_SECTOR, PIPE_SECTOR}
    ensures hs[FREE_MAP_SECTOR].capacity == FREE_MAP_BYTES && hs[DIRECTORY_SECTOR].capacity >= DIR_BYTES
    ensures WellFormed(d, hs[FREE_MAP_SECTOR], FREE_MAP_SECTOR) && hs[FREE_MAP_SECTOR].selfSector == FREE_MAP_SECTOR
  {
    hide Owned, WellFormed, AllOwned;
    OwnedFacts(d, hs, bits, FREE_MAP_SECTOR);
  }

  /** The first half of formatting: headers and free map in memory. None of the three assertions fails. */
  method AllocateReserved(disk: SynchDisk, freeMap: Bitmap, mapHdr: FileHeader, dirHdr: FileHeader, pipeHdr: FileHeader)
    returns (ghost hs: map<int, Header>)
    requires disk.Valid() && freeMap.Valid() && freeMap.numBits == NUM_SECTORS && freeMap.Contents() == seq(NUM_SECTORS, i => false)
    requires mapHdr.Valid() && dirHdr.Valid() && pipeHdr.Valid() && mapHdr != dirHdr && mapHdr != pipeHdr && dirHdr != pipeHdr
    requires NewHeader(mapHdr.Value(), FREE_MAP_SECTOR) && mapHdr.ftype == TYPE_FILE
    requires NewHeader(dirHdr.Value(), DIRECTORY_SECTOR) && dirHdr.ftype == TYPE_DIR
    requires NewHeader(pipeHdr.Value(), PIPE_SECTOR) && pipeHdr.ftype == TYPE_PIPE
    modifies disk, disk.cache, freeMap.words, mapHdr, dirHdr, pipeHdr
    ensures disk.Valid() && freeMap.Valid() && mapHdr.Valid() && dirHdr.Valid() && pipeHdr.Valid()
    ensures hs == map[FREE_MAP_SECTOR := mapHdr.Value(), DIRECTORY_SECTOR := dirHdr.Value(), PIPE_SECTOR := pipeHdr.Value()]
    ensures Fresh(disk.sectors, hs, freeMap.Contents())
  {
    hide WellFormed, Owned, Grown, SlotsMarked, BitsOf, AllOwned;
    freeMap.Mark(FREE_MAP_SECTOR);
    freeMap.Mark(DIRECTORY_SECTOR);
    freeMap.Mark(PIPE_SECTOR);
    hs := map[FREE_MAP_SECTOR := mapHdr.Value(), DIRECTORY_SECTOR := dirHdr.Value(), PIPE_SECTOR := pipeHdr.Value()];
    ReservedOwned(disk.sectors, mapHdr.Value(), dirHdr.Value(), pipeHdr.Value(), freeMap.Contents());

    ghost var d, bits := disk.sectors, freeMap.Contents();
    OwnedFacts(d, hs, bits, FREE_MAP_SECTOR);
    var a := mapHdr.Allocate(freeMap, disk, FREE_MAP_BYTES, FREE_MAP_SECTOR);
    assert a == Allocated;
    ReservedGrown(d, hs, bits, FREE_MAP_SECTOR, disk.sectors, mapHdr.Value(), freeMap.Contents(), 1);
    hs := hs[FREE_MAP_SECTOR := mapHdr.Value()];

    d, bits := disk.sectors, freeMap.Contents();
    OwnedFacts(d, hs, bits, DIRECTORY_SECTOR);
    a := dirHdr.Allocate(freeMap, disk, TABLE_SIZE, DIRECTORY_SECTOR);
    assert a == Allocated;
    ReservedGrown(d, hs, bits, DIRECTORY_SECTOR, disk.sectors, dirHdr.Value(), freeMap.Contents(), 2);
    hs := hs[DIRECTORY_SECTOR := dirHdr.Value()];

    d, bits := disk.sectors, freeMap.Contents();
    OwnedFacts(d, hs, bits, PIPE_SECTOR);
    a := pipeHdr.Allocate(freeMap, disk, PIPE_FILE_SIZE, PIPE_SECTOR);
    assert a == Allocated;
    ReservedGrown(d, hs, bits, PIPE_SECTOR, disk.sectors, pipeHdr.Value(), freeMap.Contents(), 8);
    hs := hs[PIPE_SECTOR := pipeHdr.Value()];
  }

  /** The headers go to disk, over whatever was there. */
  lemma HeadersPut(d: Disk, hs: map<int, Header>, bits: seq<bool>, d': Disk)
    requires Fresh(d, hs, bits)
    requires d' == d[FREE_MAP_SECTOR := Image(hs[FREE_MAP_SECTOR])][DIRECTORY_SECTOR := Image(hs[DIRECTORY_SECTOR])][PIPE_SECTOR := Image(hs[PIPE_SECTOR])]
    ensures Fresh(d', hs, bits) && forall f | f in hs :: 0 <= f < NUM_SECTORS && HdrAt(d', f) == hs[f]
  {
    hide Owned, WellFormed, Image, Parse, FileBytes, AllOwned;
    DirectOwners(d, hs, d', hs, bits);
    var d1 := d[FREE_MAP_SECTOR := Image(hs[FREE_MAP_SECTOR])];
    HeaderPut(d, hs, bits, FREE_MAP_SECTOR);
    var d2 := d1[DIRECTORY_SECTOR := Image(hs[DIRECTORY_SECTOR])];
    HeaderPut(d1, hs, bits, DIRECTORY_SECTOR);
    HeaderPut(d2, hs, bits, PIPE_SECTOR);
  }

  /** What a formatted disk holds: three reserved files, an empty root directory, everything else free. */
  ghost predicate Formatted(d: Disk, hs: map<int, Header>) {
    && Tree(d, hs) && Exact(d, hs) && hs.Keys == {FREE_MAP_SECTOR, DIRECTORY_SECTOR, PIPE_SECTOR}
    && CountClear(FreeMap(d, hs[FREE_MAP_SECTOR])) == NUM_SECTORS - 14
    && TablesOf(d, hs).Keys == {DIRECTORY_SECTOR}
    && (forall i | 0 <= i < NUM_DIR_ENTRIES :: !InUse(TablesOf(d, hs)[DIRECTORY_SECTOR], i))
    && (forall name :: Lookup(TablesOf(d, hs)[DIRECTORY_SECTOR], name) == -1)
    && hs[PIPE_SECTOR].ftype == TYPE_PIPE && hs[PIPE_SECTOR].capacity == PIPE_FILE_SIZE && hs[PIPE_SECTOR].limit == 0
  }

  lemma FormattedFacts(d: Disk, hs: map<int, Header>)
    requires Formatted(d, hs)
    ensures Tree(d, hs) && DIRECTORY_SECTOR in TablesOf(d, hs)
    ensures hs.Keys == {0, 1, 2} && hs[2].capacity == 1024 && hs[2].limit == 0
    ensures CountClear(FreeMap(d, hs[0])) == 1010 && forall name :: Lookup(TablesOf(d, hs)[DIRECTORY_SECTOR], name) == -1
  {
    hide Tree, Lookup, FreeMap, Exact;
  }

  lemma MapStored(d: Disk, hs: map<int, Header>, bits: seq<bool>, d1: Disk, hm: Header, bytes: seq<byte>)
    requires Fresh(d, hs, bits) && forall f | f in hs :: 0 <= f < NUM_SECTORS && HdrAt(d, f) == hs[f]
    requires |bytes| == FREE_MAP_BYTES && BitsOf(ToWords(bytes), NUM_SECTORS) == bits && WellFormed(d, hs[FREE_MAP_SECTOR], FREE_MAP_SECTOR)
    requires Stored(d, hs[FREE_MAP_SECTOR], d1, hm, FREE_MAP_SECTOR, 0, bytes)
    ensures var hs1 := hs[FREE_MAP_SECTOR := hm];
            && Volume(d1, hs1) && FreeMap(d1, hm) == bits && hm == hs[FREE_MAP_SECTOR].(limit := hm.limit) && WellFormed(d1, hs1[DIRECTORY_SECTOR], DIRECTORY_SECTOR)
            && hs1[DIRECTORY_SECTOR].selfSector == DIRECTORY_SECTOR
  {
    hide Owned, WellFormed, Image, Parse, FileBytes, Stored, BitsOf, ToWords, FreeMap, Volume, AllOwned;
    StoredFacts(d, hs[FREE_MAP_SECTOR], d1, hm, FREE_MAP_SECTOR, 0, bytes);
    MapWritten(d, hs, bits, d1, hm, bytes);
    VolumeFacts(d1, hs[FREE_MAP_SECTOR := hm], DIRECTORY_SECTOR);
  }

  lemma RootStored(d: Disk, hs: map<int, Header>, bits: seq<bool>, d1: Disk, hm: Header, d2: Disk, hr: Header, t: Table)
    requires Fresh(d, hs, bits) && hm == hs[FREE_MAP_SECTOR].(limit := hm.limit)
    requires var hs1 := hs[FREE_MAP_SECTOR := hm];
             && Volume(d1, hs1) && FreeMap(d1, hm) == bits && WellFormed(d1, hs1[DIRECTORY_SECTOR], DIRECTORY_SECTOR)
             && Stored(d1, hs1[DIRECTORY_SECTOR], d2, hr, DIRECTORY_SECTOR, 0, DirImage(DIRECTORY_SECTOR, t))
    requires forall i | 0 <= i < NUM_DIR_ENTRIES :: !InUse(t, i)
    ensures Formatted(d2, hs[FREE_MAP_SECTOR := hm][DIRECTORY_SECTOR := hr])
  {
    hide Owned, WellFormed, Image, Parse, FileBytes, Stored, FreeMap, Volume, InUse, DirImage, TableOf, OwnSector, Lookup, AllOwned;
    var hs1 := hs[FREE_MAP_SECTOR := hm];
    var hs2, image := hs1[DIRECTORY_SECTOR := hr], DirImage(DIRECTORY_SECTOR, t);
    StoredFacts(d1, hs1[DIRECTORY_SECTOR], d2, hr, DIRECTORY_SECTOR, 0, image);
    VolumeAfterStore(d1, hs1, d2, hr, DIRECTORY_SECTOR, 0, image);
    assert FileBytes(d1, hs1[DIRECTORY_SECTOR])[..0] + image == image;
    FetchAfterWriteBack(DIRECTORY_SECTOR, t);
    DirectOwners(d, hs, d2, hs2, bits);
    assert TablesOf(d2, hs2) == map[DIRECTORY_SECTOR := t];
    forall name
      ensures Lookup(t, name) == -1
    {
      NothingIn(t, name);
    }
  }

  /** Headers and free map are made in memory and the headers written to disk. */
  method WriteHeaders(disk: SynchDisk) returns (freeMap: PersistentBitmap, ghost hs: map<int, Header>)
    requires disk.Valid()
    modifies disk, disk.cache
    ensures disk.Valid() && fresh(freeMap.bitmap) && fresh(freeMap.bitmap.words) && freeMap.bitmap.Valid()
    ensures freeMap.bitmap.numBits == NUM_SECTORS && Fresh(disk.sectors, hs, freeMap.bitmap.Contents())
    ensures forall f | f in hs :: 0 <= f < NUM_SECTORS && HdrAt(disk.sectors, f) == hs[f]
  {
    hide Fresh, BitsOf, Image, Parse;
    var now: word, junk: word := *, *;
    freeMap := new PersistentBitmap(NUM_SECTORS);
    var mapHdr := new FileHeader(FREE_MAP_SECTOR, TYPE_FILE, now, junk);
    var dirHdr := new FileHeader(DIRECTORY_SECTOR, TYPE_DIR, now, junk);
    var pipeHdr := new FileHeader(PIPE_SECTOR, TYPE_PIPE, now, junk);
    hs := AllocateReserved(disk, freeMap.bitmap, mapHdr, dirHdr, pipeHdr);
    ghost var d := disk.sectors;
    mapHdr.WriteBack(disk, FREE_MAP_SECTOR);
    dirHdr.WriteBack(disk, DIRECTORY_SECTOR);
    pipeHdr.WriteBack(disk, PIPE_SECTOR);
    HeadersPut(d, hs, freeMap.bitmap.Contents(), disk.sectors);
  }

  /** The two files are opened, and the free map and an empty root directory written to them. */
  method WriteContents(disk: SynchDisk, freeMap: PersistentBitmap, ghost reserved: map<int, Header>)
    returns (mapFile: OpenFile, dirFile: OpenFile, ghost hs: map<int, Header>)
    requires disk.Valid() && freeMap.bitmap.Valid() && freeMap.bitmap.numBits == NUM_SECTORS
    requires Fresh(disk.sectors, reserved, freeMap.bitmap.Contents())
    requires forall f | f in reserved :: 0 <= f < NUM_SECTORS && HdrAt(disk.sectors, f) == reserved[f]
    modifies disk, disk.cache
    ensures disk.Valid() && fresh(mapFile.hdr) && fresh(dirFile.hdr) && mapFile.hdr.Valid() && dirFile.hdr.Valid()
    ensures mapFile.hdr != dirFile.hdr && Formatted(disk.sectors, hs)
    ensures hs == reserved[FREE_MAP_SECTOR := mapFile.hdr.Value()][DIRECTORY_SECTOR := dirFile.hdr.Value()]
  {
    hide TablesOf, WellFormed, Fresh, Formatted, Volume, Owned, BitsOf, Stored, DirImage, InUse, Image, Parse, FreeMap, FileBytes;
    var garbage: Table := *;
    ghost var d, bits := disk.sectors, freeMap.bitmap.Contents();
    FreshFacts(d, reserved, bits);
    var directory := new Directory(DIRECTORY_SECTOR, garbage);
    mapFile := new OpenFile(disk, FREE_MAP_SECTOR);
    dirFile := new OpenFile(disk, DIRECTORY_SECTOR);
    ghost var bytes := freeMap.WriteBack(disk, mapFile);
    ghost var d1, hm := disk.sectors, mapFile.hdr.Value();
    MapStored(d, reserved, bits, d1, hm, bytes);
    directory.WriteBack(disk, dirFile, DIRECTORY_SECTOR);
    RootStored(d, reserved, bits, d1, hm, disk.sectors, dirFile.hdr.Value(), directory.T());
    hs := reserved[FREE_MAP_SECTOR := hm][DIRECTORY_SECTOR := dirFile.hdr.Value()];
  }
}
