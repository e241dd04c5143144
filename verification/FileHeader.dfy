/** code/filesys/filehdr.cc: the i-node, its direct and indirect blocks, and sector allocation. */
module FileHeaders {
  import opened Words
  import opened SynchDisks
  import opened Bitmaps

  const NUM_DIRECT := 24
  const NUM_INDIRECT := 32
  const MAX_BLOCKS := NUM_DIRECT + NUM_INDIRECT
  const MAX_FILE_SIZE := MAX_BLOCKS * SECTOR_SIZE

  const TYPE_FILE: word := 0
  const TYPE_DIR: word := 1
  const TYPE_PIPE: word := 2

  /** The fields of a header, in the order in which they lie in its sector. */
  datatype Fields = Fields(limit: word, capacity: word, nsectors: word, selfSector: word, ftype: word,
                           createTime: word, modifyTime: word, dataSectors: seq<word>)

  type Header = h: Fields | |h.dataSectors| == NUM_DIRECT + 1
    witness Fields(0, 0, 0, 0, 0, 0, 0, seq(NUM_DIRECT + 1, i => 0))

  /** The header as the 32 words, hence 128 bytes, of one sector. */
  function Image(h: Header): Sector {
    ToBytes([h.limit, h.capacity, h.nsectors, h.selfSector, h.ftype, h.createTime, h.modifyTime] + h.dataSectors)
  }

  function Parse(s: Sector): Header {
    var w := ToWords(s);
    Fields(w[0], w[1], w[2], w[3], w[4], w[5], w[6], w[7..])
  }

  /** Fetching a header that was written back yields the same header. */
  lemma ParseImage(h: Header)
    ensures Parse(Image(h)) == h
  {
    ToWordsToBytes([h.limit, h.capacity, h.nsectors, h.selfSector, h.ftype, h.createTime, h.modifyTime] + h.dataSectors);
  }

  /** Word `k` of the sector, in the order in which the class declares its fields. */
  lemma HeaderLayout(h: Header, k: nat)
    requires k < 7 + NUM_DIRECT + 1
    ensures var s := Image(h);
            s[4 * k] as int + s[4 * k + 1] as int * 0x100 + s[4 * k + 2] as int * 0x1_0000 + s[4 * k + 3] as int * 0x100_0000 ==
              if k == 0 then h.limit else if k == 1 then h.capacity else if k == 2 then h.nsectors else if k == 3 then h.selfSector
              else if k == 4 then h.ftype else if k == 5 then h.createTime else if k == 6 then h.modifyTime else h.dataSectors[k - 7]
  {
    var w := [h.limit, h.capacity, h.nsectors, h.selfSector, h.ftype, h.createTime, h.modifyTime] + h.dataSectors;
    WordsLieInOrder(w, k);
  }

  /** The entries of the indirect block; all zero when the header points outside the disk. */
  function Entries(d: Disk, h: Header): (e: seq<word>)
    ensures |e| == NUM_INDIRECT
  {
    if h.dataSectors[NUM_DIRECT] < NUM_SECTORS then ToWords(d[h.dataSectors[NUM_DIRECT]]) else seq(NUM_INDIRECT, i => 0)
  }

  /** The sector that holds block `n` of the file. */
  function DataSector(d: Disk, h: Header, n: nat): word
    requires n < MAX_BLOCKS
  {
    if n < NUM_DIRECT then h.dataSectors[n] else Entries(d, h)[n - NUM_DIRECT]
  }

  /** A file owns numbered slots: slot 0 is its header, slot 1 its indirect block, slot 2 + n its block n. */
  predicate IsSlot(h: Header, k: int) {
    k == 0 || (k == 1 && h.nsectors > NUM_DIRECT) || 2 <= k < 2 + h.nsectors
  }

  function Slot(d: Disk, h: Header, f: int, k: int): int
    requires h.nsectors <= MAX_BLOCKS && IsSlot(h, k)
  {
    if k == 0 then f else if k == 1 then h.dataSectors[NUM_DIRECT] else DataSector(d, h, k - 2)
  }

  /** The file with header `h` in sector `f` has `s` for its header, its indirect block or one of its blocks. */
  ghost predicate Owns(d: Disk, h: Header, f: int, s: int) {
    h.nsectors <= MAX_BLOCKS && exists k :: IsSlot(h, k) && Slot(d, h, f, k) == s
  }

  /** A legal file with header `h` stored in sector `f`. */
  ghost predicate WellFormed(d: Disk, h: Header, f: int) {
    && h.nsectors <= MAX_BLOCKS
    && h.capacity == h.nsectors * SECTOR_SIZE
    && h.limit <= h.capacity
    && 0 <= f < NUM_SECTORS
    && (forall k | IsSlot(h, k) && k != 0 :: 0 < Slot(d, h, f, k) < NUM_SECTORS)
    && (forall j, k | IsSlot(h, j) && IsSlot(h, k) && j != k :: Slot(d, h, f, j) != Slot(d, h, f, k))
    && (h.nsectors <= NUM_DIRECT ==> h.dataSectors[NUM_DIRECT] == 0)
    && (h.nsectors > NUM_DIRECT ==> forall n | h.nsectors - NUM_DIRECT <= n < NUM_INDIRECT :: Entries(d, h)[n] == 0)
  }

  ghost predicate SlotsMarked(d: Disk, h: Header, f: int, bits: seq<bool>)
    requires |bits| == NUM_SECTORS && WellFormed(d, h, f)
  {
    forall k | IsSlot(h, k) :: bits[Slot(d, h, f, k)]
  }

  /** How many blocks hold `size` bytes: no more than it takes. */
  function BlocksFor(size: nat): (n: nat)
    ensures (n - 1) * SECTOR_SIZE < size <= n * SECTOR_SIZE || size == n == 0
  {
    size / SECTOR_SIZE + if size % SECTOR_SIZE > 0 then 1 else 0
  }

  predicate NeedsIndirect(h: Header, n: nat) {
    h.nsectors <= NUM_DIRECT < h.nsectors + n
  }

  /** `Exhausted` is the last `return FALSE` of `Allocate`; `Aborted` is a failed ASSERT. */
  datatype AllocResult = Allocated | Refused | Exhausted | Aborted

  /** What a successful allocation of `n` blocks does to disk, header and free map. */
  ghost predicate Grown(d: Disk, h: Header, bits: seq<bool>, d': Disk, h': Header, bits': seq<bool>, f: int, n: nat)
    requires |bits| == |bits'| == NUM_SECTORS && WellFormed(d, h, f)
  {
    && WellFormed(d', h', f)
    && h'.nsectors == h.nsectors + n
    && h' == h.(nsectors := h'.nsectors, capacity := h'.capacity, dataSectors := h'.dataSectors)
    && (forall k | IsSlot(h, k) :: Slot(d', h', f, k) == Slot(d, h, f, k))
    && (forall k | IsSlot(h', k) && !IsSlot(h, k) :: !bits[Slot(d', h', f, k)] && bits'[Slot(d', h', f, k)])
    && (forall s | 0 <= s < NUM_SECTORS && bits[s] :: bits'[s])
    && (forall s | 0 <= s < NUM_SECTORS && bits'[s] && !bits[s] :: Owns(d', h', f, s))
    && CountClear(bits') == CountClear(bits) - n - (if NeedsIndirect(h, n) then 1 else 0)
    && (forall s | 0 <= s < NUM_SECTORS && d'[s] != d[s] :: h'.nsectors > NUM_DIRECT && s == h'.dataSectors[NUM_DIRECT])
  }

  /** `bits'` is `bits` with the distinct, previously clear sectors `taken` marked. */
  ghost predicate Taken(bits: seq<bool>, taken: seq<word>, bits': seq<bool>) {
    && |bits| == |bits'| == NUM_SECTORS
    && (forall i | 0 <= i < |taken| :: 0 < taken[i] < NUM_SECTORS && !bits[taken[i]])
    && (forall i, j | 0 <= i < j < |taken| :: taken[i] != taken[j])
    && (forall s: nat | s < NUM_SECTORS :: bits'[s] <==> bits[s] || s in taken)
    && CountClear(bits') == CountClear(bits) - |taken|
  }

  lemma NoneTaken(bits: seq<bool>)
    requires |bits| == NUM_SECTORS
    ensures Taken(bits, [], bits)
  {
  }

  lemma TakeOne(bits: seq<bool>, taken: seq<word>, bits': seq<bool>, r: int)
    requires Taken(bits, taken, bits') && bits[0] && r == FirstClear(bits') && r != -1
    ensures 0 < r < NUM_SECTORS
    ensures Taken(bits, taken + [r], bits'[r := true])
    ensures CountClear(bits'[r := true]) == CountClear(bits') - 1
  {
    CountClearAfterMark(bits', r);
  }

  /** Where in the order of allocation the new slot `k` of a growing file comes; `early` direct blocks come first. */
  function TakenIndex(h: Header, early: nat, k: int): int {
    if k == 1 then early
    else if h.nsectors > NUM_DIRECT || k - 2 < NUM_DIRECT then k - 2 - h.nsectors
    else k - 2 - NUM_DIRECT + early + 1
  }

  /** The new slot that the sector at place `i` of the order of allocation fills. */
  function TakenSlot(h: Header, early: nat, i: nat): int {
    if h.nsectors > NUM_DIRECT || i < early then i + 2 + h.nsectors
    else if i == early then 1
    else i - early - 1 + 2 + NUM_DIRECT
  }

  /** A file whose old slots stay and whose new slots are exactly the sectors just taken is again well formed. */
  lemma GrownFromTaken(d: Disk, h: Header, bits: seq<bool>, d': Disk, h': Header, bits': seq<bool>, f: int, n: nat,
                       early: nat, taken: seq<word>)
    requires Taken(bits, taken, bits') && WellFormed(d, h, f) && SlotsMarked(d, h, f, bits)
    requires h.nsectors + n <= MAX_BLOCKS && |taken| == n + (if NeedsIndirect(h, n) then 1 else 0)
    requires early == if h.nsectors > NUM_DIRECT then 0 else if h.nsectors + n <= NUM_DIRECT then n else NUM_DIRECT - h.nsectors
    requires h' == h.(nsectors := h.nsectors + n, capacity := (h.nsectors + n) * SECTOR_SIZE, dataSectors := h'.dataSectors)
    requires forall k | IsSlot(h, k) :: Slot(d', h', f, k) == Slot(d, h, f, k)
    requires forall k | IsSlot(h', k) && !IsSlot(h, k) ::
               0 <= TakenIndex(h, early, k) < |taken| && Slot(d', h', f, k) == taken[TakenIndex(h, early, k)]
    requires h'.nsectors <= NUM_DIRECT ==> h'.dataSectors[NUM_DIRECT] == 0
    requires h'.nsectors > NUM_DIRECT ==> forall n | h'.nsectors - NUM_DIRECT <= n < NUM_INDIRECT :: Entries(d', h')[n] == 0
    requires forall s | 0 <= s < NUM_SECTORS && d'[s] != d[s] :: h'.nsectors > NUM_DIRECT && s == h'.dataSectors[NUM_DIRECT]
    ensures Grown(d, h, bits, d', h', bits', f, n)
  {
    forall j, k | IsSlot(h', j) && IsSlot(h', k) && j != k
      ensures Slot(d', h', f, j) != Slot(d', h', f, k)
    {
      if IsSlot(h, j) && IsSlot(h, k) {
        assert Slot(d, h, f, j) != Slot(d, h, f, k);
      } else if IsSlot(h, j) {
        assert bits[Slot(d, h, f, j)];
      } else if IsSlot(h, k) {
        assert bits[Slot(d, h, f, k)];
      } else {
        assert TakenIndex(h, early, j) != TakenIndex(h, early, k);
      }
    }
    forall s | 0 <= s < NUM_SECTORS && bits'[s] && !bits[s]
      ensures Owns(d', h', f, s)
    {
      var i :| 0 <= i < |taken| && taken[i] == s;
      var k := TakenSlot(h, early, i);
      assert IsSlot(h', k) && !IsSlot(h, k) && TakenIndex(h, early, k) == i;
    }
  }

  /** Growing a file that stays within its direct blocks. */
  lemma GrownDirect(d: Disk, h: Header, bits: seq<bool>, h': Header, bits': seq<bool>, f: int, taken: seq<word>)
    requires Taken(bits, taken, bits') && WellFormed(d, h, f) && SlotsMarked(d, h, f, bits)
    requires taken == [] || h.nsectors + |taken| <= NUM_DIRECT
    requires h' == h.(nsectors := h.nsectors + |taken|, capacity := (h.nsectors + |taken|) * SECTOR_SIZE,
                      dataSectors := h'.dataSectors)
    requires forall j | 0 <= j <= NUM_DIRECT ::
               h'.dataSectors[j] == if h.nsectors <= j < h.nsectors + |taken| then taken[j - h.nsectors] else h.dataSectors[j]
    ensures Grown(d, h, bits, d, h', bits', f, |taken|)
  {
    assert Entries(d, h') == Entries(d, h);
    GrownFromTaken(d, h, bits, d, h', bits', f, |taken|, if h.nsectors > NUM_DIRECT then 0 else |taken|, taken);
  }

  /** `ds` holds the old direct blocks followed by the `early` new ones. */
  ghost predicate DirectFilled(h: Header, early: seq<word>, ds: seq<word>) {
    && |ds| == NUM_DIRECT + 1
    && |early| == (if h.nsectors <= NUM_DIRECT then NUM_DIRECT - h.nsectors else 0)
    && forall i | 0 <= i < NUM_DIRECT :: ds[i] == if h.nsectors <= i then early[i - h.nsectors] else h.dataSectors[i]
  }

  lemma DirectFilledIgnoresIndirect(h: Header, early: seq<word>, ds: seq<word>, s: word)
    requires DirectFilled(h, early, ds)
    ensures DirectFilled(h, early, ds[NUM_DIRECT := s])
  {
  }

  /** The entries `e` are those of `base` followed by the `late` new ones. */
  ghost predicate EntriesFilled(base: seq<word>, first: nat, late: seq<word>, e: seq<word>) {
    && |base| == |e| == NUM_INDIRECT && first + |late| <= NUM_INDIRECT
    && (forall k | 0 <= k < first :: e[k] == base[k])
    && (forall k | 0 <= k < |late| :: e[first + k] == late[k])
    && (forall k | first + |late| <= k < NUM_INDIRECT :: e[k] == 0)
  }

  /** Growing a file into its indirect block, which `created` holds when it had to be made. */
  lemma GrownIndirect(d: Disk, h: Header, bits: seq<bool>, d': Disk, h': Header, bits': seq<bool>, f: int,
                      early: seq<word>, created: seq<word>, late: seq<word>)
    requires Taken(bits, early + created + late, bits') && WellFormed(d, h, f) && SlotsMarked(d, h, f, bits)
    requires |late| > 0 && h.nsectors + |early| + |late| <= MAX_BLOCKS
    requires h' == h.(nsectors := h.nsectors + |early| + |late|,
                      capacity := (h.nsectors + |early| + |late|) * SECTOR_SIZE,
                      dataSectors := h'.dataSectors)
    requires DirectFilled(h, early, h'.dataSectors)
    requires created == if h.nsectors <= NUM_DIRECT then [h'.dataSectors[NUM_DIRECT]] else []
    requires h.nsectors > NUM_DIRECT ==> h'.dataSectors[NUM_DIRECT] == h.dataSectors[NUM_DIRECT]
    requires forall i | 0 <= i < |late| :: Entries(d', h')[FirstFree(h) + i] == late[i]
    requires forall i | 0 <= i < FirstFree(h) :: Entries(d', h')[i] == Entries(d, h)[i]
    requires forall i | FirstFree(h) + |late| <= i < NUM_INDIRECT :: Entries(d', h')[i] == 0
    requires forall s | 0 <= s < NUM_SECTORS && d'[s] != d[s] :: s == h'.dataSectors[NUM_DIRECT]
    ensures Grown(d, h, bits, d', h', bits', f, |early| + |late|)
  {
    var taken := early + created + late;
    forall k | IsSlot(h', k) && !IsSlot(h, k)
      ensures 0 <= TakenIndex(h, |early|, k) < |taken| && Slot(d', h', f, k) == taken[TakenIndex(h, |early|, k)]
    {
      if k != 1 && k - 2 >= NUM_DIRECT {
        assert Slot(d', h', f, k) == late[k - 2 - NUM_DIRECT - FirstFree(h)];
      }
    }
    GrownFromTaken(d, h, bits, d', h', bits', f, |early| + |late|, |early|, taken);
  }

  lemma GrownIndirectStored(d: Disk, h: Header, bits: seq<bool>, d': Disk, h': Header, bits': seq<bool>, f: int,
                            early: seq<word>, created: seq<word>, late: seq<word>, base: seq<word>, e: seq<word>)
    requires Taken(bits, early + created + late, bits') && WellFormed(d, h, f) && SlotsMarked(d, h, f, bits)
    requires |late| > 0 && h.nsectors + |early| + |late| <= MAX_BLOCKS
    requires h' == h.(nsectors := h.nsectors + |early| + |late|,
                      capacity := (h.nsectors + |early| + |late|) * SECTOR_SIZE,
                      dataSectors := h'.dataSectors)
    requires DirectFilled(h, early, h'.dataSectors) && 0 < h'.dataSectors[NUM_DIRECT] < NUM_SECTORS
    requires created == if h.nsectors <= NUM_DIRECT then [h'.dataSectors[NUM_DIRECT]] else []
    requires h.nsectors > NUM_DIRECT ==> h'.dataSectors[NUM_DIRECT] == h.dataSectors[NUM_DIRECT] && base == Entries(d, h)
    requires EntriesFilled(base, FirstFree(h), late, e)
    requires d' == d[h'.dataSectors[NUM_DIRECT] := ToBytes(e)]
    ensures Grown(d, h, bits, d', h', bits', f, |early| + |late|)
  {
    hide WellFormed, SlotsMarked, Grown, Taken, DirectFilled;
    ToWordsToBytes(e);
    assert Entries(d', h') == e;
    GrownIndirect(d, h, bits, d', h', bits', f, early, created, late);
  }

  /** What the two allocation loops need to know about a well-formed header. */
  lemma IndirectFacts(d: Disk, h: Header, f: int)
    requires WellFormed(d, h, f)
    ensures h.nsectors <= MAX_BLOCKS && h.capacity == h.nsectors * SECTOR_SIZE && h.limit <= h.capacity
    ensures 0 <= f < NUM_SECTORS
    ensures h.nsectors <= NUM_DIRECT <==> h.dataSectors[NUM_DIRECT] == 0
    ensures h.dataSectors[NUM_DIRECT] < NUM_SECTORS
    ensures h.nsectors > NUM_DIRECT ==> forall k | 0 <= k < NUM_INDIRECT :: k < FirstFree(h) <==> Entries(d, h)[k] != 0
  {
    if h.nsectors > NUM_DIRECT {
      assert IsSlot(h, 1) && Slot(d, h, f, 1) == h.dataSectors[NUM_DIRECT];
      forall k | 0 <= k < FirstFree(h)
        ensures Entries(d, h)[k] != 0
      {
        assert IsSlot(h, k + 2 + NUM_DIRECT) && Slot(d, h, f, k + 2 + NUM_DIRECT) == Entries(d, h)[k];
      }
    }
  }

  /** The first unused entry of the indirect block. */
  function FirstFree(h: Header): nat {
    if h.nsectors <= NUM_DIRECT then 0 else h.nsectors - NUM_DIRECT
  }

  /** The sectors whose bits `Deallocate` clears, in its order: the direct blocks, every indirect entry, the indirect block. */
  function Freed(d: Disk, h: Header): seq<word> {
    if h.nsectors <= NUM_DIRECT then h.dataSectors[..h.nsectors]
    else h.dataSectors[..NUM_DIRECT] + Entries(d, h) + [h.dataSectors[NUM_DIRECT]]
  }

  /** An indirect block in use with unused entries left. */
  predicate PartFilledIndirect(h: Header) {
    NUM_DIRECT < h.nsectors < MAX_BLOCKS
  }

  /** Deallocation frees exactly the blocks of the file, and also sector 0 exactly when the indirect block is part-filled. */
  lemma FreedSectors(d: Disk, h: Header, f: int, s: word)
    requires WellFormed(d, h, f)
    ensures s in Freed(d, h) <==>
            (exists k :: IsSlot(h, k) && k != 0 && Slot(d, h, f, k) == s) || (s == 0 && PartFilledIndirect(h))
  {
    if s in Freed(d, h) {
      var i :| 0 <= i < |Freed(d, h)| && Freed(d, h)[i] == s;
      if i < h.nsectors {
        assert IsSlot(h, i + 2) && Slot(d, h, f, i + 2) == s;
      } else if i == MAX_BLOCKS {
        assert IsSlot(h, 1) && Slot(d, h, f, 1) == s;
      }
    }
    if k :| IsSlot(h, k) && k != 0 && Slot(d, h, f, k) == s {
      assert Freed(d, h)[if k == 1 then MAX_BLOCKS else k - 2] == s;
    }
    if s == 0 && PartFilledIndirect(h) {
      assert Freed(d, h)[h.nsectors] == 0;
    }
  }

  lemma FreedInOrder(d: Disk, h: Header, f: int)
    requires WellFormed(d, h, f)
    ensures h.nsectors <= NUM_DIRECT ==> Freed(d, h) == h.dataSectors[..h.nsectors]
    ensures h.nsectors > NUM_DIRECT ==>
              0 < h.dataSectors[NUM_DIRECT] < NUM_SECTORS &&
              (forall s :: s in Freed(d, h) <==>
                 s in h.dataSectors[..NUM_DIRECT] || s in ToWords(d[h.dataSectors[NUM_DIRECT]]) || s == h.dataSectors[NUM_DIRECT]) &&
              (forall i | 0 <= i < NUM_INDIRECT :: ToWords(d[h.dataSectors[NUM_DIRECT]])[i] < NUM_SECTORS)
    ensures forall i | 0 <= i < NUM_DIRECT && i < h.nsectors :: h.dataSectors[i] < NUM_SECTORS
  {
    forall i | 0 <= i < NUM_DIRECT && i < h.nsectors
      ensures h.dataSectors[i] < NUM_SECTORS
    {
      assert IsSlot(h, i + 2) && Slot(d, h, f, i + 2) == h.dataSectors[i];
    }
    if h.nsectors > NUM_DIRECT {
      assert IsSlot(h, 1) && Slot(d, h, f, 1) == h.dataSectors[NUM_DIRECT];
      forall i | 0 <= i < h.nsectors - NUM_DIRECT
        ensures Entries(d, h)[i] < NUM_SECTORS
      {
        assert IsSlot(h, i + 2 + NUM_DIRECT) && Slot(d, h, f, i + 2 + NUM_DIRECT) == Entries(d, h)[i];
      }
    }
  }

  lemma UpdatedTwice(d: Disk, i: nat, a: Sector, b: Sector)
    requires i < NUM_SECTORS
    ensures d[i := a][i := b] == d[i := b]
  {
  }

  class FileHeader {
    var limit: word
    var capacity: word
    var nsectors: word
    var selfSector: word
    var ftype: word
    var createTime: word
    var modifyTime: word
    var dataSectors: seq<word>

    ghost predicate Valid()
      reads this
    {
      |dataSectors| == NUM_DIRECT + 1
    }

    function Value(): Header
      requires Valid()
      reads this
    {
      Fields(limit, capacity, nsectors, selfSector, ftype, createTime, modifyTime, dataSectors)
    }

    constructor (self: word, kind: word, now: word, garbage: word)
      ensures Valid()
      ensures Value() == Fields(0, 0, 0, self, kind, now, garbage, seq(NUM_DIRECT + 1, i => 0))
    {
      limit, capacity, nsectors := 0, 0, 0;
      selfSector, ftype := self, kind;
      dataSectors := seq(NUM_DIRECT + 1, i => 0);
      createTime, modifyTime := now, garbage;
    }

    constructor Fetch(disk: SynchDisk, sector: nat)
      requires disk.Valid() && sector < NUM_SECTORS
      modifies disk.cache
      ensures disk.Valid() && Valid() && Value() == Parse(disk.sectors[sector])
    {
      dataSectors := seq(NUM_DIRECT + 1, i => 0);
      new;
      FetchFrom(disk, sector);
    }

    method FetchFrom(disk: SynchDisk, sector: nat)
      requires disk.Valid() && sector < NUM_SECTORS
      modifies this, disk.cache
      ensures disk.Valid() && Valid() && Value() == Parse(disk.sectors[sector])
    {
      var s := disk.ReadSector(sector);
      var w := ToWords(s);
      limit, capacity, nsectors, selfSector, ftype, createTime, modifyTime := w[0], w[1], w[2], w[3], w[4], w[5], w[6];
      dataSectors := w[7..];
    }

    method WriteBack(disk: SynchDisk, sector: nat)
      requires disk.Valid() && sector < NUM_SECTORS && Valid()
      modifies disk, disk.cache
      ensures disk.Valid() && disk.sectors == old(disk.sectors)[sector := Image(Value())]
      ensures Parse(disk.sectors[sector]) == Value()
    {
      ParseImage(Value());
      disk.WriteSector(sector, Image(Value()));
    }

    /** Adds room for `size` more bytes; `f` is the sector the header belongs to. */
    method Allocate(freeMap: Bitmap, disk: SynchDisk, size: int, ghost f: int) returns (r: AllocResult)
      requires Valid() && disk.Valid() && freeMap.Valid() && freeMap.numBits == NUM_SECTORS
      requires WellFormed(disk.sectors, Value(), f) && SlotsMarked(disk.sectors, Value(), f, freeMap.Contents())
      requires freeMap.Contents()[0]
      modifies this, freeMap.words, disk, disk.cache
      ensures Valid() && disk.Valid() && freeMap.Valid()
      ensures r == if size == 0 then Allocated
                   else if size < 0 || size + old(capacity) > MAX_FILE_SIZE then Refused
                   else if CountClear(old(freeMap.Contents())) < BlocksFor(size) then Refused
                   else if NeedsIndirect(old(Value()), BlocksFor(size)) && CountClear(old(freeMap.Contents())) == BlocksFor(size) then Aborted
                   else Allocated
      ensures r == Refused ==> Value() == old(Value()) && disk.sectors == old(disk.sectors) && freeMap.Contents() == old(freeMap.Contents())
      ensures r == Allocated ==>
                Grown(old(disk.sectors), old(Value()), old(freeMap.Contents()),
                      disk.sectors, Value(), freeMap.Contents(), f, BlocksFor(size))
    {
      IndirectFacts(disk.sectors, Value(), f);
      hide WellFormed, SlotsMarked, Grown, Taken, BitsOf, CountClear, ToWords, Entries;
      if size == 0 {
        GrownDirect(disk.sectors, Value(), freeMap.Contents(), Value(), freeMap.Contents(), f, []);
        return Allocated;
      }
      if size < 0 || size + capacity > MAX_FILE_SIZE {
        return Refused;
      }
      var n: nat := BlocksFor(size);
      var total := n;
      var clear := freeMap.NumClear();
      if clear < n {
        return Refused;
      }
      ghost var h, bits := Value(), freeMap.Contents();
      ghost var early;
      n, early := FillDirect(freeMap, n);
      if n == 0 {
        nsectors := nsectors + total;
        capacity := nsectors * SECTOR_SIZE;
        GrownDirect(disk.sectors, h, bits, Value(), freeMap.Contents(), f, early);
        return Allocated;
      }
      r := AllocateIndirect(freeMap, disk, n, total, f, h, bits, early);
    }

    /** The loop over the direct blocks; with enough clear bits its ASSERT cannot fail. */
    method FillDirect(freeMap: Bitmap, wanted: nat) returns (n: nat, ghost early: seq<word>)
      requires Valid() && freeMap.Valid() && freeMap.numBits == NUM_SECTORS
      requires freeMap.Contents()[0] && wanted <= CountClear(freeMap.Contents())
      modifies this, freeMap.words
      ensures Valid() && freeMap.Valid() && n + |early| == wanted
      ensures |early| == if nsectors >= NUM_DIRECT then 0 else if nsectors + wanted <= NUM_DIRECT then wanted else NUM_DIRECT - nsectors
      ensures Taken(old(freeMap.Contents()), early, freeMap.Contents())
      ensures CountClear(freeMap.Contents()) == CountClear(old(freeMap.Contents())) - |early|
      ensures Value() == old(Value()).(dataSectors := dataSectors)
      ensures forall j | 0 <= j <= NUM_DIRECT ::
                dataSectors[j] == if nsectors <= j < nsectors + |early| then early[j - nsectors] else old(dataSectors)[j]
    {
      hide Taken, BitsOf, CountClear;
      n, early := wanted, [];
      var i := nsectors;
      NoneTaken(freeMap.Contents());
      while i < NUM_DIRECT && n > 0
        modifies this, freeMap.words
        invariant Valid() && freeMap.Valid() && Taken(old(freeMap.Contents()), early, freeMap.Contents())
        invariant CountClear(freeMap.Contents()) == CountClear(old(freeMap.Contents())) - |early|
        invariant nsectors <= i && (i <= NUM_DIRECT || i == nsectors) && |early| == i - nsectors && n + |early| == wanted
        invariant forall j | 0 <= j <= NUM_DIRECT :: dataSectors[j] == if nsectors <= j < i then early[j - nsectors] else old(dataSectors)[j]
        invariant Value() == old(Value()).(dataSectors := dataSectors)
      {
        ghost var before := freeMap.Contents();
        FindFailsIffFull(before);
        var s := freeMap.FindAndSet();
        TakeOne(old(freeMap.Contents()), early, before, s);
        assert s > 0;
        dataSectors := dataSectors[i := s];
        early := early + [s];
        n := n - 1;
        i := i + 1;
      }
    }

    /** The second half of `Allocate`, reached with the direct blocks full and `n` blocks still wanted. */
    method AllocateIndirect(freeMap: Bitmap, disk: SynchDisk, wanted: nat, total: nat, ghost f: int,
                            ghost h: Header, ghost bits: seq<bool>, ghost early: seq<word>)
      returns (r: AllocResult)
      requires Valid() && disk.Valid() && freeMap.Valid() && freeMap.numBits == NUM_SECTORS
      requires WellFormed(disk.sectors, h, f) && |bits| == NUM_SECTORS && SlotsMarked(disk.sectors, h, f, bits) && bits[0]
      requires Taken(bits, early, freeMap.Contents()) && CountClear(freeMap.Contents()) == CountClear(bits) - |early|
      requires Value() == h.(dataSectors := dataSectors)
      requires dataSectors[NUM_DIRECT] == h.dataSectors[NUM_DIRECT] && DirectFilled(h, early, dataSectors)
      requires |early| == (if h.nsectors <= NUM_DIRECT then NUM_DIRECT - h.nsectors else 0)
      requires 0 < wanted && total == |early| + wanted && h.nsectors + total <= MAX_BLOCKS && total <= CountClear(bits)
      modifies this, freeMap.words, disk, disk.cache
      ensures Valid() && disk.Valid() && freeMap.Valid()
      ensures r == if NeedsIndirect(h, total) && CountClear(bits) == total then Aborted else Allocated
      ensures r == Allocated ==>
                Grown(old(disk.sectors), h, bits, disk.sectors, Value(), freeMap.Contents(), f, total)
    {
      hide WellFormed, SlotsMarked, Grown, Taken, DirectFilled, EntriesFilled, BitsOf, CountClear, FirstClear, ToBytes, ToWords, Entries;
      ghost var d := disk.sectors;
      var made, inDirect;
      ghost var created;
      made, inDirect, created := LoadIndirect(freeMap, disk, f, h, bits, early);
      if !made {
        return Aborted;
      }
      var sector := dataSectors[NUM_DIRECT];
      ghost var base, d1 := inDirect, disk.sectors;
      var full, n;
      ghost var late;
      full, inDirect, n, late := FillIndirect(freeMap, inDirect, wanted, bits, early + created, FirstFree(h));
      if full {
        return Aborted;
      }
      if n == 0 {
        nsectors := nsectors + total;
        capacity := nsectors * SECTOR_SIZE;
        disk.WriteSector(sector, ToBytes(inDirect));
        UpdatedTwice(d, sector, d1[sector], ToBytes(inDirect));
        GrownIndirectStored(d, h, bits, disk.sectors, Value(), freeMap.Contents(), f, early, created, late, base, inDirect);
        return Allocated;
      }
      return Exhausted;
    }

    /** The indirect block of the file, made first if there is none, and its entries. */
    method LoadIndirect(freeMap: Bitmap, disk: SynchDisk, ghost f: int, ghost h: Header, ghost bits: seq<bool>, ghost early: seq<word>)
      returns (made: bool, inDirect: seq<word>, ghost created: seq<word>)
      requires Valid() && disk.Valid() && freeMap.Valid() && freeMap.numBits == NUM_SECTORS
      requires WellFormed(disk.sectors, h, f) && Taken(bits, early, freeMap.Contents()) && bits[0]
      requires dataSectors[NUM_DIRECT] == h.dataSectors[NUM_DIRECT] && DirectFilled(h, early, dataSectors)
      modifies this, freeMap.words, disk, disk.cache
      ensures Valid() && disk.Valid() && freeMap.Valid()
      ensures made <==> h.nsectors > NUM_DIRECT || CountClear(old(freeMap.Contents())) > 0
      ensures Value() == old(Value()).(dataSectors := dataSectors)
      ensures made ==> 0 < dataSectors[NUM_DIRECT] < NUM_SECTORS && DirectFilled(h, early, dataSectors)
      ensures made ==> Taken(bits, early + created, freeMap.Contents())
      ensures made ==> CountClear(freeMap.Contents()) == CountClear(old(freeMap.Contents())) - |created|
      ensures made ==> created == if h.nsectors <= NUM_DIRECT then [dataSectors[NUM_DIRECT]] else []
      ensures made ==> |inDirect| == NUM_INDIRECT && forall k | 0 <= k < NUM_INDIRECT :: k < FirstFree(h) <==> inDirect[k] != 0
      ensures made && h.nsectors > NUM_DIRECT ==>
                inDirect == Entries(old(disk.sectors), h) && dataSectors[NUM_DIRECT] == h.dataSectors[NUM_DIRECT]
      ensures made ==> disk.sectors == old(disk.sectors)[dataSectors[NUM_DIRECT] := disk.sectors[dataSectors[NUM_DIRECT]]]
    {
      IndirectFacts(disk.sectors, h, f);
      hide WellFormed, Taken, DirectFilled, BitsOf, CountClear, FirstClear, ToBytes, ToWords;
      made, created := MakeIndirect(freeMap, disk, h, bits, early);
      inDirect := [];
      if made {
        var content := disk.ReadSector(dataSectors[NUM_DIRECT]);
        inDirect := ToWords(content);
        if h.nsectors > NUM_DIRECT {
          assert inDirect == Entries(old(disk.sectors), h);
        } else {
          assert created != [] && inDirect == seq(NUM_INDIRECT, i => 0);
        }
      }
    }

    /** Creates and clears the indirect block if the file has none; fails only on a full free map. */
    method MakeIndirect(freeMap: Bitmap, disk: SynchDisk, ghost h: Header, ghost bits: seq<bool>, ghost early: seq<word>)
      returns (made: bool, ghost created: seq<word>)
      requires Valid() && disk.Valid() && freeMap.Valid() && freeMap.numBits == NUM_SECTORS
      requires Taken(bits, early, freeMap.Contents()) && bits[0]
      requires dataSectors[NUM_DIRECT] < NUM_SECTORS
      requires dataSectors[NUM_DIRECT] == h.dataSectors[NUM_DIRECT] && DirectFilled(h, early, dataSectors)
      modifies this, freeMap.words, disk, disk.cache
      ensures Valid() && disk.Valid() && freeMap.Valid()
      ensures made <==> old(dataSectors[NUM_DIRECT]) != 0 || CountClear(old(freeMap.Contents())) > 0
      ensures made ==> 0 < dataSectors[NUM_DIRECT] < NUM_SECTORS && Taken(bits, early + created, freeMap.Contents())
      ensures made ==> created == if old(dataSectors[NUM_DIRECT]) == 0 then [dataSectors[NUM_DIRECT]] else []
      ensures made ==> CountClear(freeMap.Contents()) == CountClear(old(freeMap.Contents())) - |created|
      ensures Value() == old(Value()).(dataSectors := dataSectors)
      ensures made ==> DirectFilled(h, early, dataSectors)
      ensures made && created == [] ==> dataSectors == old(dataSectors) && disk.sectors == old(disk.sectors)
      ensures made && created != [] ==>
                disk.sectors == old(disk.sectors)[dataSectors[NUM_DIRECT] := disk.sectors[dataSectors[NUM_DIRECT]]] &&
                ToWords(disk.sectors[dataSectors[NUM_DIRECT]]) == seq(NUM_INDIRECT, i => 0)
    {
      created := [];
      hide Taken, DirectFilled, BitsOf, CountClear, FirstClear, ToBytes, ToWords;
      if dataSectors[NUM_DIRECT] == 0 {
        var inDirect: seq<word> := seq(NUM_INDIRECT, i => 0);
        ToWordsToBytes(inDirect);
        FindFailsIffFull(freeMap.Contents());
        ghost var before := freeMap.Contents();
        var s := freeMap.FindAndSet();
        if !(s >= 0) {
          return false, created;
        }
        TakeOne(bits, early, before, s);
        DirectFilledIgnoresIndirect(h, early, dataSectors, s);
        dataSectors := dataSectors[NUM_DIRECT := s];
        created := [s];
        disk.WriteSector(s, ToBytes(inDirect));
      } else {
        assert early + created == early;
      }
      made := true;
    }

    /** The loop over the indirect block; `full` reports the failed ASSERT of a free map that ran dry. */
    method FillIndirect(freeMap: Bitmap, entries: seq<word>, wanted: nat, ghost bits: seq<bool>, ghost taken: seq<word>, ghost first: nat)
      returns (full: bool, e: seq<word>, n: nat, ghost late: seq<word>)
      requires freeMap.Valid() && freeMap.numBits == NUM_SECTORS && Taken(bits, taken, freeMap.Contents()) && bits[0]
      requires |entries| == NUM_INDIRECT && first + wanted <= NUM_INDIRECT
      requires forall k | 0 <= k < NUM_INDIRECT :: k < first <==> entries[k] != 0
      modifies freeMap.words
      ensures freeMap.Valid()
      ensures full <==> CountClear(old(freeMap.Contents())) < wanted
      ensures !full ==> |late| == wanted && n == 0 && Taken(bits, taken + late, freeMap.Contents())
      ensures |e| == NUM_INDIRECT && (!full ==> EntriesFilled(entries, first, late, e))
    {
      hide Taken, BitsOf, CountClear;
      e, n, late := entries, wanted, [];
      assert taken + late == taken;
      var i := 0;
      while i < NUM_INDIRECT && n > 0
        modifies freeMap.words
        invariant 0 <= i <= NUM_INDIRECT && freeMap.Valid() && Taken(bits, taken + late, freeMap.Contents())
        invariant CountClear(freeMap.Contents()) == CountClear(old(freeMap.Contents())) - |late|
        invariant |late| == (if i <= first then 0 else i - first) && n + |late| == wanted
        invariant |e| == NUM_INDIRECT
        invariant forall k | 0 <= k < first :: e[k] == entries[k]
        invariant forall k | 0 <= k < |late| :: e[first + k] == late[k]
        invariant forall k | first + |late| <= k < NUM_INDIRECT :: e[k] == 0
      {
        if e[i] == 0 {
          ghost var before := freeMap.Contents();
          FindFailsIffFull(before);
          var s := freeMap.FindAndSet();
          if !(s >= 0) {
            return true, e, n, late;
          }
          TakeOne(bits, taken + late, before, s);
          e := e[i := s];
          assert taken + late + [s] == taken + (late + [s]);
          late := late + [s];
          n := n - 1;
        }
        i := i + 1;
      }
      full := false;
    }

    /** Gives the file's blocks back; only the free map and the header in memory change. */
    method Deallocate(freeMap: Bitmap, disk: SynchDisk, ghost f: int)
      requires Valid() && disk.Valid() && freeMap.Valid() && freeMap.numBits == NUM_SECTORS
      requires WellFormed(disk.sectors, Value(), f)
      modifies this, freeMap.words, disk.cache
      ensures Valid() && disk.Valid() && freeMap.Valid()
      ensures limit == 0 && capacity == 0 && nsectors == 0 && dataSectors[NUM_DIRECT] == 0
      ensures forall s: nat | s < NUM_SECTORS ::
                freeMap.Contents()[s] <==> old(freeMap.Contents())[s] && s !in Freed(disk.sectors, old(Value()))
    {
      ghost var h := Value();
      FreedInOrder(disk.sectors, h, f);
      IndirectFacts(disk.sectors, h, f);
      hide WellFormed, BitsOf, ToWords, Entries, Freed;
      var i := 0;
      while i < nsectors && i < NUM_DIRECT
        modifies this`dataSectors, freeMap.words
        invariant 0 <= i <= nsectors && i <= NUM_DIRECT && Valid() && freeMap.Valid()
        invariant forall j | i <= j <= NUM_DIRECT :: dataSectors[j] == h.dataSectors[j]
        invariant forall s: nat | s < NUM_SECTORS :: freeMap.Contents()[s] <==> old(freeMap.Contents())[s] && s !in h.dataSectors[..i]
      {
        assert h.dataSectors[..i + 1] == h.dataSectors[..i] + [dataSectors[i]];
        var set_ := freeMap.Test(dataSectors[i]);
        if set_ {
          freeMap.Clear(dataSectors[i]);
          dataSectors := dataSectors[i := 0];
        }
        i := i + 1;
      }
      if nsectors > NUM_DIRECT {
        var content := disk.ReadSector(dataSectors[NUM_DIRECT]);
        ClearEntries(freeMap, ToWords(content));
        freeMap.Clear(dataSectors[NUM_DIRECT]);
      }
      dataSectors := dataSectors[NUM_DIRECT := 0];
      limit, capacity, nsectors := 0, 0, 0;
    }

    method ClearEntries(freeMap: Bitmap, inDirect: seq<word>)
      requires freeMap.Valid() && freeMap.numBits == NUM_SECTORS
      requires forall i | 0 <= i < |inDirect| :: inDirect[i] < NUM_SECTORS
      modifies freeMap.words
      ensures freeMap.Valid()
      ensures forall s: nat | s < NUM_SECTORS :: freeMap.Contents()[s] <==> old(freeMap.Contents())[s] && s !in inDirect
    {
      for i := 0 to |inDirect|
        modifies freeMap.words
        invariant freeMap.Valid()
        invariant forall s: nat | s < NUM_SECTORS :: freeMap.Contents()[s] <==> old(freeMap.Contents())[s] && s !in inDirect[..i]
      {
        assert inDirect[..i + 1] == inDirect[..i] + [inDirect[i]];
        var set_ := freeMap.Test(inDirect[i]);
        if set_ {
          freeMap.Clear(inDirect[i]);
        }
      }
      assert inDirect[..|inDirect|] == inDirect;
    }

    method ByteToSector(disk: SynchDisk, offset: nat, ghost f: int) returns (sector: word)
      requires Valid() && disk.Valid() && WellFormed(disk.sectors, Value(), f) && offset < capacity
      modifies disk.cache
      ensures disk.Valid() && sector == DataSector(disk.sectors, Value(), offset / SECTOR_SIZE)
      ensures 0 < sector < NUM_SECTORS
    {
      IndirectFacts(disk.sectors, Value(), f);
      var n := offset / SECTOR_SIZE;
      assert IsSlot(Value(), n + 2) && Slot(disk.sectors, Value(), f, n + 2) == DataSector(disk.sectors, Value(), n);
      if n < NUM_DIRECT {
        return dataSectors[n];
      }
      n := n - NUM_DIRECT;
      var content := disk.ReadSector(dataSectors[NUM_DIRECT]);
      sector := ToWords(content)[n];
    }

    method SetFileLimit(position: int) returns (ok: bool)
      requires Valid()
      modifies this`limit
      ensures ok <==> 0 <= position <= capacity
      ensures limit == if ok then position else old(limit)
    {
      if position < 0 || position > capacity {
        return false;
      }
      limit := position;
      return true;
    }
  }
}
