/** What a file contains, given its header and the disk, and what a write does to it. */
module FileContents {
  import opened Words
  import opened SynchDisks
  import opened FileHeaders

  /** Byte `i` of the blocks of a file, wherever the limit is. */
  function ByteAt(d: Disk, h: Header, i: nat): byte {
    if i / SECTOR_SIZE < MAX_BLOCKS && DataSector(d, h, i / SECTOR_SIZE) < NUM_SECTORS
    then d[DataSector(d, h, i / SECTOR_SIZE)][i % SECTOR_SIZE]
    else 0
  }

  function Prefix(d: Disk, h: Header, n: nat): (s: seq<byte>)
    ensures |s| == n
  {
    if n == 0 then [] else Prefix(d, h, n - 1) + [ByteAt(d, h, n - 1)]
  }

  /** The contents of a file: the bytes below its limit. */
  function FileBytes(d: Disk, h: Header): (s: seq<byte>)
    ensures |s| == h.limit
  {
    Prefix(d, h, h.limit)
  }

  lemma {:induction false} PrefixAt(d: Disk, h: Header, n: nat, i: nat)
    requires i < n
    ensures Prefix(d, h, n)[i] == ByteAt(d, h, i)
  {
    if i < n - 1 { PrefixAt(d, h, n - 1, i); }
  }

  lemma FileBytesAt(d: Disk, h: Header)
    ensures forall i | 0 <= i < h.limit :: FileBytes(d, h)[i] == ByteAt(d, h, i)
  {
    forall i | 0 <= i < h.limit { PrefixAt(d, h, h.limit, i); }
  }

  lemma SectorBytes(d: Disk, h: Header, n: nat)
    requires n < MAX_BLOCKS && DataSector(d, h, n) < NUM_SECTORS
    ensures forall x | n * SECTOR_SIZE <= x < (n + 1) * SECTOR_SIZE ::
              ByteAt(d, h, x) == d[DataSector(d, h, n)][x - n * SECTOR_SIZE]
  {
  }

  /** A file depends on the disk only through its own blocks. */
  lemma FileFrame(d: Disk, d': Disk, h: Header, f: int)
    requires WellFormed(d, h, f)
    requires forall k | IsSlot(h, k) && k != 0 :: d'[Slot(d, h, f, k)] == d[Slot(d, h, f, k)]
    ensures WellFormed(d', h, f)
    ensures forall k | IsSlot(h, k) :: Slot(d', h, f, k) == Slot(d, h, f, k)
    ensures FileBytes(d', h) == FileBytes(d, h)
  {
    if h.nsectors > NUM_DIRECT {
      assert IsSlot(h, 1) && Slot(d, h, f, 1) == h.dataSectors[NUM_DIRECT];
      assert Entries(d', h) == Entries(d, h);
    }
    FileBytesAt(d, h);
    FileBytesAt(d', h);
    forall i | 0 <= i < h.limit
      ensures FileBytes(d', h)[i] == FileBytes(d, h)[i]
    {
      assert IsSlot(h, i / SECTOR_SIZE + 2) && Slot(d, h, f, i / SECTOR_SIZE + 2) == DataSector(d, h, i / SECTOR_SIZE);
    }
  }

  /** Only the indirect block decides where the data blocks are. */
  lemma MapFrame(d: Disk, d': Disk, h: Header, f: int)
    requires WellFormed(d, h, f)
    requires h.dataSectors[NUM_DIRECT] < NUM_SECTORS
    requires h.nsectors > NUM_DIRECT ==> d'[h.dataSectors[NUM_DIRECT]] == d[h.dataSectors[NUM_DIRECT]]
    ensures WellFormed(d', h, f)
    ensures forall k | IsSlot(h, k) :: Slot(d', h, f, k) == Slot(d, h, f, k)
    ensures forall n: nat | n < h.nsectors :: DataSector(d', h, n) == DataSector(d, h, n)
  {
    if h.nsectors > NUM_DIRECT {
      assert IsSlot(h, 1) && Slot(d, h, f, 1) == h.dataSectors[NUM_DIRECT];
      assert Entries(d', h) == Entries(d, h);
    }
  }

  lemma BlockIsSlot(d: Disk, h: Header, f: int, n: nat)
    requires WellFormed(d, h, f) && n < h.nsectors
    ensures IsSlot(h, n + 2) && Slot(d, h, f, n + 2) == DataSector(d, h, n) && 0 < DataSector(d, h, n) < NUM_SECTORS
    ensures DataSector(d, h, n) != f
    ensures h.nsectors > NUM_DIRECT ==> DataSector(d, h, n) != h.dataSectors[NUM_DIRECT]
    ensures forall m: nat | m < h.nsectors && m != n :: DataSector(d, h, m) != DataSector(d, h, n)
  {
    assert IsSlot(h, 0) && Slot(d, h, f, 0) == f;
    if h.nsectors > NUM_DIRECT {
      assert IsSlot(h, 1) && Slot(d, h, f, 1) == h.dataSectors[NUM_DIRECT];
    }
    forall m: nat | m < h.nsectors && m != n
      ensures DataSector(d, h, m) != DataSector(d, h, n)
    {
      assert IsSlot(h, m + 2) && Slot(d, h, f, m + 2) == DataSector(d, h, m);
      assert IsSlot(h, n + 2) && Slot(d, h, f, n + 2) == DataSector(d, h, n);
    }
  }

  /** Where byte `x` of a file lies on disk. */
  lemma ByteLies(d: Disk, h: Header, x: nat)
    requires x < h.limit <= MAX_FILE_SIZE && |FileBytes(d, h)| == h.limit
    ensures x / SECTOR_SIZE < NUM_DIRECT && h.dataSectors[x / SECTOR_SIZE] < NUM_SECTORS ==>
              FileBytes(d, h)[x] == d[h.dataSectors[x / SECTOR_SIZE]][x % SECTOR_SIZE]
    ensures x / SECTOR_SIZE >= NUM_DIRECT && h.dataSectors[NUM_DIRECT] < NUM_SECTORS ==>
              var entry := ToWords(d[h.dataSectors[NUM_DIRECT]])[x / SECTOR_SIZE - NUM_DIRECT];
              entry < NUM_SECTORS ==> FileBytes(d, h)[x] == d[entry][x % SECTOR_SIZE]
  {
    FileBytesAt(d, h);
  }

  /** A sector of the blocks `first` to `last` of the file. */
  ghost predicate InBlocks(d: Disk, h: Header, first: nat, last: nat, s: int)
    requires last < MAX_BLOCKS
  {
    exists n: nat :: first <= n <= last && s == DataSector(d, h, n)
  }

  /** The buffer of a write of `from` at `position`, from the start of its first sector on. */
  ghost predicate LaidOut(d: Disk, h: Header, position: nat, from: seq<byte>, buf: seq<byte>) {
    var first, last := position / SECTOR_SIZE, (position + |from| - 1) / SECTOR_SIZE;
    && |buf| == (1 + last - first) * SECTOR_SIZE
    && forall y | 0 <= y < |buf| && first * SECTOR_SIZE + y < position + |from| ::
         buf[y] == var x := first * SECTOR_SIZE + y; if x < position then ByteAt(d, h, x) else from[x - position]
  }

  /** The blocks `first` to `last` hold `buf`. */
  ghost predicate BlocksHold(d: Disk, h: Header, first: nat, last: nat, buf: seq<byte>)
    requires first <= last < MAX_BLOCKS
  {
    && |buf| == (1 + last - first) * SECTOR_SIZE
    && forall n | first <= n <= last ::
         DataSector(d, h, n) < NUM_SECTORS &&
         d[DataSector(d, h, n)] == buf[(n - first) * SECTOR_SIZE..(n + 1 - first) * SECTOR_SIZE]
  }

  lemma LaidOutByte(d1: Disk, d': Disk, h: Header, position: nat, from: seq<byte>, buf: seq<byte>, x: nat)
    requires |from| > 0 && (position + |from| - 1) / SECTOR_SIZE < MAX_BLOCKS
    requires LaidOut(d1, h, position, from, buf)
    requires BlocksHold(d', h, position / SECTOR_SIZE, (position + |from| - 1) / SECTOR_SIZE, buf)
    requires position / SECTOR_SIZE <= x / SECTOR_SIZE && x < position + |from|
    ensures ByteAt(d', h, x) == if x < position then ByteAt(d1, h, x) else from[x - position]
  {
    var first, n := position / SECTOR_SIZE, x / SECTOR_SIZE;
    var y := (n - first) * SECTOR_SIZE;
    assert ByteAt(d', h, x) == buf[y..y + SECTOR_SIZE][x % SECTOR_SIZE] == buf[y + x % SECTOR_SIZE];
  }

  /** What `WriteAt` does when it need not grow the file: `from` lands at `position`, which becomes the new end. */
  ghost predicate Stored(d: Disk, h: Header, d': Disk, h': Header, f: int, position: nat, from: seq<byte>)
    requires position <= h.limit && WellFormed(d, h, f)
  {
    && h' == h.(limit := h'.limit) && h'.limit == position + |from|
    && WellFormed(d', h', f) && d'[f] == Image(h')
    && FileBytes(d', h') == FileBytes(d, h)[..position] + from
    && (forall k | IsSlot(h, k) :: Slot(d', h', f, k) == Slot(d, h, f, k))
    && (forall s | 0 <= s < NUM_SECTORS && s != f && d'[s] != d[s] :: h.nsectors > 0 && InBlocks(d, h, 0, h.nsectors - 1, s))
  }

  /** Writing back a header with a new limit moves no block and changes no data. */
  lemma HeaderWritten(d: Disk, h: Header, d1: Disk, h': Header, f: int, image: Sector)
    requires WellFormed(d, h, f) && h' == h.(limit := h'.limit) && h'.limit <= h.capacity
    requires d1 == d[f := image]
    ensures WellFormed(d1, h', f)
    ensures forall k | IsSlot(h, k) :: Slot(d1, h', f, k) == Slot(d, h, f, k)
    ensures forall i | 0 <= i < h.capacity :: ByteAt(d1, h', i) == ByteAt(d, h, i)
  {
    IndirectFacts(d, h, f);
    if h.nsectors > NUM_DIRECT {
      assert IsSlot(h, 0) && IsSlot(h, 1) && Slot(d, h, f, 0) == f && Slot(d, h, f, 1) == h.dataSectors[NUM_DIRECT];
    }
    assert h.nsectors > NUM_DIRECT ==> Entries(d1, h') == Entries(d, h);
    forall k | IsSlot(h, k)
      ensures Slot(d1, h', f, k) == Slot(d, h, f, k)
    {
    }
    forall i | 0 <= i < h.capacity
      ensures ByteAt(d1, h', i) == ByteAt(d, h, i)
    {
      BlockIsSlot(d, h, f, i / SECTOR_SIZE);
    }
  }

  lemma AllStored(d: Disk, h: Header, d1: Disk, d': Disk, h': Header, f: int, position: nat, from: seq<byte>, buf: seq<byte>, image: Sector)
    requires WellFormed(d, h, f) && WellFormed(d1, h', f) && WellFormed(d', h', f)
    requires h' == h.(limit := h'.limit) && h'.limit == position + |from| && |from| > 0
    requires position <= h.limit && h'.limit <= h.capacity && d1 == d[f := image] && image == Image(h')
    requires forall k | IsSlot(h, k) :: Slot(d1, h', f, k) == Slot(d, h, f, k)
    requires forall i | 0 <= i < h.capacity :: ByteAt(d1, h', i) == ByteAt(d, h, i)
    requires forall k | IsSlot(h', k) :: Slot(d', h', f, k) == Slot(d1, h', f, k)
    requires LaidOut(d1, h', position, from, buf)
    requires BlocksHold(d', h', position / SECTOR_SIZE, (position + |from| - 1) / SECTOR_SIZE, buf)
    requires forall s | 0 <= s < NUM_SECTORS && d'[s] != d1[s] ::
               InBlocks(d1, h', position / SECTOR_SIZE, (position + |from| - 1) / SECTOR_SIZE, s)
    ensures Stored(d, h, d', h', f, position, from)
  {
    hide Image, LaidOut, BlocksHold;
    var first, last := position / SECTOR_SIZE, (position + |from| - 1) / SECTOR_SIZE;
    forall n: nat | n < h.nsectors
      ensures DataSector(d', h', n) == DataSector(d1, h', n) == DataSector(d, h, n) != f
    {
      BlockIsSlot(d, h, f, n);
      BlockIsSlot(d1, h', f, n);
      BlockIsSlot(d', h', f, n);
    }
    assert d'[f] == d1[f];
    forall x | 0 <= x < h'.limit
      ensures ByteAt(d', h', x) == if x < position then ByteAt(d, h, x) else from[x - position]
    {
      var n := x / SECTOR_SIZE;
      if n < first {
        OtherBlockKept(d1, d', h', f, first, last, n);
        assert DataSector(d', h', n) == DataSector(d1, h', n);
        assert ByteAt(d', h', x) == ByteAt(d1, h', x) == ByteAt(d, h, x);
      } else {
        LaidOutByte(d1, d', h', position, from, buf, x);
      }
    }
    FileBytesAt(d, h);
    FileBytesAt(d', h');
    assert FileBytes(d', h') == FileBytes(d, h)[..position] + from;
    forall s | 0 <= s < NUM_SECTORS && s != f && d'[s] != d[s]
      ensures h.nsectors > 0 && InBlocks(d, h, 0, h.nsectors - 1, s)
    {
      var n: nat :| first <= n <= last && s == DataSector(d1, h', n);
      assert s == DataSector(d, h, n);
    }
  }

  lemma OtherBlockKept(d1: Disk, d': Disk, h': Header, f: int, first: nat, last: nat, n: nat)
    requires WellFormed(d1, h', f) && n < first <= last < h'.nsectors
    requires forall s | 0 <= s < NUM_SECTORS && d'[s] != d1[s] :: InBlocks(d1, h', first, last, s)
    ensures DataSector(d1, h', n) < NUM_SECTORS && d'[DataSector(d1, h', n)] == d1[DataSector(d1, h', n)]
  {
    BlockIsSlot(d1, h', f, n);
  }

  /** What overwriting part of a file in place is usually taken to mean: the bytes after the written ones stay. */
  function Overwritten(old_: seq<byte>, position: nat, from: seq<byte>): seq<byte>
    requires position <= |old_|
  {
    old_[..position] + from + (if position + |from| < |old_| then old_[position + |from|..] else [])
  }

  /** A write keeps the rest of the file exactly when it reaches the old end; a shorter one cuts the file off. */
  lemma KeepsTailIffReachesEnd(d: Disk, h: Header, d': Disk, h': Header, f: int, position: nat, from: seq<byte>)
    requires WellFormed(d, h, f) && position <= h.limit && Stored(d, h, d', h', f, position, from)
    ensures FileBytes(d', h') == Overwritten(FileBytes(d, h), position, from) <==> position + |from| >= h.limit
  {
    hide WellFormed, FileBytes, Image;
    assert |FileBytes(d', h')| == position + |from|;
    if position + |from| < h.limit {
      assert |Overwritten(FileBytes(d, h), position, from)| == h.limit;
    }
  }

  /** Writing one byte at the start of a two-byte file leaves a one-byte file. */
  lemma ShortOverwriteTruncates(d: Disk, h: Header, d': Disk, h': Header, f: int, b: byte)
    requires WellFormed(d, h, f) && h.limit == 2 && Stored(d, h, d', h', f, 0, [b])
    ensures FileBytes(d', h') == [b]
  {
    hide WellFormed, FileBytes, Image;
  }

  /** Writing `a` and then `b` right behind it stores the same bytes as writing `a + b`. */
  lemma ConsecutiveWrites(d: Disk, h: Header, d1: Disk, h1: Header, d2: Disk, h2: Header, f: int, position: nat,
                          a: seq<byte>, b: seq<byte>)
    requires WellFormed(d, h, f) && position <= h.limit && Stored(d, h, d1, h1, f, position, a)
    requires WellFormed(d1, h1, f) && Stored(d1, h1, d2, h2, f, position + |a|, b)
    ensures Stored(d, h, d2, h2, f, position, a + b)
  {
    hide Image;
    var c := FileBytes(d, h)[..position];
    assert (c + a)[..position + |a|] == c + a;
    assert c + a + b == c + (a + b);
    forall s | 0 <= s < NUM_SECTORS && s != f && d2[s] != d[s]
      ensures h.nsectors > 0 && InBlocks(d, h, 0, h.nsectors - 1, s)
    {
      if d1[s] == d[s] {
        var n: nat :| n <= h.nsectors - 1 && s == DataSector(d1, h1, n);
        BlockIsSlot(d, h, f, n);
        BlockIsSlot(d1, h1, f, n);
        assert s == DataSector(d, h, n);
      }
    }
  }
}
