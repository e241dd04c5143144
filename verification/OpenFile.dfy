/** code/filesys/openfile.cc, code/filesys/pbitmap.cc: reading and writing byte ranges of a file, and the free map kept in a file. */
module OpenFiles {
  import opened Words
  import opened Bitmaps
  import opened SynchDisks
  import opened FileHeaders
  import opened FileContents
  import opened Volumes

  /** A request that `WriteAt` does not turn down. */
  predicate Requested(limit: word, numBytes: int, position: int) {
    numBytes > 0 && 0 <= position <= limit
  }

  datatype WriteResult = Wrote(n: nat) | Crashed

  class OpenFile {
    const hdr: FileHeader
    var seekPosition: int

    constructor (disk: SynchDisk, sector: nat)
      requires disk.Valid() && sector < NUM_SECTORS
      modifies disk.cache
      ensures disk.Valid() && fresh(hdr) && hdr.Valid() && hdr.Value() == Parse(disk.sectors[sector])
      ensures seekPosition == 0
    {
      hdr := new FileHeader.Fetch(disk, sector);
      seekPosition := 0;
    }

    /** Delivers the bytes from `position` on, clipped to the limit, into the buffer at `off`. */
    method ReadAt(disk: SynchDisk, into: array<byte>, off: nat, numBytes: int, position: int, ghost f: int) returns (n: nat)
      requires disk.Valid() && hdr.Valid() && WellFormed(disk.sectors, hdr.Value(), f)
      requires off + numBytes <= into.Length && off <= into.Length
      modifies into, disk.cache
      ensures disk.Valid() && (n == 0 <==> numBytes <= 0 || position < 0 || position >= hdr.limit)
      ensures n > 0 ==> n <= numBytes && position + n <= hdr.limit && (n == numBytes || position + n == hdr.limit)
      ensures forall i | off <= i < off + n :: into[i] == ByteAt(disk.sectors, hdr.Value(), position + (i - off))
      ensures forall i | 0 <= i < into.Length && !(off <= i < off + n) :: into[i] == old(into[i])
      ensures n > 0 ==> into[off..off + n] == FileBytes(disk.sectors, hdr.Value())[position..position + n]
    {
      var fileLimit := hdr.limit;
      if numBytes <= 0 || position < 0 || position >= fileLimit {
        return 0;
      }
      n := numBytes;
      if position + numBytes > fileLimit {
        n := fileLimit - position;
      }
      IndirectFacts(disk.sectors, hdr.Value(), f);
      hide WellFormed, ByteAt, Entries, Prefix;
      var firstSector := position / SECTOR_SIZE;
      var lastSector := (position + n - 1) / SECTOR_SIZE;
      var buf := ReadSectors(disk, firstSector, lastSector, f);
      var at := position - firstSector * SECTOR_SIZE;
      forall j | 0 <= j < n {
        into[off + j] := buf[at + j];
      }
      FileBytesAt(disk.sectors, hdr.Value());
    }

    /** Reads every full or partial sector of a request into a new buffer. */
    method ReadSectors(disk: SynchDisk, firstSector: nat, lastSector: nat, ghost f: int) returns (buf: array<byte>)
      requires disk.Valid() && hdr.Valid() && WellFormed(disk.sectors, hdr.Value(), f)
      requires firstSector <= lastSector < hdr.nsectors
      modifies disk.cache
      ensures disk.Valid() && fresh(buf) && buf.Length == (1 + lastSector - firstSector) * SECTOR_SIZE
      ensures forall y | 0 <= y < buf.Length :: buf[y] == ByteAt(disk.sectors, hdr.Value(), firstSector * SECTOR_SIZE + y)
    {
      IndirectFacts(disk.sectors, hdr.Value(), f);
      hide WellFormed, ByteAt, Entries, Prefix;
      var numSectors := 1 + lastSector - firstSector;
      buf := new byte[numSectors * SECTOR_SIZE];
      var i := firstSector;
      while i <= lastSector
        modifies buf, disk.cache
        invariant firstSector <= i <= lastSector + 1 && disk.Valid()
        invariant forall y | 0 <= y < (i - firstSector) * SECTOR_SIZE ::
                    buf[y] == ByteAt(disk.sectors, hdr.Value(), firstSector * SECTOR_SIZE + y)
      {
        var sector := hdr.ByteToSector(disk, i * SECTOR_SIZE, f);
        SectorBytes(disk.sectors, hdr.Value(), i);
        var data := disk.ReadSector(sector);
        var at := (i - firstSector) * SECTOR_SIZE;
        forall j | at <= j < at + SECTOR_SIZE {
          buf[j] := data[j - at];
        }
        i := i + 1;
      }
    }

    /** Lays out the sectors of a write: old bytes before `position` in the first sector, then the new ones. */
    method FillBuffer(disk: SynchDisk, from: seq<byte>, position: nat, ghost f: int) returns (buf: array<byte>)
      requires disk.Valid() && hdr.Valid() && WellFormed(disk.sectors, hdr.Value(), f)
      requires |from| > 0 && hdr.limit == position + |from|
      modifies disk.cache
      ensures disk.Valid() && fresh(buf)
      ensures buf.Length == (1 + (position + |from| - 1) / SECTOR_SIZE - position / SECTOR_SIZE) * SECTOR_SIZE
      ensures LaidOut(disk.sectors, hdr.Value(), position, from, buf[..])
    {
      hide WellFormed, ByteAt, Entries, Prefix;
      var numBytes := |from|;
      var firstSector := position / SECTOR_SIZE;
      var lastSector := (position + numBytes - 1) / SECTOR_SIZE;
      var numSectors := 1 + lastSector - firstSector;
      buf := new byte[numSectors * SECTOR_SIZE];
      var firstAligned := position == firstSector * SECTOR_SIZE;
      var lastAligned := position + numBytes == (lastSector + 1) * SECTOR_SIZE;
      if !firstAligned {
        var _ := ReadAt(disk, buf, 0, SECTOR_SIZE, firstSector * SECTOR_SIZE, f);
      }
      if !lastAligned && (firstSector != lastSector || firstAligned) {
        var _ := ReadAt(disk, buf, (lastSector - firstSector) * SECTOR_SIZE, SECTOR_SIZE, lastSector * SECTOR_SIZE, f);
      }
      var at := position - firstSector * SECTOR_SIZE;
      forall j | at <= j < at + numBytes {
        buf[j] := from[j - at];
      }
    }

    /** Writes the buffer to the blocks `firstSector` to `lastSector`. */
    method StoreBuffer(disk: SynchDisk, buf: array<byte>, firstSector: nat, lastSector: nat, ghost f: int)
      requires disk.Valid() && hdr.Valid() && WellFormed(disk.sectors, hdr.Value(), f)
      requires firstSector <= lastSector < hdr.nsectors <= MAX_BLOCKS
      requires buf.Length == (1 + lastSector - firstSector) * SECTOR_SIZE
      modifies disk, disk.cache
      ensures disk.Valid() && WellFormed(disk.sectors, hdr.Value(), f)
      ensures forall n: nat | n < hdr.nsectors :: DataSector(disk.sectors, hdr.Value(), n) == DataSector(old(disk.sectors), hdr.Value(), n)
      ensures forall k | IsSlot(hdr.Value(), k) :: Slot(disk.sectors, hdr.Value(), f, k) == Slot(old(disk.sectors), hdr.Value(), f, k)
      ensures BlocksHold(disk.sectors, hdr.Value(), firstSector, lastSector, buf[..])
      ensures forall s | 0 <= s < NUM_SECTORS && disk.sectors[s] != old(disk.sectors)[s] ::
                InBlocks(old(disk.sectors), hdr.Value(), firstSector, lastSector, s)
    {
      ghost var d, h := disk.sectors, hdr.Value();
      IndirectFacts(d, h, f);
      hide WellFormed, Entries, Slot;
      var i := firstSector;
      while i <= lastSector
        modifies disk, disk.cache
        invariant firstSector <= i <= lastSector + 1 && disk.Valid() && WellFormed(disk.sectors, h, f)
        invariant h.nsectors > NUM_DIRECT ==> disk.sectors[h.dataSectors[NUM_DIRECT]] == d[h.dataSectors[NUM_DIRECT]]
        invariant forall n | firstSector <= n < i ::
                    DataSector(d, h, n) < NUM_SECTORS &&
                    disk.sectors[DataSector(d, h, n)] == buf[(n - firstSector) * SECTOR_SIZE..(n + 1 - firstSector) * SECTOR_SIZE]
        invariant forall s | 0 <= s < NUM_SECTORS && disk.sectors[s] != d[s] :: InBlocks(d, h, firstSector, lastSector, s)
      {
        MapFrame(d, disk.sectors, h, f);
        BlockIsSlot(d, h, f, i);
        var sector := hdr.ByteToSector(disk, i * SECTOR_SIZE, f);
        assert sector == DataSector(d, h, i);
        ghost var before := disk.sectors;
        disk.WriteSector(sector, buf[(i - firstSector) * SECTOR_SIZE..(i + 1 - firstSector) * SECTOR_SIZE]);
        MapFrame(before, disk.sectors, h, f);
        i := i + 1;
      }
      MapFrame(d, disk.sectors, h, f);
      forall n | firstSector <= n <= lastSector
        ensures 0 < DataSector(disk.sectors, h, n) < NUM_SECTORS
      {
        BlockIsSlot(d, h, f, n);
      }
    }

    /** The part of `WriteAt` after the file is big enough: new limit, header, data. */
    method PutBytes(disk: SynchDisk, from: seq<byte>, position: nat, ghost f: int)
      requires disk.Valid() && hdr.Valid() && WellFormed(disk.sectors, hdr.Value(), f) && hdr.selfSector == f
      requires |from| > 0 && position <= hdr.limit && position + |from| <= hdr.capacity
      modifies disk, disk.cache, hdr`limit
      ensures disk.Valid() && hdr.Valid()
      ensures Stored(old(disk.sectors), old(hdr.Value()), disk.sectors, hdr.Value(), f, position, from)
    {
      ghost var d, h := disk.sectors, hdr.Value();
      IndirectFacts(d, h, f);
      hide WellFormed, ByteAt, Image, Parse, Stored, LaidOut, BlocksHold;
      var firstSector := position / SECTOR_SIZE;
      var lastSector := (position + |from| - 1) / SECTOR_SIZE;
      var ok := hdr.SetFileLimit(position + |from|);
      hdr.WriteBack(disk, hdr.selfSector);
      ghost var d1, h' := disk.sectors, hdr.Value();
      HeaderWritten(d, h, d1, h', f, Image(h'));
      var buf := FillBuffer(disk, from, position, f);
      StoreBuffer(disk, buf, firstSector, lastSector, f);
      AllStored(d, h, d1, disk.sectors, h', f, position, from, buf[..], Image(h'));
    }

    /**
     * Writes `numBytes` bytes at `position`, growing the file first if they do not fit. `hs` is the ghost
     * table of all current headers. A failed ASSERT of the allocation shows up as `Crashed`.
     */
    method WriteAt(disk: SynchDisk, from: seq<byte>, numBytes: int, position: int, ghost f: int, ghost hs: map<int, Header>)
      returns (r: WriteResult)
      requires disk.Valid() && hdr.Valid() && WellFormed(disk.sectors, hdr.Value(), f) && hdr.selfSector == f
      requires numBytes <= |from|
      requires Requested(hdr.limit, numBytes, position) && position + numBytes > hdr.capacity ==>
                 Volume(disk.sectors, hs) && f in hs && f != FREE_MAP_SECTOR && hs[f] == hdr.Value()
      modifies disk, disk.cache, hdr
      ensures disk.Valid() && hdr.Valid()
      ensures r == Wrote(0) <==> numBytes <= 0 || position < 0 || position > old(hdr.limit)
      ensures !Requested(old(hdr.limit), numBytes, position) ==>
                r == Wrote(0) && disk.sectors == old(disk.sectors) && hdr.Value() == old(hdr.Value())
      ensures Requested(old(hdr.limit), numBytes, position) && position + numBytes <= old(hdr.capacity) ==>
                r == Wrote(numBytes) &&
                Stored(old(disk.sectors), old(hdr.Value()), disk.sectors, hdr.Value(), f, position, from[..numBytes])
      ensures Requested(old(hdr.limit), numBytes, position) && position + numBytes > old(hdr.capacity) ==>
                if CannotGrow(hs[f], FreeMap(old(disk.sectors), hs[FREE_MAP_SECTOR]), position + numBytes - old(hdr.capacity))
                then r == Crashed
                else r == Wrote(numBytes) &&
                     GrownStored(old(disk.sectors), hs, disk.sectors, hdr.Value(), f, position, from[..numBytes],
                                 position + numBytes - old(hdr.capacity))
      ensures r.Wrote? && r.n > 0 ==>
                && r.n == numBytes && 0 <= position <= old(hdr.limit) && hdr.limit == position + numBytes
                && hdr.nsectors == old(hdr.nsectors) +
                   (if position + numBytes > old(hdr.capacity) then BlocksFor(position + numBytes - old(hdr.capacity)) else 0)
                && FileBytes(disk.sectors, hdr.Value()) ==
                   FileBytes(old(disk.sectors), old(hdr.Value()))[..position] + from[..numBytes]
      decreases if position + numBytes > hdr.capacity then 1 else 0, 0
    {
      hide WellFormed, Volume, Stored, GrownStored, Mapped, Grown, Owned, FileBytes, FreeMap, SlotsMarked, Parse, Image, GrewFrom;
      var fileLimit, fileCapacity := hdr.limit, hdr.capacity;
      if numBytes <= 0 || position > fileLimit || position < 0 {
        return Wrote(0);
      }
      if position + numBytes > fileCapacity {
        var size := position + numBytes - fileCapacity;
        ghost var d, h := disk.sectors, hdr.Value();
        ghost var map1, bits1;
        r, map1, bits1 := Grow(disk, size, f, hs);
        if r == Crashed {
          return Crashed;
        }
        ghost var d2, h1 := disk.sectors, hdr.Value();
        assert WellFormed(d2, h1, f);
        PutBytes(disk, from[..numBytes], position, f);
        GrowthComposes(d, hs, f, position, from[..numBytes], size, d2, h1, bits1, map1, disk.sectors, hdr.Value());
        GrownStoredBytes(d, hs, disk.sectors, hdr.Value(), f, position, from[..numBytes], size);
      } else {
        ghost var d, h := disk.sectors, hdr.Value();
        PutBytes(disk, from[..numBytes], position, f);
        StoredFacts(d, h, disk.sectors, hdr.Value(), f, position, from[..numBytes]);
      }
      return Wrote(numBytes);
    }

    /** Reads at the seek position and moves it past what was read. */
    method Read(disk: SynchDisk, into: array<byte>, numBytes: int, ghost f: int) returns (n: nat)
      requires disk.Valid() && hdr.Valid() && WellFormed(disk.sectors, hdr.Value(), f)
      requires numBytes <= into.Length
      modifies this`seekPosition, into, disk.cache
      ensures disk.Valid() && seekPosition == old(seekPosition) + n
      ensures n == 0 <==> numBytes <= 0 || old(seekPosition) < 0 || old(seekPosition) >= hdr.limit
      ensures n > 0 ==> n <= numBytes && seekPosition <= hdr.limit && (n == numBytes || seekPosition == hdr.limit)
      ensures n > 0 ==> into[..n] == FileBytes(disk.sectors, hdr.Value())[old(seekPosition)..seekPosition]
    {
      n := ReadAt(disk, into, 0, numBytes, seekPosition, f);
      seekPosition := seekPosition + n;
      hide *;
      assert into[..n] == into[0..0 + n];
    }

    /** Writes at the seek position and moves it past what was written; the growing case is `WriteAt`'s. */
    method Write(disk: SynchDisk, from: seq<byte>, numBytes: int, ghost f: int, ghost hs: map<int, Header>) returns (r: WriteResult)
      requires disk.Valid() && hdr.Valid() && WellFormed(disk.sectors, hdr.Value(), f) && hdr.selfSector == f
      requires numBytes <= |from|
      requires Requested(hdr.limit, numBytes, seekPosition) && seekPosition + numBytes > hdr.capacity ==>
                 Volume(disk.sectors, hs) && f in hs && f != FREE_MAP_SECTOR && hs[f] == hdr.Value()
      modifies this`seekPosition, disk, disk.cache, hdr
      ensures disk.Valid() && hdr.Valid()
      ensures seekPosition == old(seekPosition) + if r.Wrote? then r.n else 0
      ensures r == Wrote(0) <==> numBytes <= 0 || old(seekPosition) < 0 || old(seekPosition) > old(hdr.limit)
      ensures !Requested(old(hdr.limit), numBytes, old(seekPosition)) ==>
                r == Wrote(0) && disk.sectors == old(disk.sectors) && hdr.Value() == old(hdr.Value())
      ensures Requested(old(hdr.limit), numBytes, old(seekPosition)) && old(seekPosition) + numBytes <= old(hdr.capacity) ==>
                r == Wrote(numBytes) &&
                Stored(old(disk.sectors), old(hdr.Value()), disk.sectors, hdr.Value(), f, old(seekPosition), from[..numBytes])
      ensures Requested(old(hdr.limit), numBytes, old(seekPosition)) && old(seekPosition) + numBytes > old(hdr.capacity) ==>
                if CannotGrow(hs[f], FreeMap(old(disk.sectors), hs[FREE_MAP_SECTOR]), old(seekPosition) + numBytes - old(hdr.capacity))
                then r == Crashed
                else r == Wrote(numBytes) &&
                     GrownStored(old(disk.sectors), hs, disk.sectors, hdr.Value(), f, old(seekPosition), from[..numBytes],
                                 old(seekPosition) + numBytes - old(hdr.capacity))
    {
      hide WellFormed, Volume, Stored, GrownStored, CannotGrow, FreeMap;
      r := WriteAt(disk, from, numBytes, seekPosition, f, hs);
      if r.Wrote? {
        seekPosition := seekPosition + r.n;
      }
    }

    /** The growth step of `WriteAt`: fetch the free map, allocate, store the free map. */
    method Grow(disk: SynchDisk, size: nat, ghost f: int, ghost hs: map<int, Header>)
      returns (r: WriteResult, ghost map1: seq<byte>, ghost bits1: seq<bool>)
      requires disk.Valid() && hdr.Valid() && size > 0
      requires Volume(disk.sectors, hs) && f in hs && f != FREE_MAP_SECTOR && hs[f] == hdr.Value()
      modifies disk, disk.cache, hdr
      ensures disk.Valid() && hdr.Valid()
      ensures r == if CannotGrow(hs[f], FreeMap(old(disk.sectors), hs[FREE_MAP_SECTOR]), size) then Crashed else Wrote(0)
      ensures r != Crashed ==>
                && |bits1| == NUM_SECTORS && Mapped(old(disk.sectors), hs, f, BlocksFor(size), disk.sectors, hdr.Value(), bits1)
                && |map1| == FREE_MAP_BYTES && BitsOf(ToWords(map1), NUM_SECTORS) == bits1
                && FREE_MAP_SECTOR in hs && FileBytes(disk.sectors, hs[FREE_MAP_SECTOR]) == map1
                && WellFormed(disk.sectors, hdr.Value(), f)
                && hdr.selfSector == f && hdr.limit == hs[f].limit && hdr.capacity >= hs[f].capacity + size
      decreases 0, 2
    {
      hide WellFormed, Volume, Stored, GrownStored, Mapped, Grown, Owned, FileBytes, FreeMap, SlotsMarked, Parse, Image, GrewFrom;
      ghost var d, h := disk.sectors, hdr.Value();
      FreeMapFacts(d, hs, f);
      var freeMapFile := new OpenFile(disk, FREE_MAP_SECTOR);
      var freeMap := new PersistentBitmap(NUM_SECTORS);
      freeMap.FetchFrom(disk, freeMapFile);
      var a := hdr.Allocate(freeMap.bitmap, disk, size, f);
      if a != Allocated {
        return Crashed, [], [];
      }
      ghost var d1, h1 := disk.sectors, hdr.Value();
      bits1 := freeMap.bitmap.Contents();
      MappedAfterGrow(d, hs, f, BlocksFor(size), d1, h1, bits1);
      map1 := freeMap.WriteBack(disk, freeMapFile);
      MappedAfterMapStore(d, hs, f, BlocksFor(size), d1, h1, bits1, disk.sectors, map1);
      MappedFacts(d, hs, f, size, disk.sectors, h1, bits1);
      r := Wrote(0);
    }
  }

  /** A free map held in memory, to be exchanged with the file that stores it. */
  class PersistentBitmap {
    const bitmap: Bitmap

    constructor (numItems: nat)
      requires numItems > 0
      ensures fresh(bitmap) && fresh(bitmap.words) && bitmap.Valid() && bitmap.numBits == numItems
      ensures bitmap.Contents() == seq(numItems, i => false)
    {
      bitmap := new Bitmap(numItems);
    }

    method FetchFrom(disk: SynchDisk, file: OpenFile)
      requires disk.Valid() && bitmap.Valid() && bitmap.numBits == NUM_SECTORS
      requires file.hdr.Valid() && WellFormed(disk.sectors, file.hdr.Value(), FREE_MAP_SECTOR)
      requires file.hdr.limit == FREE_MAP_BYTES
      modifies bitmap.words, disk.cache
      ensures disk.Valid() && bitmap.Valid() && bitmap.Contents() == FreeMap(disk.sectors, file.hdr.Value())
    {
      ghost var stored := FileBytes(disk.sectors, file.hdr.Value());
      var bytes := new byte[FREE_MAP_BYTES];
      var n := file.ReadAt(disk, bytes, 0, FREE_MAP_BYTES, 0, FREE_MAP_SECTOR);
      assert bytes[..] == bytes[0..n] == stored[0..n] == stored;
      hide *;
      var loaded := ToWords(bytes[..]);
      forall i | 0 <= i < |loaded| {
        bitmap.words[i] := loaded[i];
      }
      assert bitmap.words[..] == loaded;
    }

    /** Stores the map in its file; returns the bytes stored. */
    method WriteBack(disk: SynchDisk, file: OpenFile) returns (ghost bytes: seq<byte>)
      requires disk.Valid() && bitmap.Valid() && bitmap.numBits == NUM_SECTORS
      requires file.hdr.Valid() && WellFormed(disk.sectors, file.hdr.Value(), FREE_MAP_SECTOR)
      requires file.hdr.selfSector == FREE_MAP_SECTOR && file.hdr.capacity == FREE_MAP_BYTES
      modifies disk, disk.cache, file.hdr
      ensures disk.Valid() && file.hdr.Valid() && |bytes| == FREE_MAP_BYTES
      ensures BitsOf(ToWords(bytes), NUM_SECTORS) == bitmap.Contents()
      ensures Stored(old(disk.sectors), old(file.hdr.Value()), disk.sectors, file.hdr.Value(), FREE_MAP_SECTOR, 0, bytes)
      ensures old(file.hdr.limit) == FREE_MAP_BYTES ==> file.hdr.Value() == old(file.hdr.Value())
      decreases 0, 1
    {
      hide WellFormed, FileBytes, BitsOf, Image, Volume;
      ToWordsToBytes(bitmap.words[..]);
      bytes := ToBytes(bitmap.words[..]);
      var r := file.WriteAt(disk, ToBytes(bitmap.words[..]), FREE_MAP_BYTES, 0, FREE_MAP_SECTOR, map[]);
      assert bytes[..FREE_MAP_BYTES] == bytes;
    }
  }

  /** `Print` of code/threads/main.cc: reads pieces of `transferSize` bytes until there is none, and puts out what it gets. */
  method Print(disk: SynchDisk, openFile: OpenFile, transferSize: nat, ghost f: int) returns (printed: seq<byte>)
    requires disk.Valid() && openFile.hdr.Valid() && WellFormed(disk.sectors, openFile.hdr.Value(), f)
    requires transferSize > 0 && 0 <= openFile.seekPosition <= openFile.hdr.limit
    modifies openFile`seekPosition, disk.cache
    ensures disk.Valid() && printed == FileBytes(disk.sectors, openFile.hdr.Value())[old(openFile.seekPosition)..]
    ensures openFile.seekPosition == openFile.hdr.limit
  {
    hide WellFormed, FileBytes;
    ghost var bytes, start := FileBytes(disk.sectors, openFile.hdr.Value()), openFile.seekPosition;
    var buffer := new byte[transferSize];
    printed := [];
    var amountRead: nat := openFile.Read(disk, buffer, transferSize, f);
    while amountRead > 0
      invariant disk.Valid() && start <= openFile.seekPosition <= openFile.hdr.limit == |bytes| && amountRead <= transferSize
      invariant openFile.seekPosition - amountRead >= start && printed == bytes[start..openFile.seekPosition - amountRead]
      invariant amountRead > 0 ==> buffer[..amountRead] == bytes[openFile.seekPosition - amountRead..openFile.seekPosition]
      invariant amountRead == 0 ==> openFile.seekPosition == openFile.hdr.limit
      decreases openFile.hdr.limit - openFile.seekPosition, amountRead
    {
      printed := printed + buffer[..amountRead];
      amountRead := openFile.Read(disk, buffer, transferSize, f);
    }
  }
}
