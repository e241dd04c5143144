/** code/filesys/directory.cc: a directory in memory, its exchange with the file that stores it, and the walk along a path. */
module Directories {
  import opened Words
  import opened Paths
  import opened DirTables
  import opened SynchDisks
  import opened FileHeaders
  import opened FileContents
  import opened OpenFiles

  const DIR_BYTES := 4 + TABLE_SIZE

  /** What a directory's file contains: the directory's own header sector, then the table. */
  function DirImage(sector: word, t: Table): (s: seq<byte>)
    ensures |s| == DIR_BYTES
  {
    ToBytes([sector]) + t
  }

  function OwnSector(bytes: seq<byte>): word
    requires |bytes| == DIR_BYTES
  {
    ToWords(bytes[..4])[0]
  }

  function TableOf(bytes: seq<byte>): Table
    requires |bytes| == DIR_BYTES
  {
    bytes[4..]
  }

  /** The directory's own sector comes first, in four bytes, and the table behind it. */
  lemma DirLayout(sector: word, t: Table)
    ensures var s := DirImage(sector, t);
            s[4..] == t && s[0] as int + s[1] as int * 0x100 + s[2] as int * 0x1_0000 + s[3] as int * 0x100_0000 == sector
  {
    WordsLieInOrder([sector], 0);
  }

  /** Fetching what was written back yields the same directory. */
  lemma FetchAfterWriteBack(sector: word, t: Table)
    ensures OwnSector(DirImage(sector, t)) == sector && TableOf(DirImage(sector, t)) == t
  {
    ToWordsToBytes([sector]);
    assert DirImage(sector, t)[..4] == ToBytes([sector]);
    assert DirImage(sector, t)[4..] == t;
  }

  class Directory {
    var sector: word
    const table: array<byte>

    ghost predicate Valid()
      reads this
    {
      table.Length == TABLE_SIZE
    }

    function T(): Table
      requires Valid()
      reads this, table
    {
      table[..]
    }

    /** An empty directory; what the unused entries hold besides is whatever was in memory. */
    constructor (sector: word, garbage: Table)
      ensures Valid() && fresh(table) && this.sector == sector
      ensures forall i | 0 <= i < NUM_DIR_ENTRIES :: !InUse(T(), i)
    {
      this.sector := sector;
      table := new byte[TABLE_SIZE](i requires 0 <= i < TABLE_SIZE => garbage[i]);
      new;
      for i := 0 to NUM_DIR_ENTRIES
        modifies table
        invariant forall j | 0 <= j < i :: table[ENTRY_SIZE * j] == 0
      {
        table[ENTRY_SIZE * i] := 0;
      }
    }

    method FetchFrom(disk: SynchDisk, file: OpenFile, ghost f: int)
      requires Valid() && disk.Valid() && file.hdr.Valid() && WellFormed(disk.sectors, file.hdr.Value(), f)
      requires file.hdr.limit == DIR_BYTES
      modifies this, table, disk.cache
      ensures disk.Valid() && Valid()
      ensures sector == OwnSector(FileBytes(disk.sectors, file.hdr.Value())) && T() == TableOf(FileBytes(disk.sectors, file.hdr.Value()))
    {
      hide WellFormed;
      ghost var bytes := FileBytes(disk.sectors, file.hdr.Value());
      var first := new byte[4];
      var n := file.ReadAt(disk, first, 0, 4, 0, f);
      assert first[..] == first[0..0 + n] == bytes[..4];
      sector := ToWords(first[..])[0];
      n := file.ReadAt(disk, table, 0, TABLE_SIZE, 4, f);
      assert table[..] == table[0..0 + n] == bytes[4..];
    }

    method WriteBack(disk: SynchDisk, file: OpenFile, ghost f: int)
      requires Valid() && disk.Valid() && file.hdr.Valid() && WellFormed(disk.sectors, file.hdr.Value(), f)
      requires file.hdr.selfSector == f && file.hdr.capacity >= DIR_BYTES
      modifies disk, disk.cache, file.hdr
      ensures disk.Valid() && file.hdr.Valid()
      ensures Stored(old(disk.sectors), old(file.hdr.Value()), disk.sectors, file.hdr.Value(), f, 0, DirImage(sector, T()))
    {
      hide WellFormed, Stored, FileBytes;
      ghost var d, h := disk.sectors, file.hdr.Value();
      var first := ToBytes([sector]);
      var r := file.WriteAt(disk, first, 4, 0, f, map[]);
      assert first[..4] == first;
      ghost var d1, h1 := disk.sectors, file.hdr.Value();
      StoredKeepsShape(d, h, d1, h1, f, 0, first);
      r := file.WriteAt(disk, table[..], TABLE_SIZE, 4, f, map[]);
      assert table[..][..TABLE_SIZE] == table[..];
      ConsecutiveWrites(d, h, d1, h1, disk.sectors, file.hdr.Value(), f, 0, first, table[..]);
    }

    /** The name is what `strncmp` sees of the buffer. */
    method FindIndex(name: text) returns (index: int)
      requires Valid() && |name| <= FILE_NAME_MAX_LEN
      ensures index == IndexOf(T(), name)
    {
      for i := 0 to NUM_DIR_ENTRIES
        invariant IndexOf(T(), name) == IndexOf(T(), name, i)
      {
        if table[ENTRY_SIZE * i] != 0 && NameOf(table[..], i) == name {
          return i;
        }
      }
      return -1;
    }

    method DirLookup(name: text) returns (found: int)
      requires Valid() && |name| <= FILE_NAME_MAX_LEN
      ensures found == Lookup(T(), name)
    {
      var k := FindIndex(name);
      if k != -1 {
        return SectorOf(table[..], k);
      }
      return -1;
    }

    method AddInCurrentDir(name: text, newSector: word) returns (ok: bool)
      requires Valid() && |name| <= FILE_NAME_MAX_LEN
      modifies table
      ensures (ok, T()) == Added(old(T()), name, newSector)
    {
      var k := FindIndex(name);
      if k != -1 {
        return false;
      }
      for i := 0 to NUM_DIR_ENTRIES
        invariant T() == old(T()) && FirstUnused(T()) == FirstUnused(T(), i)
      {
        if table[ENTRY_SIZE * i] == 0 {
          Enter(i, name, newSector);
          return true;
        }
      }
      return false;
    }

    /** The three assignments to the fields of a free entry. */
    method Enter(i: nat, name: text, newSector: word)
      requires Valid() && i < NUM_DIR_ENTRIES && |name| <= FILE_NAME_MAX_LEN
      modifies table
      ensures T() == Entered(old(T()), i, name, newSector)
    {
      table[ENTRY_SIZE * i] := 1;
      var padded := Padded(name);
      forall k | 0 <= k < FILE_NAME_MAX_LEN {
        table[ENTRY_SIZE * i + NAME_OFFSET + k] := padded[k];
      }
      var a := ENTRY_SIZE * i + SECTOR_OFFSET;
      table[a], table[a + 1], table[a + 2], table[a + 3] :=
        ByteOf(newSector, 0), ByteOf(newSector, 1), ByteOf(newSector, 2), ByteOf(newSector, 3);
    }

    method RemoveInCurrentDir(name: text) returns (ok: bool)
      requires Valid() && |name| <= FILE_NAME_MAX_LEN
      modifies table
      ensures (ok, T()) == Removed(old(T()), name)
    {
      var index := FindIndex(name);
      if index == -1 {
        return false;
      }
      table[ENTRY_SIZE * index] := 0;
      assert table[..] == Dropped(old(table[..]), index);
      return true;
    }
  }

  lemma StoredKeepsShape(d: Disk, h: Header, d': Disk, h': Header, f: int, position: nat, from: seq<byte>)
    requires WellFormed(d, h, f) && position <= h.limit && Stored(d, h, d', h', f, position, from)
    ensures WellFormed(d', h', f) && h'.selfSector == h.selfSector && h'.capacity == h.capacity && h'.limit == position + |from|
  {
  }
}
