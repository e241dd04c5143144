/** code/filesys/filesys.cc: the operations of the file system. */
module FileSystems {
  import opened Words
  import opened Bitmaps
  import opened SynchDisks
  import opened FileHeaders
  import opened FileContents
  import opened Volumes
  import opened OpenFiles
  import opened Paths
  import opened DirTables
  import opened Directories
  import opened FileTrees
  import opened PathWalks
  import opened Creations
  import opened Removals
  import opened Formats
  import opened FileRuns

  /** A write that needs more blocks than there are to be had. */
  ghost predicate Unwritable(d: Disk, hs: map<int, Header>, f: int, numBytes: int, position: int) {
    && FREE_MAP_SECTOR in hs && f in hs && Requested(hs[f].limit, numBytes, position) && position + numBytes > hs[f].capacity
    && CannotGrow(hs[f], FreeMap(d, hs[FREE_MAP_SECTOR]), position + numBytes - hs[f].capacity)
  }

  /** How many bytes a file lacks for a write. */
  function MoreRoom(h: Header, position: int, numBytes: int): nat {
    if position + numBytes > h.capacity then position + numBytes - h.capacity else 0
  }

  /** The file system has gone on by one write. */
  ghost predicate WroteTo(d: Disk, hs: map<int, Header>, f: int, position: int, from: seq<byte>, d': Disk, hs': map<int, Header>) {
    f in hs && position >= 0 && Does(State(d, hs), Writing(f, position, from, MoreRoom(hs[f], position, |from|)), State(d', hs'))
  }

  lemma OpenIsNoMap(d: Disk, hs: map<int, Header>, path: text)
    requires Tree(d, hs) && DIRECTORY_SECTOR in TablesOf(d, hs) && Walk(TablesOf(d, hs), DIRECTORY_SECTOR, path, false).At?
    ensures Walk(TablesOf(d, hs), DIRECTORY_SECTOR, path, false).sector != FREE_MAP_SECTOR
  {
    hide Tree, TablesOf, Lookup, Elements, Parse;
    ParentLookupFacts(d, hs, path);
  }

  class FileSystem {
    const disk: SynchDisk
    const freeMapFile: OpenFile
    const directoryFile: OpenFile
    ghost var hs: map<int, Header>

    ghost predicate Valid()
      reads this, disk, disk.cache, freeMapFile.hdr, directoryFile.hdr
    {
      && disk.Valid() && freeMapFile.hdr.Valid() && directoryFile.hdr.Valid() && freeMapFile.hdr != directoryFile.hdr
      && Tree(disk.sectors, hs)
      && FREE_MAP_SECTOR in hs && freeMapFile.hdr.Value() == hs[FREE_MAP_SECTOR]
      && DIRECTORY_SECTOR in TablesOf(disk.sectors, hs) && directoryFile.hdr.Value() == hs[DIRECTORY_SECTOR]
    }

    ghost function Dirs(): map<int, Table>
      reads this, disk
    {
      TablesOf(disk.sectors, hs)
    }

    /** `FileSystem(FALSE)`: opens the two files of a disk that holds a file system. */
    constructor Mount(onDisk: SynchDisk, ghost files: map<int, Header>)
      requires onDisk.Valid() && Tree(onDisk.sectors, files)
      modifies onDisk.cache
      ensures Valid() && disk == onDisk && hs == files && fresh(freeMapFile.hdr) && fresh(directoryFile.hdr)
    {
      hide Tree, TablesOf, Parse;
      FreeMapIsNoDir(onDisk.sectors, files);
      DirFacts(onDisk.sectors, files, DIRECTORY_SECTOR);
      TreeVolume(onDisk.sectors, files);
      MapHeaderOf(onDisk.sectors, files);
      disk := onDisk;
      hs := files;
      freeMapFile := new OpenFile(onDisk, FREE_MAP_SECTOR);
      directoryFile := new OpenFile(onDisk, DIRECTORY_SECTOR);
    }

    /** `FileSystem(TRUE)`: formats the disk, whatever it held. */
    constructor Format(onDisk: SynchDisk)
      requires onDisk.Valid()
      modifies onDisk, onDisk.cache
      ensures Valid() && disk == onDisk && fresh(freeMapFile.hdr) && fresh(directoryFile.hdr)
      ensures Formatted(disk.sectors, hs)
      ensures hs.Keys == {0, 1, 2} && hs[2].capacity == 1024 && hs[2].limit == 0
      ensures CountClear(FreeMap(disk.sectors, hs[0])) == 1010 && forall name :: Lookup(Dirs()[DIRECTORY_SECTOR], name) == -1
    {
      hide Tree, TablesOf, WellFormed, Fresh, Formatted, Volume, Owned, BitsOf, Stored, DirImage, InUse, Image, Parse, FreeMap, Lookup, CountClear;
      var freeMap; ghost var reserved;
      freeMap, reserved := WriteHeaders(onDisk);
      var mapFile, dirFile; ghost var files;
      mapFile, dirFile, files := WriteContents(onDisk, freeMap, reserved);
      FormattedFacts(onDisk.sectors, files);
      disk := onDisk;
      hs := files;
      freeMapFile := mapFile;
      directoryFile := dirFile;
    }

    /** The root directory, fetched into memory. */
    method FetchRoot() returns (directory: Directory)
      requires Valid()
      modifies disk.cache
      ensures Valid() && fresh(directory) && fresh(directory.table) && directory.Valid()
      ensures directory.sector == DIRECTORY_SECTOR && directory.T() == Dirs()[DIRECTORY_SECTOR]
    {
      hide Tree, WellFormed, FileBytes, TableOf, OwnSector, TablesOf;
      DirFacts(disk.sectors, hs, DIRECTORY_SECTOR);
      var junk: Table := *;
      directory := new Directory(0, junk);
      directory.FetchFrom(disk, directoryFile, DIRECTORY_SECTOR);
    }

    /** The free map, fetched into memory. */
    method FetchMap() returns (freeMap: PersistentBitmap)
      requires Valid()
      modifies disk.cache
      ensures Valid() && fresh(freeMap.bitmap) && fresh(freeMap.bitmap.words) && freeMap.bitmap.Valid()
      ensures freeMap.bitmap.numBits == NUM_SECTORS
      ensures freeMap.bitmap.Contents() == FreeMap(disk.sectors, hs[FREE_MAP_SECTOR])
    {
      hide Tree, WellFormed, FileBytes, TableOf, OwnSector, TablesOf, FreeMap, BitsOf;
      TreeVolume(disk.sectors, hs);
      VolumeFacts(disk.sectors, hs, FREE_MAP_SECTOR);
      freeMap := new PersistentBitmap(NUM_SECTORS);
      freeMap.FetchFrom(disk, freeMapFile);
    }

    /** `Open`, up to making the `OpenFile`: the sector of the file's header. */
    method Find(path: text) returns (r: Walked)
      requires Valid() && IsPath(path)
      modifies disk.cache
      ensures Valid() && r == Walk(Dirs(), DIRECTORY_SECTOR, path, false)
    {
      hide Tree, Walk, TablesOf;
      var directory := FetchRoot();
      var name := new byte[FILE_NAME_MAX_LEN];
      r := Namex(disk, directory, path, false, name, DIRECTORY_SECTOR, hs);
    }

    /** `Open`: a handle on the file that the path leads to. */
    method Open(path: text) returns (r: Walked, file: OpenFile?)
      requires Valid() && IsPath(path)
      modifies disk.cache
      ensures Valid() && r == Walk(Dirs(), DIRECTORY_SECTOR, path, false)
      ensures file != null <==> r.At?
      ensures file != null ==> fresh(file) && fresh(file.hdr)
      ensures r.At? ==> file.hdr.Valid() && r.sector in hs && file.hdr.Value() == hs[r.sector] && file.seekPosition == 0
    {
      hide Tree, TablesOf, Lookup, Elements;
      r := Find(path);
      file := null;
      if r.At? {
        ParentLookupFacts(disk.sectors, hs, path);
        file := new OpenFile(disk, r.sector);
      }
    }

    /**
     * `Create`. A path without elements is a null dereference. A directory that finds too little room is entered in
     * its parent all the same, and its header written without blocks; the method stops there (`HeaderLost`).
     */
    method Create(path: text, isDir: bool) returns (r: Creation)
      requires Valid() && IsPath(path)
      modifies this, disk, disk.cache, freeMapFile.hdr
      ensures r.NullDereference? <==> Elements(path) == []
      ensures Elements(path) != [] ==>
                var creatable, room := old(Creatable(disk.sectors, hs, path)), CountClear(old(FreeMap(disk.sectors, hs[FREE_MAP_SECTOR])));
                && (r.NotCreated? <==> !creatable)
                && (r.HeaderLost? <==> creatable && isDir && room < 3)
      ensures r.NullDereference? || r.NotCreated? ==> Valid() && disk.sectors == old(disk.sectors) && hs == old(hs)
      ensures r.Created? ==>
                && Valid() && CreatedIn(old(disk.sectors), old(hs), path, isDir, r.sector, disk.sectors, hs)
                && CountClear(FreeMap(disk.sectors, hs[FREE_MAP_SECTOR])) ==
                   CountClear(old(FreeMap(disk.sectors, hs[FREE_MAP_SECTOR]))) - (if isDir then 3 else 1)
      ensures r.Created? ==>
                && r.sector as int !in old(hs) && hs.Keys == old(hs).Keys + {r.sector as int}
                && hs[r.sector].ftype == (if isDir then 1 else 0) && hs[r.sector].nsectors == if isDir then 2 else 0
      ensures r.HeaderLost? ==> LostHeader(old(disk.sectors), old(hs), disk.sectors, path)
    {
      hide Tree, WellFormed, FileBytes, TableOf, OwnSector, TablesOf, FreeMap, Elements, Lookup, Volume, Creatable, CreatedIn, LostHeader,
           Parse, Image, EntryWritten, Accounted, Owned;
      ghost var d, bits := disk.sectors, FreeMap(disk.sectors, hs[FREE_MAP_SECTOR]);
      var directory := FetchRoot();
      var name := new byte[FILE_NAME_MAX_LEN];
      var found := Namex(disk, directory, path, false, name, DIRECTORY_SECTOR, hs);
      if found == NullPath {
        return NullDereference;
      }
      if found != NotFound {
        NotCreatable(d, hs, path);
        return NotCreated;
      }
      var freeMap := FetchMap();
      var sector := freeMap.bitmap.FindAndSet();
      FindFailsIffFull(bits);
      if sector == -1 {
        NotCreatable(d, hs, path);
        return NotCreated;
      }
      TreeVolume(d, hs);
      ClearIsNew(d, hs, sector);
      var ok := AddPath(disk, directory, path, sector, hs);
      CreatableIff(d, hs, path, sector);
      if !ok {
        return NotCreated;
      }
      ghost var files := hs;
      if isDir {
        r := MakeDir(path, sector, freeMap, d);
      } else {
        MakeFile(path, sector, freeMap, d);
        r := Created(sector);
      }
      if r.Created? {
        CreatedShape(d, files, path, isDir, r.sector, disk.sectors, hs);
      }
    }

    /** What a program does to a plain file that it has open, `f` being where the file's header is. */
    method WriteOpen(file: OpenFile, data: seq<byte>, numBytes: int, position: int, ghost f: int) returns (r: WriteResult)
      requires Valid() && file.hdr.Valid() && file.hdr != freeMapFile.hdr && file.hdr != directoryFile.hdr && numBytes <= |data|
      requires f in hs && f != FREE_MAP_SECTOR && !IsDir(hs[f]) && file.hdr.Value() == hs[f]
      modifies this`hs, disk, disk.cache, file.hdr
      ensures file.hdr.Valid()
      ensures !Requested(old(hs)[f].limit, numBytes, position) ==>
                r == Wrote(0) && Valid() && disk.sectors == old(disk.sectors) && hs == old(hs)
      ensures r.Crashed? <==> old(Unwritable(disk.sectors, hs, f, numBytes, position))
      ensures Requested(old(hs)[f].limit, numBytes, position) && r.Wrote? ==>
                && r == Wrote(numBytes) && Valid() && hs == old(hs)[f := file.hdr.Value()]
                && WroteTo(old(disk.sectors), old(hs), f, position, data[..numBytes], disk.sectors, hs)
    {
      hide Tree, TablesOf, WellFormed, FileBytes, Volume, Stored, GrownStored, CannotGrow, Parse, FreeMap;
      ghost var d, hs0 := disk.sectors, hs;
      TreeVolume(d, hs);
      FreeMapIsNoDir(d, hs);
      HeaderInVolume(d, hs, f);
      r := file.WriteAt(disk, data, numBytes, position, f, hs);
      if Requested(hs0[f].limit, numBytes, position) && r.Wrote? {
        ghost var h := file.hdr.Value();
        TreeAfterWrite(d, hs, f, position, data[..numBytes], disk.sectors, h, MoreRoom(hs[f], position, numBytes));
        hs := hs[f := h];
      }
    }

    /** `Open` and then `WriteAt`, by a program that leaves directories alone. */
    method OpenAndWrite(path: text, data: seq<byte>, position: int) returns (r: Walked, w: WriteResult)
      requires Valid() && IsPath(path)
      modifies this`hs, disk, disk.cache
      ensures r == Walk(old(Dirs()), DIRECTORY_SECTOR, path, false)
      ensures w.Crashed? <==> r.At? && r.sector in old(hs) && !IsDir(old(hs)[r.sector]) &&
                              old(Unwritable(disk.sectors, hs, r.sector, |data|, position))
      ensures w.Wrote? ==>
                && Valid()
                && w.n == if r.At? && r.sector in old(hs) && !IsDir(old(hs)[r.sector]) &&
                             Requested(old(hs)[r.sector].limit, |data|, position) then |data| else 0
      ensures w.Wrote? && w.n == 0 ==> disk.sectors == old(disk.sectors) && hs == old(hs)
      ensures w.Wrote? && w.n > 0 ==>
                r.At? && WroteTo(old(disk.sectors), old(hs), r.sector, position, data, disk.sectors, hs)
    {
      hide Tree, TablesOf, Walk, WroteTo, Lookup, Elements, FreeMap;
      var file;
      r, file := Open(path);
      w := Wrote(0);
      if file != null && file.hdr.ftype != TYPE_DIR {
        assert FREE_MAP_SECTOR != r.sector by { OpenIsNoMap(disk.sectors, hs, path); }
        w := WriteOpen(file, data, |data|, position, r.sector);
        assert data[..|data|] == data;
      }
    }

    /** `WritePipe`: the pipe's contents are replaced by the first `length` bytes. */
    method WritePipe(data: seq<byte>, length: int) returns (r: WriteResult)
      requires Valid() && length <= |data|
      modifies this, disk, disk.cache
      ensures PIPE_SECTOR in old(hs)
      ensures length <= 0 ==> r == Wrote(0) && Valid() && disk.sectors == old(disk.sectors) && hs == old(hs)
      ensures 0 < length <= old(hs)[PIPE_SECTOR].capacity ==> r == Wrote(length)
      ensures length > 0 && r.Wrote? ==>
                && Valid() && PIPE_SECTOR in hs && hs == old(hs)[PIPE_SECTOR := hs[PIPE_SECTOR]] && Dirs() == old(Dirs())
                && FileBytes(disk.sectors, hs[PIPE_SECTOR]) == data[..length]
                && forall g | g in hs && g != PIPE_SECTOR && g != FREE_MAP_SECTOR ::
                     FileBytes(disk.sectors, hs[g]) == FileBytes(old(disk.sectors), hs[g])
    {
      hide Tree, TablesOf, WellFormed, FileBytes, Volume, Stored, GrownStored, CannotGrow, Parse;
      ghost var d := disk.sectors;
      FreeMapIsNoDir(d, hs);
      TreeVolume(d, hs);
      HeaderInVolume(d, hs, PIPE_SECTOR);
      var pipefile := new OpenFile(disk, PIPE_SECTOR);
      ghost var capacity := hs[PIPE_SECTOR].capacity;
      r := pipefile.WriteAt(disk, data, length, 0, PIPE_SECTOR, hs);
      if length > 0 && r.Wrote? {
        ghost var h := pipefile.hdr.Value();
        TreeAfterWrite(d, hs, PIPE_SECTOR, 0, data[..length], disk.sectors, h, if length > capacity then length - capacity else 0);
        assert FileBytes(d, hs[PIPE_SECTOR])[..0] + data[..length] == data[..length];
        hs := hs[PIPE_SECTOR := h];
      }
    }

    /** `ReadPipe`: everything that is in the pipe; nothing keeps it from running over the end of the caller's buffer. */
    method ReadPipe(into: array<byte>) returns (n: nat, overrun: bool)
      requires Valid()
      modifies into, disk.cache
      ensures Valid() && PIPE_SECTOR in hs && n == hs[PIPE_SECTOR].limit && (overrun <==> n > into.Length)
      ensures if overrun then into[..] == old(into[..]) else into[..n] == FileBytes(disk.sectors, hs[PIPE_SECTOR])
    {
      hide Tree, TablesOf, WellFormed, FileBytes, Volume, Parse;
      TreeVolume(disk.sectors, hs);
      FreeMapIsNoDir(disk.sectors, hs);
      HeaderInVolume(disk.sectors, hs, PIPE_SECTOR);
      var pipehdr := new FileHeader.Fetch(disk, PIPE_SECTOR);
      var pipefile := new OpenFile(disk, PIPE_SECTOR);
      n, overrun := pipehdr.limit, pipehdr.limit > into.Length;
      if !overrun {
        n := pipefile.ReadAt(disk, into, 0, pipehdr.limit, 0, PIPE_SECTOR);
        ghost var bytes := FileBytes(disk.sectors, hs[PIPE_SECTOR]);
        assert bytes[0..0 + |bytes|] == bytes;
        assert into[..n] == into[0..0 + n];
      }
    }

    /** The free map in memory, without the blocks and the header sector of a file. */
    method GiveBack(sector: nat) returns (freeMap: PersistentBitmap)
      requires Valid() && sector in hs && sector < NUM_SECTORS && HdrAt(disk.sectors, sector) == hs[sector]
      requires WellFormed(disk.sectors, hs[sector], sector)
      modifies disk.cache
      ensures Valid() && fresh(freeMap.bitmap) && fresh(freeMap.bitmap.words) && freeMap.bitmap.Valid()
      ensures freeMap.bitmap.numBits == NUM_SECTORS
      ensures GivenBack(disk.sectors, hs[sector], sector, FreeMap(disk.sectors, hs[FREE_MAP_SECTOR]), freeMap.bitmap.Contents())
    {
      hide Tree, WellFormed, FileBytes, TablesOf, FreeMap, Freed, Parse, BitsOf;
      var fileHdr := new FileHeader.Fetch(disk, sector);
      freeMap := FetchMap();
      fileHdr.Deallocate(freeMap.bitmap, disk, sector);
      freeMap.bitmap.Clear(sector);
    }

    /** `Remove`: gives the blocks and the header back, and takes the name out of its directory. */
    method Remove(path: text) returns (r: Walked)
      requires Valid() && IsPath(path)
      modifies this, disk, disk.cache, freeMapFile.hdr
      ensures r == Walk(old(Dirs()), DIRECTORY_SECTOR, path, false)
      ensures !r.At? ==> Valid() && disk.sectors == old(disk.sectors) && hs == old(hs)
      ensures r.At? ==> r.sector in old(hs)
      ensures r.At? && !PartFilledIndirect(old(hs)[r.sector]) ==>
                Valid() && RemovedFrom(old(disk.sectors), old(hs), path, r.sector, disk.sectors, hs)
      ensures r.At? && PartFilledIndirect(old(hs)[r.sector]) ==> forall files :: !Volume(disk.sectors, files)
    {
      hide Tree, WellFormed, FileBytes, TableOf, OwnSector, TablesOf, FreeMap, Elements, Lookup, Volume, Walk, Freed,
           Parse, Image, Owned, Stored, DirImage, RemovedFrom, Removed, GivenBack, BitsOf;
      ghost var d, bits, dirs := disk.sectors, FreeMap(disk.sectors, hs[FREE_MAP_SECTOR]), Dirs();
      r := Find(path);
      if !r.At? {
        return;
      }
      RemovalStarts(d, hs, path);
      var sector := r.sector;
      var freeMap := GiveBack(sector);
      ghost var h, bits' := hs[sector], freeMap.bitmap.Contents();
      var directory := FetchRoot();
      var _, hp' := RemovePath(disk, directory, path, hs);
      ghost var d1, p, name := disk.sectors, ParentOf(dirs, path), Last(Elements(path));
      DirWritten(d, hs, p, d1, hp', Removed(dirs[p], name).1);
      FreeMapFacts(d1, hs, FREE_MAP_SECTOR);
      ghost var bytes := freeMap.WriteBack(disk, freeMapFile);
      if PartFilledIndirect(h) {
        MapLost(d, hs, h, sector, bits, bits', d1, disk.sectors, freeMapFile.hdr.Value(), bytes);
      } else {
        RemovalDone(d, hs, path, sector, bits', d1, hp', disk.sectors, freeMapFile.hdr.Value(), bytes);
        RemovalKeeps(d, hs, path, sector, disk.sectors, hs - {sector});
      }
      hs := hs - {sector};
    }

    /** The state of `Create` once the new name is in its directory; `d` is the disk before. */
    ghost predicate Entering(path: text, x: word, freeMap: PersistentBitmap, d: Disk)
      reads this, disk, disk.cache, freeMapFile.hdr, directoryFile.hdr, freeMap.bitmap.words
    {
      && disk.Valid() && freeMapFile.hdr.Valid() && directoryFile.hdr.Valid() && freeMapFile.hdr != directoryFile.hdr
      && FREE_MAP_SECTOR in hs && freeMapFile.hdr.Value() == hs[FREE_MAP_SECTOR]
      && DIRECTORY_SECTOR in TablesOf(d, hs) && directoryFile.hdr.Value() == hs[DIRECTORY_SECTOR]
      && Tree(d, hs) && Elements(path) != [] && EntryWritten(d, hs, ParentOf(TablesOf(d, hs), path), Last(Elements(path)), x, disk.sectors)
      && var bits := FreeMap(d, hs[FREE_MAP_SECTOR]);
      && FreeMap(disk.sectors, hs[FREE_MAP_SECTOR]) == bits && FirstClear(bits) == x as int
      && freeMap.bitmap.Valid() && freeMap.bitmap.numBits == NUM_SECTORS && freeMap.bitmap.Contents() == bits[x := true]
    }

    method MakeFile(path: text, x: word, freeMap: PersistentBitmap, ghost d: Disk)
      requires Entering(path, x, freeMap, d)
      modifies this, disk, disk.cache, freeMapFile.hdr
      ensures Valid() && CreatedIn(d, old(hs), path, false, x, disk.sectors, hs)
      ensures CountClear(FreeMap(disk.sectors, hs[FREE_MAP_SECTOR])) == CountClear(FreeMap(d, old(hs)[FREE_MAP_SECTOR])) - 1
    {
      hide Tree, WellFormed, FileBytes, TableOf, OwnSector, TablesOf, FreeMap, Elements, Lookup, Volume, CreatedIn,
           Parse, Image, EntryWritten, Accounted, Owned, NewAccounts, InFile, TableIn, InUse, Added, NameAdded;
      ghost var d1, hs0 := disk.sectors, hs;
      var now: word, junk: word := *, *;
      var hdr := new FileHeader(x, TYPE_FILE, now, junk);
      ghost var h := hdr.Value();
      hdr.WriteBack(disk, x);
      EntryAccounts(d, hs, path, x, d1, h);
      EmptyFileAccounts(d1, hs, x, h);
      CountClearAfterMark(FreeMap(d1, hs[FREE_MAP_SECTOR]), x);
      ghost var d2, bits := disk.sectors, freeMap.bitmap.Contents();
      StoreMap(freeMap, d1, x, h);
      CreationDone(d, hs0, path, false, x, d1, h, bits, d2, disk.sectors);
      CreationKeeps(d, hs0, path, false, x, disk.sectors, hs);
    }

    /** The header of a new directory with its two blocks, if there is room; on disk in either case. */
    method MakeDirHeader(path: text, x: word, freeMap: PersistentBitmap, ghost d: Disk) returns (success: bool, ghost h: Header)
      requires Entering(path, x, freeMap, d)
      modifies disk, disk.cache, freeMap.bitmap.words
      ensures disk.Valid() && freeMap.bitmap.Valid() && x < NUM_SECTORS && x as int !in hs
      ensures success <==> CountClear(FreeMap(d, hs[FREE_MAP_SECTOR])) >= 3
      ensures !success ==> LostHeader(d, hs, disk.sectors, path)
      ensures success ==>
                && Volume(old(disk.sectors), hs)
                && Accounted(old(disk.sectors), hs, x, h, freeMap.bitmap.Contents(), disk.sectors) && WellFormed(disk.sectors, h, x)
                && h.capacity >= DIR_BYTES && h.selfSector == x && h.nsectors == 2 && IsDir(h)
                && NewAccounts(old(disk.sectors), hs, x, h, freeMap.bitmap.Contents(), disk.sectors)
                && CountClear(freeMap.bitmap.Contents()) == CountClear(FreeMap(d, hs[FREE_MAP_SECTOR])) - 3
    {
      hide Tree, WellFormed, FileBytes, TablesOf, FreeMap, Elements, Lookup, Volume, LostHeader,
           Parse, Image, EntryWritten, Accounted, Owned, Grown, SlotsMarked, BitsOf, NewAccounts;
      ghost var d1, bits := disk.sectors, freeMap.bitmap.Contents();
      var now: word, junk: word := *, *;
      var hdr := new FileHeader(x, TYPE_DIR, now, junk);
      ghost var h0 := hdr.Value();
      NewDirFacts(d, hs, path, x, d1, h0);
      var a := hdr.Allocate(freeMap.bitmap, disk, TABLE_SIZE, x);
      ghost var d2, bits2 := disk.sectors, freeMap.bitmap.Contents();
      h := hdr.Value();
      hdr.WriteBack(disk, x);
      success := a == Allocated;
      if success {
        DirAccounted(d1, hs, FreeMap(d1, hs[FREE_MAP_SECTOR]), x, h0, d2, h, bits2, 2);
        NewDirRoom(d1, h0, bits, d2, h, bits2, x);
        NewDirAccounts(d1, hs, x, h0, d2, h, bits2);
      } else {
        HeaderIsLost(d, hs, path, x, d1, h0);
      }
    }

    /** The branch for directories: two blocks, an empty table in them. */
    method MakeDir(path: text, x: word, freeMap: PersistentBitmap, ghost d: Disk) returns (r: Creation)
      requires Entering(path, x, freeMap, d)
      modifies this, disk, disk.cache, freeMapFile.hdr, freeMap.bitmap.words
      ensures r == if CountClear(FreeMap(d, old(hs)[FREE_MAP_SECTOR])) < 3 then HeaderLost else Created(x)
      ensures r.Created? ==>
                && Valid() && CreatedIn(d, old(hs), path, true, x, disk.sectors, hs)
                && CountClear(FreeMap(disk.sectors, hs[FREE_MAP_SECTOR])) == CountClear(FreeMap(d, old(hs)[FREE_MAP_SECTOR])) - 3
      ensures r.HeaderLost? ==> LostHeader(d, old(hs), disk.sectors, path)
    {
      hide Tree, WellFormed, FileBytes, TablesOf, FreeMap, Elements, Lookup, Volume, CreatedIn, LostHeader,
           Parse, Image, EntryWritten, Accounted, Owned, Stored, DirImage, InUse, BitsOf, NewAccounts, NewContents, InFile;
      ghost var d1, hs0 := disk.sectors, hs;
      ghost var h;
      var success;
      success, h := MakeDirHeader(path, x, freeMap, d);
      if !success {
        return HeaderLost;
      }
      ghost var d3, bits := disk.sectors, freeMap.bitmap.Contents();
      assert HdrAt(d3, x) == h by { AccountedHeader(d1, hs, x, h, bits, d3); }
      var garbage: Table := *;
      var newDir := new Directory(x, garbage);
      var newFile := new OpenFile(disk, x);
      newDir.WriteBack(disk, newFile, x);
      ghost var d4, h4 := disk.sectors, newFile.hdr.Value();
      DirFilled(d1, hs0, x, h, bits, d3, d4, h4, DirImage(x, newDir.T()));
      FilledAccounts(d1, hs0, x, h, bits, d3, d4, h4, DirImage(x, newDir.T()));
      assert h4.nsectors == 2 by { StoredShape(d3, h, d4, h4, x, 0, DirImage(x, newDir.T())); }
      StoreMap(freeMap, d1, x, h4);
      NewDirContents(disk.sectors, h4, x, newDir.T());
      CreationDone(d, hs0, path, true, x, d1, h4, bits, d4, disk.sectors);
      CreationKeeps(d, hs0, path, true, x, disk.sectors, hs);
      r := Created(x);
    }

    /** Stores the free map, which completes a creation. */
    method StoreMap(freeMap: PersistentBitmap, ghost d1: Disk, ghost x: word, ghost h: Header)
      requires disk.Valid() && freeMapFile.hdr.Valid() && directoryFile.hdr.Valid() && freeMapFile.hdr != directoryFile.hdr
      requires FREE_MAP_SECTOR in hs && freeMapFile.hdr.Value() == hs[FREE_MAP_SECTOR]
      requires freeMap.bitmap.Valid() && freeMap.bitmap.numBits == NUM_SECTORS
      requires Volume(d1, hs) && x as int !in hs && Accounted(d1, hs, x, h, freeMap.bitmap.Contents(), disk.sectors)
      modifies this`hs, disk, disk.cache, freeMapFile.hdr
      ensures disk.Valid() && freeMapFile.hdr.Valid() && freeMapFile.hdr.Value() == old(freeMapFile.hdr.Value())
      ensures hs == old(hs)[x as int := h] && Volume(disk.sectors, hs) && OthersKept(d1, disk.sectors, old(hs))
      ensures FreeMap(disk.sectors, hs[FREE_MAP_SECTOR]) == freeMap.bitmap.Contents()
      ensures FileBytes(disk.sectors, h) == FileBytes(old(disk.sectors), h)
      ensures forall s | 0 <= s < NUM_SECTORS && disk.sectors[s] != old(disk.sectors)[s] ::
                InFile(d1, old(hs)[FREE_MAP_SECTOR], FREE_MAP_SECTOR, s)
    {
      hide Tree, WellFormed, FileBytes, FreeMap, Volume, Parse, Image, Accounted, Owned, Stored, BitsOf, InFile;
      ghost var d2 := disk.sectors;
      VolumeFacts(d1, hs, FREE_MAP_SECTOR);
      FreeMapFacts(d1, hs, FREE_MAP_SECTOR);
      AccountedFacts(d1, hs, x, h, freeMap.bitmap.Contents(), d2);
      ghost var bytes := freeMap.WriteBack(disk, freeMapFile);
      MapStoreFrame(d1, hs, d2, disk.sectors, freeMapFile.hdr.Value(), bytes);
      CreationCompletes(d1, hs, x, h, freeMap.bitmap.Contents(), d2, disk.sectors, freeMapFile.hdr.Value(), bytes);
      hs := hs[x as int := h];
    }
  }

  // Whole runs.

  datatype Command =
    | CreateCommand(path: text, isDir: bool)
    | RemoveCommand(path: text)
    | WriteCommand(path: text, data: seq<byte>, position: int)

  /** The commands after which nothing more can be said: each case is one that the code does not guard against. */
  ghost predicate Fatal(s: State, c: Command)
    requires FREE_MAP_SECTOR in s.hs && DIRECTORY_SECTOR in TablesOf(s.disk, s.hs)
  {
    var w := Walk(TablesOf(s.disk, s.hs), DIRECTORY_SECTOR, c.path, false);
    match c
    case CreateCommand(path, isDir) =>
      Elements(path) == [] || (Creatable(s.disk, s.hs, path) && isDir && CountClear(FreeMap(s.disk, s.hs[FREE_MAP_SECTOR])) < 3)
    case RemoveCommand(path) => w == NullPath || (w.At? && w.sector in s.hs && PartFilledIndirect(s.hs[w.sector]))
    case WriteCommand(path, data, position) =>
      w == NullPath ||
      (w.At? && w.sector in s.hs && !IsDir(s.hs[w.sector]) && Unwritable(s.disk, s.hs, w.sector, |data|, position))
  }

  /** In plain terms: no name in the path; a directory without room; a part-filled indirect block; a file that cannot grow. */
  lemma FatalMeans(s: State, c: Command)
    requires FREE_MAP_SECTOR in s.hs && DIRECTORY_SECTOR in TablesOf(s.disk, s.hs)
    ensures var w, room := Walk(TablesOf(s.disk, s.hs), DIRECTORY_SECTOR, c.path, false), CountClear(FreeMap(s.disk, s.hs[FREE_MAP_SECTOR]));
            && (c.CreateCommand? && w != NullPath ==> (Fatal(s, c) <==> Creatable(s.disk, s.hs, c.path) && c.isDir && 0 < room < 3))
            && (w == NullPath ==> Fatal(s, c))
            && (w == NotFound && !c.CreateCommand? ==> !Fatal(s, c))
            && (c.RemoveCommand? && w.At? && w.sector in s.hs ==> (Fatal(s, c) <==> 24 < s.hs[w.sector].nsectors < 56))
            && (c.WriteCommand? && w.At? && w.sector in s.hs && !IsDir(s.hs[w.sector]) ==>
                  var h, end := s.hs[w.sector], c.position + |c.data|;
                  Fatal(s, c) <==>
                    && c.data != [] && 0 <= c.position <= h.limit && end > h.capacity
                    && (end > 56 * 128 || room < BlocksFor(end - h.capacity) + if h.nsectors <= 24 < h.nsectors + BlocksFor(end - h.capacity) then 1 else 0))
  {
    hide Tree, TablesOf, FreeMap, Lookup, Elements, Resolve, CountClear;
    WalkHasElements(TablesOf(s.disk, s.hs), c.path);
  }

  ghost predicate CanGoOn(fs: FileSystem, run: seq<State>, steps: seq<Step>)
    reads fs, fs.disk, fs.disk.cache, fs.freeMapFile.hdr, fs.directoryFile.hdr
  {
    && fs.Valid() && IsRun(run, steps) && run[|run| - 1] == State(fs.disk.sectors, fs.hs)
  }

  lemma CreationIsStep(s: State, path: text, isDir: bool, x: word, s': State)
    requires FREE_MAP_SECTOR in s.hs && DIRECTORY_SECTOR in TablesOf(s.disk, s.hs) && Elements(path) != []
    requires CreatedIn(s.disk, s.hs, path, isDir, x, s'.disk, s'.hs)
    ensures Does(s, Creation(path, isDir, x), s')
  {
    hide CreatedIn, TablesOf, Elements;
  }

  lemma WalkHasElements(dirs: map<int, Table>, path: text)
    requires DIRECTORY_SECTOR in dirs
    ensures Walk(dirs, DIRECTORY_SECTOR, path, false) == NullPath <==> Elements(path) == []
  {
    hide Elements, Resolve;
  }

  lemma RemovalIsStep(s: State, path: text, x: int, s': State)
    requires FREE_MAP_SECTOR in s.hs && DIRECTORY_SECTOR in TablesOf(s.disk, s.hs) && Elements(path) != []
    requires RemovedFrom(s.disk, s.hs, path, x, s'.disk, s'.hs)
    ensures Does(s, Removal(path, x), s')
  {
    hide RemovedFrom, TablesOf, Elements;
  }

  lemma RunGrows(run: seq<State>, steps: seq<Step>, step: Step, s: State)
    requires IsRun(run, steps) && Does(run[|run| - 1], step, s)
    ensures IsRun(run + [s], steps + [step])
  {
    hide Does, Formatted;
  }

  /**
   * One command on a sound file system: it fails exactly if the command is fatal, and leads to the next state otherwise.
   * A file whose removal would be fatal is left alone.
   */
  method Execute(fs: FileSystem, c: Command, ghost run: seq<State>, ghost steps: seq<Step>)
    returns (ok: bool, ghost run': seq<State>, ghost steps': seq<Step>)
    requires CanGoOn(fs, run, steps) && IsPath(c.path)
    modifies fs, fs.disk, fs.disk.cache, fs.freeMapFile.hdr
    ensures FREE_MAP_SECTOR in old(fs.hs) && DIRECTORY_SECTOR in old(fs.Dirs())
    ensures ok <==> !Fatal(run[|run| - 1], c)
    ensures ok ==> CanGoOn(fs, run', steps') && run <= run' && steps <= steps'
    ensures !ok ==> run' == run && steps' == steps
  {
    hide Tree, TablesOf, Walk, Does, Lookup, Elements, FreeMap, CreatedIn, RemovedFrom, Volume, Creatable, LostHeader, Unwritable, IsRun;
    ghost var s := State(fs.disk.sectors, fs.hs);
    run', steps', ok := run, steps, true;
    ghost var step: Step;
    match c
    case CreateCommand(path, isDir) =>
      var r := fs.Create(path, isDir);
      ok := r.Created? || r.NotCreated?;
      if r.Created? {
        step := Creation(path, isDir, r.sector);
        CreationIsStep(s, path, isDir, r.sector, State(fs.disk.sectors, fs.hs));
      }
      if r.Created? {
        RunGrows(run, steps, step, State(fs.disk.sectors, fs.hs));
        run', steps' := run + [State(fs.disk.sectors, fs.hs)], steps + [step];
      }
    case RemoveCommand(path) =>
      var _, file := fs.Open(path);
      if file != null && PartFilledIndirect(file.hdr.Value()) {
        return false, run, steps;
      }
      var r := fs.Remove(path);
      ok := r != NullPath;
      if r.At? {
        step := Removal(path, r.sector);
        WalkHasElements(TablesOf(s.disk, s.hs), path);
        RemovalIsStep(s, path, r.sector, State(fs.disk.sectors, fs.hs));
        RunGrows(run, steps, step, State(fs.disk.sectors, fs.hs));
        run', steps' := run + [State(fs.disk.sectors, fs.hs)], steps + [step];
      }
    case WriteCommand(path, data, position) =>
      var r, w := fs.OpenAndWrite(path, data, position);
      ok := r != NullPath && w != Crashed;
      if ok && w.n > 0 {
        step := Writing(r.sector, position, data, MoreRoom(s.hs[r.sector], position, |data|));
        RunGrows(run, steps, step, State(fs.disk.sectors, fs.hs));
        run', steps' := run + [State(fs.disk.sectors, fs.hs)], steps + [step];
      }
  }

  /**
   * Any sequence of commands on a freshly formatted disk. As far as no command is fatal, they make a run, and after the
   * last of them the file system is sound, with the disk in the run's last state.
   */
  method Session(onDisk: SynchDisk, commands: seq<Command>)
    returns (fs: FileSystem, done: nat, ghost run: seq<State>, ghost steps: seq<Step>)
    requires onDisk.Valid() && forall c <- commands :: IsPath(c.path)
    modifies onDisk, onDisk.cache
    ensures IsRun(run, steps) && done <= |commands|
    ensures forall i | 0 <= i < |run| :: Tree(run[i].disk, run[i].hs) && Exact(run[i].disk, run[i].hs)
    ensures done == |commands| ==> CanGoOn(fs, run, steps)
    ensures done < |commands| ==>
              var s := run[|run| - 1];
              FREE_MAP_SECTOR in s.hs && DIRECTORY_SECTOR in TablesOf(s.disk, s.hs) && Fatal(s, commands[done])
  {
    hide Tree, Exact, Does, Formatted, Fatal, TablesOf;
    fs := new FileSystem.Format(onDisk);
    run, steps, done := [State(fs.disk.sectors, fs.hs)], [], 0;
    while done < |commands|
      invariant done <= |commands| && fs.disk == onDisk && fresh(fs) && fresh(fs.freeMapFile.hdr)
      invariant CanGoOn(fs, run, steps)
    {
      assert commands[done] in commands;
      var ok;
      ok, run, steps := Execute(fs, commands[done], run, steps);
      if !ok {
        break;
      }
      done := done + 1;
    }
    forall i | 0 <= i < |run|
      ensures Tree(run[i].disk, run[i].hs) && Exact(run[i].disk, run[i].hs)
    {
      RunKeepsTree(run, steps, i);
    }
  }
}
