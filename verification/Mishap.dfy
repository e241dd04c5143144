/** Two short programs, from formatting on, after which the file system is not what one would expect. */
module Mishaps {
  import opened Words
  import opened Bitmaps
  import opened SynchDisks
  import opened FileHeaders
  import opened FileContents
  import opened Volumes
  import opened OpenFiles
  import opened Paths
  import opened DirTables
  import opened Directories
  import opened FileTrees
  import opened PathWalks
  import opened Creations
  import opened Removals
  import opened Reachability
  import opened Formats
  import opened FileRuns
  import opened FileSystems

  const A: text := [97]
  const B: text := [98]
  const A_B: text := [97, SLASH, 98]

  lemma ElementsOfA()
    ensures Elements(A) == [A] && IsPath(A)
  {
    assert A[1..] == [];
    assert FrontElement(A) == [A[0]] + FrontElement([]);
    assert SkipElem(A) == Some(A, []);
    assert Elements([]) == [];
  }

  /** On a formatted disk the root has room for a file `a`. */
  lemma RootHasRoom(d: Disk, hs: map<int, Header>)
    requires Formatted(d, hs)
    ensures Elements(A) == [A] && DIRECTORY_SECTOR in TablesOf(d, hs) && Creatable(d, hs, A)
    ensures CountClear(FreeMap(d, hs[FREE_MAP_SECTOR])) == NUM_SECTORS - 14 && AllEntered(d, hs)
  {
    hide Tree, Exact, FreeMap, Elements, Lookup, InUse;
    ElementsOfA();
  }

  /** A write of 25 sectors to an empty file: the last one goes into an indirect block that is otherwise unused. */
  lemma TwentyFiveBlocks(d: Disk, hs: map<int, Header>, f: int, from: seq<byte>, d': Disk, hs': map<int, Header>)
    requires f in hs && hs[f].limit == hs[f].nsectors == 0 && |from| == 25 * SECTOR_SIZE && WroteTo(d, hs, f, 0, from, d', hs')
    ensures f in hs' && hs'[f].nsectors == 25 && PartFilledIndirect(hs'[f])
  {
    hide Replaced, FileBytes, FreeMap, TablesOf;
    assert hs[f].capacity == 0 && MoreRoom(hs[f], 0, |from|) == 25 * SECTOR_SIZE;
    assert BlocksFor(25 * SECTOR_SIZE) == 25;
  }

  /** 25 sectors and an indirect block can be had. */
  lemma RoomForThem(d: Disk, hs: map<int, Header>, f: int, numBytes: int)
    requires FREE_MAP_SECTOR in hs && f in hs && hs[f].limit == hs[f].nsectors == hs[f].capacity == 0 && numBytes == 25 * SECTOR_SIZE
    requires CountClear(FreeMap(d, hs[FREE_MAP_SECTOR])) >= 26
    ensures Requested(hs[f].limit, numBytes, 0) && !Unwritable(d, hs, f, numBytes, 0)
  {
    hide FreeMap;
    assert BlocksFor(25 * SECTOR_SIZE) == 25;
  }

  /**
   * A file of 25 sectors is written and removed. After that no set of files whatever accounts for the map on disk: sector
   * 0, which holds the header of the map itself, is free.
   */
  method LoseTheMap(disk: SynchDisk) returns (fs: FileSystem)
    requires disk.Valid()
    modifies disk, disk.cache
    ensures forall files :: !Volume(disk.sectors, files)
  {
    hide Tree, TablesOf, Walk, Lookup, FreeMap, CreatedIn, Formatted, Volume, Creatable, Unwritable, WroteTo, Exact, AllEntered;
    fs := new FileSystem.Format(disk);
    ghost var d0, hs0 := disk.sectors, fs.hs;
    RootHasRoom(d0, hs0);
    var created := fs.Create(A, false);
    ghost var d1, hs1, x := disk.sectors, fs.hs, created.sector;
    EmptyAt(d0, hs0, x, d1, hs1);
    var data := seq(25 * SECTOR_SIZE, i => 0);
    RoomForThem(d1, hs1, x, |data|);
    var _, wrote := fs.OpenAndWrite(A, data, 0);
    TwentyFiveBlocks(d1, hs1, x, data, disk.sectors, fs.hs);
    WroteKeepsPath(d1, hs1, x, data, disk.sectors, fs.hs);
    var removed := fs.Remove(A);
  }

  lemma EmptyAt(d: Disk, hs: map<int, Header>, x: word, d': Disk, hs': map<int, Header>)
    requires Tree(d, hs) && FREE_MAP_SECTOR in hs && DIRECTORY_SECTOR in TablesOf(d, hs) && Elements(A) != []
    requires CreatedIn(d, hs, A, false, x, d', hs')
    ensures x as int in hs' && !IsDir(hs'[x]) && hs'[x].limit == hs'[x].nsectors == hs'[x].capacity == 0
    ensures FREE_MAP_SECTOR in hs' && hs'[FREE_MAP_SECTOR] == hs[FREE_MAP_SECTOR]
    ensures Walk(TablesOf(d', hs'), DIRECTORY_SECTOR, A, false) == At(x)
  {
    hide Tree, TablesOf, Elements, Lookup, FileBytes, DirImage, Added, FreeMap, Walk;
    CreatedResolves(d, hs, A, false, x, d', hs');
  }

  lemma WroteKeepsPath(d: Disk, hs: map<int, Header>, f: int, from: seq<byte>, d': Disk, hs': map<int, Header>)
    requires Tree(d, hs) && WroteTo(d, hs, f, 0, from, d', hs')
    requires DIRECTORY_SECTOR in TablesOf(d, hs) && Walk(TablesOf(d, hs), DIRECTORY_SECTOR, A, false) == At(f)
    ensures DIRECTORY_SECTOR in TablesOf(d', hs') && Walk(TablesOf(d', hs'), DIRECTORY_SECTOR, A, false) == At(f)
  {
    hide Tree, TablesOf, Walk, Does;
    StepKeepsPath(State(d, hs), Writing(f, 0, from, MoreRoom(hs[f], 0, |from|)), State(d', hs'), A);
  }

  lemma ElementsOfAB()
    ensures Elements(A_B) == [A, B] && IsPath(A_B)
  {
    assert A_B[1..] == [SLASH, 98] && A_B[1..][1..] == B && B[1..] == [];
    assert FrontElement(A_B) == [97] + FrontElement(A_B[1..]) && FrontElement(B) == [98] + FrontElement([]);
    assert SkipElem(A_B) == Some(A, B) && SkipElem(B) == Some(B, []);
    assert Elements([]) == [];
  }

  lemma ParentIsA(dirs: map<int, Table>, x: int)
    requires DIRECTORY_SECTOR in dirs && Elements(A) == [A] && Elements(A_B) == [A, B] && x in dirs
    requires Walk(dirs, DIRECTORY_SECTOR, A, false) == At(x)
    ensures ParentOf(dirs, A_B) == x && Last(Elements(A_B)) == B
  {
    hide Elements, Lookup;
    assert Resolve(dirs, DIRECTORY_SECTOR, [A]) == Lookup(dirs[DIRECTORY_SECTOR], A) == x;
    assert [A, B][1..] == [B] && [A, B][0] == A && ParentIn(dirs, x, [B]) == x;
    assert ParentIn(dirs, DIRECTORY_SECTOR, [A, B]) == ParentIn(dirs, x, [A, B][1..]);
  }

  /** The new directory `a` has room for a file `b`. */
  lemma DirectoryHasRoom(d: Disk, hs: map<int, Header>, x: word, d': Disk, hs': map<int, Header>)
    requires Formatted(d, hs) && Elements(A) == [A] && DIRECTORY_SECTOR in TablesOf(d, hs) && CreatedIn(d, hs, A, true, x, d', hs')
    requires Tree(d', hs') && FREE_MAP_SECTOR in hs' && CountClear(FreeMap(d', hs'[FREE_MAP_SECTOR])) > 0
    ensures x as int in hs' && hs'[x].nsectors == 2
    ensures AllEntered(d', hs') && DIRECTORY_SECTOR in TablesOf(d', hs') && Walk(TablesOf(d', hs'), DIRECTORY_SECTOR, A, false) == At(x)
    ensures x as int in TablesOf(d', hs') && Elements(A_B) == [A, B] && Creatable(d', hs', A_B)
  {
    hide Tree, Exact, FreeMap, Elements, Lookup, InUse, FileBytes, DirImage, Added, TableIn, AllEntered, Replaced, DirFileOk;
    ElementsOfAB();
    assert AllEntered(d, hs) by { RootHasRoom(d, hs); }
    CreationKeepsEntered(d, hs, A, true, x, d', hs');
    CreationKeepsTree(d, hs, A, true, x, d', hs');
    CreatedResolves(d, hs, A, true, x, d', hs');
    NothingIn(TablesOf(d', hs')[x as int], B);
    ParentIsA(TablesOf(d', hs'), x);
  }

  /** What is entered in the directory `a` shows in its table. */
  lemma BIsEntered(d: Disk, hs: map<int, Header>, x: word, y: word, d': Disk, hs': map<int, Header>)
    requires Tree(d, hs) && FREE_MAP_SECTOR in hs && DIRECTORY_SECTOR in TablesOf(d, hs) && AllEntered(d, hs)
    requires Elements(A) == [A] && Elements(A_B) == [A, B]
    requires Walk(TablesOf(d, hs), DIRECTORY_SECTOR, A, false) == At(x) && x as int in TablesOf(d, hs) && hs[x].nsectors == 2
    requires CreatedIn(d, hs, A_B, false, y, d', hs')
    ensures AllEntered(d', hs') && DIRECTORY_SECTOR in TablesOf(d', hs') && FREE_MAP_SECTOR in hs'
    ensures Walk(TablesOf(d', hs'), DIRECTORY_SECTOR, A, false) == At(x)
    ensures x as int in hs' && HasEntries(d', hs'[x]) && !PartFilledIndirect(hs'[x])
  {
    hide Tree, FreeMap, Elements, Lookup, InUse, FileBytes, DirImage, Added, TableIn, AllEntered, CreatedIn, DirFileOk;
    CreationKeepsEntered(d, hs, A_B, false, y, d', hs');
    CreationKeepsTree(d, hs, A_B, false, y, d', hs');
    CreatedResolves(d, hs, A_B, false, y, d', hs');
    ParentIsA(TablesOf(d, hs), x);
    LookupLive(TablesOf(d', hs')[x as int], B);
    DirFacts(d', hs', x);
  }

  /** A directory is removed with a file in it. After that the file cannot be reached, though its sectors are still taken. */
  method LoseAFile(disk: SynchDisk) returns (fs: FileSystem)
    requires disk.Valid()
    modifies disk, disk.cache
    ensures fs.Valid() && fs.disk == disk && !AllEntered(disk.sectors, fs.hs)
  {
    hide Tree, TablesOf, Walk, Lookup, FreeMap, CreatedIn, RemovedFrom, Formatted, Creatable, Exact, AllEntered, HasEntries, Elements;
    fs := new FileSystem.Format(disk);
    ghost var d0, hs0 := disk.sectors, fs.hs;
    RootHasRoom(d0, hs0);
    var dir := fs.Create(A, true);
    ghost var d1, hs1, x := disk.sectors, fs.hs, dir.sector;
    DirectoryHasRoom(d0, hs0, x, d1, hs1);
    ElementsOfAB();
    var file := fs.Create(A_B, false);
    ghost var d2, hs2 := disk.sectors, fs.hs;
    BIsEntered(d1, hs1, x, file.sector, d2, hs2);
    var _ := fs.Remove(A);
    RemovalStrands(d2, hs2, A, x, disk.sectors, fs.hs);
  }
}
