/** code/filesys/filesys.cc: what a removal does to the volume and its tree. */
module Removals {
  import opened Words
  import opened Bitmaps
  import opened SynchDisks
  import opened FileHeaders
  import opened FileContents
  import opened Volumes
  import opened OpenFiles
  import opened Paths
  import opened DirTables
  import opened Directories
  import opened FileTrees
  import opened PathWalks

  /**
   * What a removal does on disk: the entry goes from the directory that the path leads to, exactly the file's own
   * sectors are given up in the stored map, and nothing else is written. That the file system is still sound, and
   * what has become of all paths and files, follows.
   */
  ghost predicate RemovedFrom(d: Disk, hs: map<int, Header>, path: text, x: int, d': Disk, hs': map<int, Header>)
    requires FREE_MAP_SECTOR in hs && DIRECTORY_SECTOR in TablesOf(d, hs) && Elements(path) != []
  {
    var dirs, p, name := TablesOf(d, hs), ParentOf(TablesOf(d, hs), path), Last(Elements(path));
    && p != -1 && Removed(dirs[p], name).0 && x == Lookup(dirs[p], name) && x in hs && hs' == hs - {x}
    && Vacated(d, hs, x, p, d') && FileBytes(d', hs[p]) == DirImage(p, Removed(dirs[p], name).1)
  }

  lemma RemovalKeepsTree(d: Disk, hs: map<int, Header>, path: text, x: int, d': Disk, hs': map<int, Header>)
    requires Tree(d, hs) && FREE_MAP_SECTOR in hs && DIRECTORY_SECTOR in TablesOf(d, hs) && Elements(path) != []
    requires RemovedFrom(d, hs, path, x, d', hs')
    ensures Tree(d', hs') && x > PIPE_SECTOR && DIRECTORY_SECTOR in TablesOf(d', hs') && DIRECTORY_SECTOR in hs
    ensures var p, name := ParentOf(TablesOf(d, hs), path), Last(Elements(path));
            && p in TablesOf(d, hs) && x != p && NameRemoved(TablesOf(d, hs), TablesOf(d', hs'), p, name)
            && TablesOf(d', hs') == TablesOf(d, hs)[p := Removed(TablesOf(d, hs)[p], name).1] - {x}
            && forall g | g in hs && g != x && g != p && g != FREE_MAP_SECTOR :: FileBytes(d', hs[g]) == FileBytes(d, hs[g])
  {
    hide Tree, Volume, Vacated, FileBytes, DirImage, Removed, Lookup, FreeMap, Elements, TablesOf;
    var p, name := ParentOf(TablesOf(d, hs), path), Last(Elements(path));
    TreeVolume(d, hs);
    DirFacts(d, hs, p);
    FreeMapIsNoDir(d, hs);
    VacatedKeepsVolume(d, hs, x, p, d');
    FileLeaves(d, hs, p, name, x, d');
  }

  /** A removed path leads nowhere, and every other path leads where it led or, below a removed directory, nowhere. */
  lemma RemovedResolves(d: Disk, hs: map<int, Header>, path: text, x: int, d': Disk, hs': map<int, Header>)
    requires Tree(d, hs) && FREE_MAP_SECTOR in hs && DIRECTORY_SECTOR in TablesOf(d, hs) && Elements(path) != []
    requires RemovedFrom(d, hs, path, x, d', hs')
    ensures DIRECTORY_SECTOR in TablesOf(d', hs') && Walk(TablesOf(d', hs'), DIRECTORY_SECTOR, path, false) == NotFound
    ensures forall q :: Walk(TablesOf(d', hs'), DIRECTORY_SECTOR, q, false) == Walk(TablesOf(d, hs), DIRECTORY_SECTOR, q, false) ||
                        Walk(TablesOf(d', hs'), DIRECTORY_SECTOR, q, false) == NotFound
  {
    hide Tree, Lookup, FileBytes, FreeMap, Elements, RemovedFrom, Removed;
    var dirs, dirs' := TablesOf(d, hs), TablesOf(d', hs');
    var p, name := ParentOf(dirs, path), Last(Elements(path));
    RemovalKeepsTree(d, hs, path, x, d', hs');
    ResolveAfterRemove(dirs, dirs', p, name, DIRECTORY_SECTOR, Elements(path));
    forall q
      ensures Walk(dirs', DIRECTORY_SECTOR, q, false) == Walk(dirs, DIRECTORY_SECTOR, q, false) ||
              Walk(dirs', DIRECTORY_SECTOR, q, false) == NotFound
    {
      if Elements(q) != [] { ResolveAfterRemove(dirs, dirs', p, name, DIRECTORY_SECTOR, Elements(q)); }
    }
  }

  /**
   * What a removed directory still held is lost for good: it stays a file of the volume, its sectors stay marked,
   * and no entry of any directory leads to it.
   */
  lemma OrphansStayMarked(d: Disk, hs: map<int, Header>, path: text, x: int, d': Disk, hs': map<int, Header>, i: nat)
    requires Tree(d, hs) && FREE_MAP_SECTOR in hs && DIRECTORY_SECTOR in TablesOf(d, hs) && Elements(path) != []
    requires RemovedFrom(d, hs, path, x, d', hs') && IsDir(hs[x])
    requires i < NUM_DIR_ENTRIES && InUse(TablesOf(d, hs)[x], i)
    ensures var orphan := SectorOf(TablesOf(d, hs)[x], i);
            && orphan in hs' && orphan < NUM_SECTORS && FreeMap(d', hs[FREE_MAP_SECTOR])[orphan]
            && forall g, j | g in TablesOf(d', hs') && Live(TablesOf(d', hs')[g], j) :: SectorOf(TablesOf(d', hs')[g], j) != orphan
  {
    hide FileBytes, TableOf, OwnSector, SectorOf, NameOf, FreeMap, Lookup, Elements, InUse, Owned, TableIn, DirFileOk, Removed, DistinctNames,
         RemovedFrom;
    RemovalKeepsTree(d, hs, path, x, d', hs');
    RemovedHeaders(d, hs, path, x, d', hs');
    var dirs, dirs', p := TablesOf(d, hs), TablesOf(d', hs'), ParentOf(TablesOf(d, hs), path);
    var orphan := SectorOf(dirs[x], i);
    assert Live(dirs[x], i) && DirOk(hs.Keys, dirs[x], x);
    TreeVolume(d', hs');
    HeaderMarked(d', hs', orphan);
    assert hs'[FREE_MAP_SECTOR] == hs[FREE_MAP_SECTOR];
    forall g, j | g in dirs' && Live(dirs'[g], j)
      ensures SectorOf(dirs'[g], j) != orphan
    {
      assert g in dirs && g != x && Apart(dirs[g], g, dirs[x], x);
      if SectorOf(dirs'[g], j) == orphan {
        var name := NameOf(dirs'[g], j);
        assert DirOk(hs'.Keys, dirs'[g], g);
        LookupIs(dirs'[g], name, j);
        assert Lookup(dirs[g], name) == orphan;
        LookupLive(dirs[g], name);
      }
    }
  }

  lemma RemovedHeaders(d: Disk, hs: map<int, Header>, path: text, x: int, d': Disk, hs': map<int, Header>)
    requires FREE_MAP_SECTOR in hs && DIRECTORY_SECTOR in TablesOf(d, hs) && Elements(path) != []
    requires RemovedFrom(d, hs, path, x, d', hs')
    ensures hs' == hs - {x} && x in hs && FREE_MAP_SECTOR in hs' && hs'[FREE_MAP_SECTOR] == hs[FREE_MAP_SECTOR]
  {
    hide Removed, Lookup, FileBytes, FreeMap, Elements;
  }

  lemma LookupLive(t: Table, name: text)
    requires Lookup(t, name) != -1
    ensures Live(t, IndexOf(t, name)) && Lookup(t, name) == SectorOf(t, IndexOf(t, name))
  {
    hide SectorOf, NameOf;
  }

  lemma RemovalStarts(d: Disk, hs: map<int, Header>, path: text)
    requires Tree(d, hs) && DIRECTORY_SECTOR in TablesOf(d, hs) && Walk(TablesOf(d, hs), DIRECTORY_SECTOR, path, false).At?
    ensures Elements(path) != []
    ensures var x, dirs := Walk(TablesOf(d, hs), DIRECTORY_SECTOR, path, false).sector, TablesOf(d, hs);
            var p := ParentOf(dirs, path);
            && x in hs && PIPE_SECTOR < x < NUM_SECTORS && HdrAt(d, x) == hs[x] && WellFormed(d, hs[x], x)
            && p != -1 && p in hs && IsDir(hs[p]) && Removed(dirs[p], Last(Elements(path))).0
            && x == Lookup(dirs[p], Last(Elements(path)))
  {
    hide Tree, Elements, Parse, WellFormed, Dropped, SectorOf, LiveAs;
    TreeVolume(d, hs);
    ParentLookupFacts(d, hs, path);
    HeaderInVolume(d, hs, Resolve(TablesOf(d, hs), DIRECTORY_SECTOR, Elements(path)));
  }

  /** Without a mark on sector 0 the free map no longer accounts for its own header, whatever the files are. */
  lemma MapLost(d: Disk, hs: map<int, Header>, h: Header, x: int, bits: seq<bool>, bits': seq<bool>,
                d1: Disk, d': Disk, hm: Header, bytes: seq<byte>)
    requires WellFormed(d, h, x) && PartFilledIndirect(h) && x != 0 && GivenBack(d, h, x, bits, bits') && bits[0]
    requires Volume(d1, hs) && WellFormed(d1, hs[FREE_MAP_SECTOR], FREE_MAP_SECTOR) && |bytes| == FREE_MAP_BYTES
    requires BitsOf(ToWords(bytes), NUM_SECTORS) == bits'
    requires Stored(d1, hs[FREE_MAP_SECTOR], d', hm, FREE_MAP_SECTOR, 0, bytes)
    ensures forall files :: !Volume(d', files)
  {
    hide WellFormed, Stored, FileBytes, BitsOf, ToWords, Parse, Volume, Freed, Image;
    MapHeaderOf(d1, hs);
    StoredFacts(d1, hs[FREE_MAP_SECTOR], d', hm, FREE_MAP_SECTOR, 0, bytes);
    ReservedSectorLost(d, h, x, bits, bits');
    assert FileBytes(d1, hs[FREE_MAP_SECTOR])[..0] + bytes == bytes;
    forall files
      ensures !Volume(d', files)
    {
      if Volume(d', files) {
        MapHeaderOf(d', files);
        HeaderMarked(d', files, FREE_MAP_SECTOR);
      }
    }
  }

  /** The writes of `Remove`, the parent directory and then the map, come to what is promised of a removal. */
  lemma RemovalDone(d: Disk, hs: map<int, Header>, path: text, x: int, bits': seq<bool>,
                    d1: Disk, hp: Header, d': Disk, hm: Header, bytes: seq<byte>)
    requires Tree(d, hs) && FREE_MAP_SECTOR in hs && DIRECTORY_SECTOR in TablesOf(d, hs)
    requires Walk(TablesOf(d, hs), DIRECTORY_SECTOR, path, false) == At(x)
    requires x in hs && !PartFilledIndirect(hs[x]) && GivenBack(d, hs[x], x, FreeMap(d, hs[FREE_MAP_SECTOR]), bits')
    requires Elements(path) != []
    requires var p := ParentOf(TablesOf(d, hs), path);
             p in TablesOf(d, hs) && p in hs && WellFormed(d, hs[p], p) &&
             Stored(d, hs[p], d1, hp, p, 0, DirImage(p, Removed(TablesOf(d, hs)[p], Last(Elements(path))).1))
    requires WellFormed(d1, hs[FREE_MAP_SECTOR], FREE_MAP_SECTOR)
    requires |bytes| == FREE_MAP_BYTES && BitsOf(ToWords(bytes), NUM_SECTORS) == bits'
    requires Stored(d1, hs[FREE_MAP_SECTOR], d', hm, FREE_MAP_SECTOR, 0, bytes)
    ensures RemovedFrom(d, hs, path, x, d', hs - {x}) && hm == hs[FREE_MAP_SECTOR]
  {
    hide Tree, Volume, Elements, Parse, WellFormed, Stored, DirImage, Removed, FileBytes, FreeMap, BitsOf, ToWords, Lookup, Freed, TablesOf;
    var p, name := ParentOf(TablesOf(d, hs), path), Last(Elements(path));
    RemovalStarts(d, hs, path);
    FreeMapIsNoDir(d, hs);
    DirFacts(d, hs, p);
    NotOwnEntry(d, hs, p, name);
    DirWritten(d, hs, p, d1, hp, Removed(TablesOf(d, hs)[p], name).1);
    StoredFacts(d, hs[p], d1, hp, p, 0, DirImage(p, Removed(TablesOf(d, hs)[p], name).1));
    assert FileBytes(d, hs[p])[..0] + DirImage(p, Removed(TablesOf(d, hs)[p], name).1) == DirImage(p, Removed(TablesOf(d, hs)[p], name).1);
    MapRewritten(d1, hs, bits', d', hm, bytes);
    forall s | 0 <= s < NUM_SECTORS
      ensures bits'[s] <==> FreeMap(d, hs[FREE_MAP_SECTOR])[s] && !Owns(d, hs[x], x, s)
      ensures d'[s] != d[s] ==> InFile(d, hs[p], p, s) || InFile(d, hs[FREE_MAP_SECTOR], FREE_MAP_SECTOR, s)
    {
      OwnsIs(d, hs[x], x, s);
      if d1[s] != d[s] {
        StoreWritesOwn(d, hs[p], d1, hp, p, 0, DirImage(p, Removed(TablesOf(d, hs)[p], name).1), s);
      }
      MapIsDirect(d1, d, hs, s);
    }
  }

  lemma OwnsIs(d: Disk, h: Header, x: int, s: nat)
    requires WellFormed(d, h, x) && !PartFilledIndirect(h) && s < NUM_SECTORS
    ensures Owns(d, h, x, s) <==> s in Freed(d, h) || s == x
  {
    hide Freed;
    FreedSectors(d, h, x, s);
    assert IsSlot(h, 0) && Slot(d, h, x, 0) == x;
  }

  lemma NotOwnEntry(d: Disk, hs: map<int, Header>, p: int, name: text)
    requires Tree(d, hs) && p in TablesOf(d, hs) && Lookup(TablesOf(d, hs)[p], name) != -1
    ensures Lookup(TablesOf(d, hs)[p], name) != p
  {
    hide FileBytes, TableOf, OwnSector, SectorOf, NameOf, Volume;
    DirFacts(d, hs, p);
  }

  /** What the methods need to know of a removal. */
  lemma RemovalKeeps(d: Disk, hs: map<int, Header>, path: text, x: int, d': Disk, hs': map<int, Header>)
    requires FREE_MAP_SECTOR in hs && DIRECTORY_SECTOR in TablesOf(d, hs) && Elements(path) != []
    requires Tree(d, hs) && RemovedFrom(d, hs, path, x, d', hs')
    ensures Tree(d', hs') && x > PIPE_SECTOR && DIRECTORY_SECTOR in hs && DIRECTORY_SECTOR in TablesOf(d', hs')
  {
    hide Tree, TablesOf, RemovedFrom, Elements, Lookup, Removed, FileBytes;
    RemovalKeepsTree(d, hs, path, x, d', hs');
  }
}
