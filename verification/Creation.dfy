/** code/filesys/filesys.cc: what a creation does to the volume and its tree. */
module Creations {
  import opened Words
  import opened Bitmaps
  import opened SynchDisks
  import opened FileHeaders
  import opened FileContents
  import opened Volumes
  import opened OpenFiles
  import opened Paths
  import opened DirTables
  import opened Directories
  import opened FileTrees
  import opened PathWalks

  /** What `Create` can come to; `HeaderLost` is the new directory for which there is no room. */
  datatype Creation = Created(sector: word) | NotCreated | NullDereference | HeaderLost

  /** The path is free, its directory exists and has an unused entry, and there is a sector for the header. */
  ghost predicate Creatable(d: Disk, hs: map<int, Header>, path: text)
    requires FREE_MAP_SECTOR in hs && DIRECTORY_SECTOR in TablesOf(d, hs) && Elements(path) != []
  {
    var dirs := TablesOf(d, hs);
    var p := ParentOf(dirs, path);
    && p != -1 && Lookup(dirs[p], Last(Elements(path))) == -1 && FirstUnused(dirs[p]) != -1
    && CountClear(FreeMap(d, hs[FREE_MAP_SECTOR])) > 0
  }

  /**
   * What a creation does on disk: the entry is written into the directory that the path leads to, the new file gets its
   * header, and a directory its two blocks and an empty table, on sectors that were clear and are now marked, and
   * nothing else is written. That the file system is still sound, and where all paths lead, follows.
   */
  ghost predicate CreatedIn(d: Disk, hs: map<int, Header>, path: text, isDir: bool, x: word, d': Disk, hs': map<int, Header>)
    requires FREE_MAP_SECTOR in hs && DIRECTORY_SECTOR in TablesOf(d, hs) && Elements(path) != []
  {
    var dirs, p, name := TablesOf(d, hs), ParentOf(TablesOf(d, hs), path), Last(Elements(path));
    && p != -1 && |name| <= FILE_NAME_MAX_LEN && 0 !in name && Added(dirs[p], name, x).0
    && x as int !in hs && x as int in hs' && hs' == hs[x as int := hs'[x]]
    && Replaced(d, hs, x, hs'[x], p, d') && FileBytes(d', hs[p]) == DirImage(p, Added(dirs[p], name, x).1)
    && NewContents(d', hs'[x], x, isDir)
  }

  /** A new file is empty; a new directory holds its own sector and no entries. */
  ghost predicate NewContents(d: Disk, h: Header, x: int, isDir: bool) {
    && h.ftype == (if isDir then TYPE_DIR else TYPE_FILE) && h.nsectors == (if isDir then 2 else 0)
    && (if isDir then DirFileOk(d, h, x) && (forall i | 0 <= i < NUM_DIR_ENTRIES :: !InUse(TableIn(d, h), i))
        else h.limit == 0)
  }

  /** The file system is sound after a creation; it has one more file under one more name, and all others as they were. */
  lemma CreationKeepsTree(d: Disk, hs: map<int, Header>, path: text, isDir: bool, x: word, d': Disk, hs': map<int, Header>)
    requires Tree(d, hs) && FREE_MAP_SECTOR in hs && DIRECTORY_SECTOR in TablesOf(d, hs) && Elements(path) != []
    requires CreatedIn(d, hs, path, isDir, x, d', hs')
    ensures Tree(d', hs') && x > PIPE_SECTOR && DIRECTORY_SECTOR in hs && DIRECTORY_SECTOR in TablesOf(d', hs')
    ensures x as int !in hs && x as int in hs' && hs' == hs[x as int := hs'[x]]
    ensures var p, name := ParentOf(TablesOf(d, hs), path), Last(Elements(path));
            && p in TablesOf(d, hs) && NameAdded(TablesOf(d, hs), TablesOf(d', hs'), p, name, x)
            && |name| <= FILE_NAME_MAX_LEN && 0 !in name && Added(TablesOf(d, hs)[p], name, x).0
            && TablesOf(d', hs') == (if isDir then TablesOf(d, hs)[p := Added(TablesOf(d, hs)[p], name, x).1][x as int := TableIn(d', hs'[x])]
                                     else TablesOf(d, hs)[p := Added(TablesOf(d, hs)[p], name, x).1])
            && (isDir ==> forall i | 0 <= i < NUM_DIR_ENTRIES :: !InUse(TableIn(d', hs'[x]), i))
            && forall g | g in hs && g != p && g != FREE_MAP_SECTOR :: FileBytes(d', hs[g]) == FileBytes(d, hs[g])
  {
    hide Tree, Volume, Replaced, FileBytes, DirImage, Added, Lookup, FreeMap, Elements, TablesOf, DirFileOk, TableIn, InUse, NameAdded;
    var p, name := ParentOf(TablesOf(d, hs), path), Last(Elements(path));
    TreeVolume(d, hs);
    DirFacts(d, hs, p);
    FreeMapIsNoDir(d, hs);
    ReplacedKeepsVolume(d, hs, x, hs'[x], p, d');
    NewIsClear(d, hs, x, hs'[x], p, d');
    ClearIsNew(d, hs, x);
    NewFileJoins(d, hs, p, name, x, hs'[x], d');
    assert DIRECTORY_SECTOR in TablesOf(d', hs') by { FreeMapIsNoDir(d', hs'); }
  }

  lemma NewIsClear(d: Disk, hs: map<int, Header>, x: word, h: Header, p: int, d': Disk)
    requires Replaced(d, hs, x, h, p, d') && x as int !in hs
    ensures x < NUM_SECTORS && FREE_MAP_SECTOR in hs && !FreeMap(d, hs[FREE_MAP_SECTOR])[x] && 0 <= p < NUM_SECTORS
  {
    hide FreeMap, Parse, InFile;
    assert IsSlot(h, 0) && Slot(d', h, x, 0) == x;
  }

  /** A created path leads to the new file, and no path that led to a file is disturbed. */
  lemma CreatedResolves(d: Disk, hs: map<int, Header>, path: text, isDir: bool, x: word, d': Disk, hs': map<int, Header>)
    requires Tree(d, hs) && FREE_MAP_SECTOR in hs && DIRECTORY_SECTOR in TablesOf(d, hs) && Elements(path) != []
    requires CreatedIn(d, hs, path, isDir, x, d', hs')
    ensures DIRECTORY_SECTOR in TablesOf(d', hs') && ParentOf(TablesOf(d, hs), path) != -1
    ensures Walk(TablesOf(d, hs), DIRECTORY_SECTOR, path, false) == NotFound
    ensures Walk(TablesOf(d', hs'), DIRECTORY_SECTOR, path, false) == At(x)
    ensures forall q | Walk(TablesOf(d, hs), DIRECTORY_SECTOR, q, false).At? ::
              Walk(TablesOf(d', hs'), DIRECTORY_SECTOR, q, false) == Walk(TablesOf(d, hs), DIRECTORY_SECTOR, q, false)
  {
    hide Tree, Lookup, FileBytes, FreeMap, Elements, Added, TablesOf, TableIn, InUse, CreatedIn;
    var dirs, dirs' := TablesOf(d, hs), TablesOf(d', hs');
    var p, name := ParentOf(dirs, path), Last(Elements(path));
    CreationKeepsTree(d, hs, path, isDir, x, d', hs');
    assert p != -1 by { DirFacts(d, hs, p); }
    ResolveAfterAdd(dirs, dirs', p, name, x, DIRECTORY_SECTOR, Elements(path));
    forall q | Walk(dirs, DIRECTORY_SECTOR, q, false).At?
      ensures Walk(dirs', DIRECTORY_SECTOR, q, false) == Walk(dirs, DIRECTORY_SECTOR, q, false)
    {
      ResolveAfterAdd(dirs, dirs', p, name, x, DIRECTORY_SECTOR, Elements(q));
    }
  }

  lemma AddedIff(t: Table, name: text, x: word)
    requires |name| <= FILE_NAME_MAX_LEN
    ensures Added(t, name, x).0 <==> Lookup(t, name) == -1 && FirstUnused(t) != -1
  {
    hide InUse, SectorOf, Entered;
  }

  lemma CreatableIff(d: Disk, hs: map<int, Header>, path: text, x: word)
    requires Tree(d, hs) && FREE_MAP_SECTOR in hs && DIRECTORY_SECTOR in TablesOf(d, hs) && Elements(path) != []
    requires CountClear(FreeMap(d, hs[FREE_MAP_SECTOR])) > 0 && |Last(Elements(path))| <= FILE_NAME_MAX_LEN
    ensures var p := ParentOf(TablesOf(d, hs), path);
            Creatable(d, hs, path) <==> p != -1 && Added(TablesOf(d, hs)[p], Last(Elements(path)), x).0
  {
    hide Tree, FreeMap, Elements, Lookup, Added;
    var p := ParentOf(TablesOf(d, hs), path);
    if p != -1 { AddedIff(TablesOf(d, hs)[p], Last(Elements(path)), x); }
  }

  /**
   * A path can be created exactly if it leads nowhere, its directory is there and has an entry that is not in use, and some
   * sector is clear.
   */
  lemma CreatableMeans(d: Disk, hs: map<int, Header>, path: text)
    requires FREE_MAP_SECTOR in hs && DIRECTORY_SECTOR in TablesOf(d, hs) && Elements(path) != []
    ensures Creatable(d, hs, path) <==>
              && Walk(TablesOf(d, hs), DIRECTORY_SECTOR, path, false) == NotFound
              && Walk(TablesOf(d, hs), DIRECTORY_SECTOR, path, true).At?
              && (exists i: nat :: i < NUM_DIR_ENTRIES && !InUse(TablesOf(d, hs)[Walk(TablesOf(d, hs), DIRECTORY_SECTOR, path, true).sector], i))
              && (exists s: nat :: s < NUM_SECTORS && !FreeMap(d, hs[FREE_MAP_SECTOR])[s])
  {
    hide Elements, Lookup, InUse, FreeMap;
    var p := ParentOf(TablesOf(d, hs), path);
    var bits := FreeMap(d, hs[FREE_MAP_SECTOR]);
    FindFailsIffFull(bits);
    assert FirstClear(bits) != -1 ==> !bits[FirstClear(bits)];
    if p != -1 {
      var k := FirstUnused(TablesOf(d, hs)[p]);
      assert k != -1 ==> !InUse(TablesOf(d, hs)[p], k);
      assert Walk(TablesOf(d, hs), DIRECTORY_SECTOR, path, true) == At(p);
      assert (exists i: nat :: i < NUM_DIR_ENTRIES && !InUse(TablesOf(d, hs)[p], i)) <==> k != -1;
      assert Walk(TablesOf(d, hs), DIRECTORY_SECTOR, path, false) == NotFound <==> Lookup(TablesOf(d, hs)[p], Last(Elements(path))) == -1;
      assert (exists s: nat :: s < NUM_SECTORS && !bits[s]) <==> FirstClear(bits) != -1;
    }
  }

  lemma NotCreatable(d: Disk, hs: map<int, Header>, path: text)
    requires FREE_MAP_SECTOR in hs && DIRECTORY_SECTOR in TablesOf(d, hs) && Elements(path) != []
    requires Walk(TablesOf(d, hs), DIRECTORY_SECTOR, path, false) != NotFound || CountClear(FreeMap(d, hs[FREE_MAP_SECTOR])) == 0
    ensures !Creatable(d, hs, path)
  {
    hide FreeMap, Elements, Lookup;
  }

  lemma AccountedFacts(d1: Disk, hs: map<int, Header>, x: int, h: Header, bits: seq<bool>, d: Disk)
    requires Volume(d1, hs) && x !in hs && Accounted(d1, hs, x, h, bits, d)
    ensures FREE_MAP_SECTOR in hs && WellFormed(d, hs[FREE_MAP_SECTOR], FREE_MAP_SECTOR) && |bits| == NUM_SECTORS
  {
    hide WellFormed, FreeMap, Parse, FileBytes;
    assert FREE_MAP_SECTOR in hs[x := h] && hs[x := h][FREE_MAP_SECTOR] == hs[FREE_MAP_SECTOR];
  }

  lemma AccountedHeader(d1: Disk, hs: map<int, Header>, x: nat, h: Header, bits: seq<bool>, d: Disk)
    requires Accounted(d1, hs, x, h, bits, d)
    ensures x < NUM_SECTORS && HdrAt(d, x) == h
  {
    hide Parse, Owned;
  }

  lemma EntryAccounts(d: Disk, hs: map<int, Header>, path: text, x: word, d1: Disk, h: Header)
    requires x < NUM_SECTORS
    requires FREE_MAP_SECTOR in hs && DIRECTORY_SECTOR in TablesOf(d, hs) && Elements(path) != []
    requires EntryWritten(d, hs, ParentOf(TablesOf(d, hs), path), Last(Elements(path)), x, d1) && NewHeader(h, x)
    requires !FreeMap(d1, hs[FREE_MAP_SECTOR])[x]
    ensures Volume(d1, hs) && x as int !in hs
    ensures Accounted(d1, hs, x, h, FreeMap(d1, hs[FREE_MAP_SECTOR])[x := true], d1[x := Image(h)])
  {
    hide Tree, FreeMap, Owned, Parse, Image, FileBytes, Elements, TablesOf, TableIn;
    VolumeFacts(d1, hs, FREE_MAP_SECTOR);
    FileAccounted(d1, hs, FreeMap(d1, hs[FREE_MAP_SECTOR]), x, h);
  }

  /**
   * The new file, all of direct blocks, is on the disk `d2`, which followed `d1`: it was written to clear sectors only,
   * and `bits` marks exactly its sectors in addition.
   */
  ghost predicate NewAccounts(d1: Disk, hs: map<int, Header>, x: int, h: Header, bits: seq<bool>, d2: Disk) {
    && FREE_MAP_SECTOR in hs && |bits| == NUM_SECTORS && h.nsectors <= NUM_DIRECT && h.selfSector == x
    && (forall s | 0 <= s < NUM_SECTORS && Owns(d2, h, x, s) :: !FreeMap(d1, hs[FREE_MAP_SECTOR])[s])
    && (forall s | 0 <= s < NUM_SECTORS :: bits[s] <==> FreeMap(d1, hs[FREE_MAP_SECTOR])[s] || Owns(d2, h, x, s))
    && (forall s | 0 <= s < NUM_SECTORS && d2[s] != d1[s] :: Owns(d2, h, x, s))
  }

  lemma EmptyFileAccounts(d1: Disk, hs: map<int, Header>, x: nat, h: Header)
    requires FREE_MAP_SECTOR in hs && x < NUM_SECTORS && !FreeMap(d1, hs[FREE_MAP_SECTOR])[x] && NewHeader(h, x)
    ensures NewAccounts(d1, hs, x, h, FreeMap(d1, hs[FREE_MAP_SECTOR])[x := true], d1[x := Image(h)])
  {
    hide FreeMap, Image;
    var d2 := d1[x := Image(h)];
    forall s | 0 <= s < NUM_SECTORS
      ensures Owns(d2, h, x, s) <==> s == x
    {
      assert IsSlot(h, 0) && Slot(d2, h, x, 0) == x;
    }
  }

  lemma NewDirAccounts(d1: Disk, hs: map<int, Header>, x: nat, h: Header, dA: Disk, h1: Header, bits: seq<bool>)
    requires FREE_MAP_SECTOR in hs && x < NUM_SECTORS && !FreeMap(d1, hs[FREE_MAP_SECTOR])[x] && NewHeader(h, x)
    requires |bits| == NUM_SECTORS && WellFormed(d1, h, x)
    requires Grown(d1, h, FreeMap(d1, hs[FREE_MAP_SECTOR])[x := true], dA, h1, bits, x, 2)
    ensures NewAccounts(d1, hs, x, h1, bits, dA[x := Image(h1)])
  {
    hide FreeMap, Image;
    var d2, free := dA[x := Image(h1)], FreeMap(d1, hs[FREE_MAP_SECTOR]);
    forall s | 0 <= s < NUM_SECTORS
      ensures Owns(d2, h1, x, s) ==> !free[s]
      ensures bits[s] <==> free[s] || Owns(d2, h1, x, s)
      ensures s == x ==> Owns(d2, h1, x, s)
    {
      DirectOwns(dA, d2, h1, h1, x, s);
      if Owns(dA, h1, x, s) {
        var k :| IsSlot(h1, k) && Slot(dA, h1, x, k) == s;
      }
      assert IsSlot(h1, 0) && Slot(d2, h1, x, 0) == x;
    }
  }

  lemma FilledAccounts(d1: Disk, hs: map<int, Header>, x: int, h: Header, bits: seq<bool>, d2: Disk, d3: Disk, h3: Header, image: seq<byte>)
    requires NewAccounts(d1, hs, x, h, bits, d2) && WellFormed(d2, h, x) && Stored(d2, h, d3, h3, x, 0, image)
    ensures NewAccounts(d1, hs, x, h3, bits, d3)
  {
    hide FreeMap, FileBytes, Image, InFile;
    forall s | 0 <= s < NUM_SECTORS
      ensures Owns(d3, h3, x, s) == Owns(d2, h, x, s) && (d3[s] != d2[s] ==> Owns(d3, h3, x, s))
    {
      DirectOwns(d2, d3, h, h3, x, s);
      if d3[s] != d2[s] {
        StoreWritesOwn(d2, h, d3, h3, x, 0, image, s);
      }
    }
  }

  /** The writes of `Create`, parent directory, new file and map, come to what is promised of a creation. */
  lemma CreationDone(d: Disk, hs: map<int, Header>, path: text, isDir: bool, x: word, d1: Disk, h: Header, bits: seq<bool>, d2: Disk, d': Disk)
    requires x < NUM_SECTORS
    requires FREE_MAP_SECTOR in hs && DIRECTORY_SECTOR in TablesOf(d, hs) && Elements(path) != []
    requires EntryWritten(d, hs, ParentOf(TablesOf(d, hs), path), Last(Elements(path)), x, d1) && NewAccounts(d1, hs, x, h, bits, d2)
    requires Volume(d', hs[x as int := h]) && OthersKept(d1, d', hs) && FreeMap(d', hs[FREE_MAP_SECTOR]) == bits
    requires forall s | 0 <= s < NUM_SECTORS && d'[s] != d2[s] :: InFile(d1, hs[FREE_MAP_SECTOR], FREE_MAP_SECTOR, s)
    requires NewContents(d', h, x, isDir)
    ensures CreatedIn(d, hs, path, isDir, x, d', hs[x as int := h])
  {
    hide Tree, Volume, FreeMap, Parse, Image, FileBytes, Elements, Lookup, TableIn, Added, DirImage, InFile, NewContents, DirFileOk, TablesOf;
    var p, hs' := ParentOf(TablesOf(d, hs), path), hs[x as int := h];
    DirFacts(d, hs, p);
    HeaderInVolume(d', hs', p);
    HeaderInVolume(d', hs', FREE_MAP_SECTOR);
    HeaderInVolume(d', hs', x);
    forall s | 0 <= s < NUM_SECTORS && d'[s] != d2[s]
      ensures InFile(d, hs[FREE_MAP_SECTOR], FREE_MAP_SECTOR, s)
    {
      MapIsDirect(d1, d, hs, s);
    }
    NewReplaces(d, hs, p, x, d1, h, bits, d2, d');
  }

  lemma NewDirContents(d: Disk, h: Header, x: word, t: Table)
    requires IsDir(h) && h.nsectors == 2 && h.limit == DIR_BYTES && h.capacity >= DIR_BYTES && FileBytes(d, h) == DirImage(x, t)
    requires forall i | 0 <= i < NUM_DIR_ENTRIES :: !InUse(t, i)
    ensures NewContents(d, h, x, true)
  {
    hide FileBytes, DirImage, InUse, TableOf, OwnSector;
    FetchAfterWriteBack(x, t);
  }

  /** The frame of the last step of a creation, the storing of the map. */
  lemma MapStoreFrame(d1: Disk, hs: map<int, Header>, d2: Disk, d': Disk, hm: Header, bytes: seq<byte>)
    requires Volume(d1, hs) && FREE_MAP_SECTOR in hs && WellFormed(d2, hs[FREE_MAP_SECTOR], FREE_MAP_SECTOR)
    requires Stored(d2, hs[FREE_MAP_SECTOR], d', hm, FREE_MAP_SECTOR, 0, bytes)
    ensures forall s | 0 <= s < NUM_SECTORS && d'[s] != d2[s] :: InFile(d1, hs[FREE_MAP_SECTOR], FREE_MAP_SECTOR, s)
  {
    hide Volume, WellFormed, Stored, InFile;
    forall s | 0 <= s < NUM_SECTORS && d'[s] != d2[s]
      ensures InFile(d1, hs[FREE_MAP_SECTOR], FREE_MAP_SECTOR, s)
    {
      StoreWritesOwn(d2, hs[FREE_MAP_SECTOR], d', hm, FREE_MAP_SECTOR, 0, bytes, s);
      MapIsDirect(d1, d2, hs, s);
    }
  }

  lemma NewReplaces(d: Disk, hs: map<int, Header>, p: int, x: word, d1: Disk, h: Header, bits: seq<bool>, d2: Disk, d': Disk)
    requires x < NUM_SECTORS && FREE_MAP_SECTOR in hs && p in hs && 0 <= p < NUM_SECTORS && p != x && x != FREE_MAP_SECTOR && x as int !in hs
    requires FreeMap(d1, hs[FREE_MAP_SECTOR]) == FreeMap(d, hs[FREE_MAP_SECTOR]) && NewAccounts(d1, hs, x, h, bits, d2)
    requires forall s | 0 <= s < NUM_SECTORS && d1[s] != d[s] :: InFile(d, hs[p], p, s)
    requires forall s | 0 <= s < NUM_SECTORS && d'[s] != d2[s] :: InFile(d, hs[FREE_MAP_SECTOR], FREE_MAP_SECTOR, s)
    requires FreeMap(d', hs[FREE_MAP_SECTOR]) == bits && WellFormed(d', h, x) && h.selfSector == x && HdrAt(d', x) == h
    requires HdrAt(d', p) == hs[p] && HdrAt(d', FREE_MAP_SECTOR) == hs[FREE_MAP_SECTOR]
    ensures Replaced(d, hs, x, h, p, d')
  {
    hide FreeMap, Parse, InFile;
    forall s | 0 <= s < NUM_SECTORS
      ensures Owns(d', h, x, s) == Owns(d2, h, x, s)
    {
      DirectOwns(d2, d', h, h, x, s);
    }
    forall k | IsSlot(h, k)
      ensures !FreeMap(d, hs[FREE_MAP_SECTOR])[Slot(d', h, x, k)]
    {
      assert Owns(d', h, x, Slot(d', h, x, k));
    }
  }

  lemma NewDirFacts(d: Disk, hs: map<int, Header>, path: text, x: word, d1: Disk, h: Header)
    requires x < NUM_SECTORS
    requires FREE_MAP_SECTOR in hs && DIRECTORY_SECTOR in TablesOf(d, hs) && Elements(path) != []
    requires EntryWritten(d, hs, ParentOf(TablesOf(d, hs), path), Last(Elements(path)), x, d1) && NewHeader(h, x)
    requires !FreeMap(d1, hs[FREE_MAP_SECTOR])[x]
    ensures var bits := FreeMap(d1, hs[FREE_MAP_SECTOR]);
            && Volume(d1, hs) && Owned(d1, hs, bits) && x < NUM_SECTORS && x as int !in hs
            && WellFormed(d1, h, x) && SlotsMarked(d1, h, x, bits[x := true]) && bits[x := true][0]
            && CountClear(bits[x := true]) == CountClear(bits) - 1
  {
    hide Tree, FreeMap, Owned, Parse, Image, FileBytes, Elements, TablesOf, TableIn, WellFormed;
    var bits := FreeMap(d1, hs[FREE_MAP_SECTOR]);
    VolumeFacts(d1, hs, FREE_MAP_SECTOR);
    HeaderMarked(d1, hs, FREE_MAP_SECTOR);
    NewFileOwned(d1, hs, bits, h, x);
    CountClearAfterMark(bits, x);
  }

  lemma NewDirRoom(d: Disk, h: Header, bits: seq<bool>, d': Disk, h': Header, bits': seq<bool>, x: word)
    requires |bits| == |bits'| == NUM_SECTORS && WellFormed(d, h, x) && NewHeader(h, x) && Grown(d, h, bits, d', h', bits', x, 2)
    ensures h'.capacity >= DIR_BYTES && h'.selfSector == x && h'.nsectors == 2 && h'.ftype == h.ftype && CountClear(bits') == CountClear(bits) - 2
  {
  }

  /**
   * What is left of the attempt to make a directory without room for its table: the parent's entry leads to a header
   * without blocks, whose own sector is the next one that the free map on disk gives away.
   */
  ghost predicate LostHeader(d: Disk, hs: map<int, Header>, d': Disk, path: text)
    requires FREE_MAP_SECTOR in hs && DIRECTORY_SECTOR in TablesOf(d, hs) && Elements(path) != []
  {
    var p, x := ParentOf(TablesOf(d, hs), path), FirstClear(FreeMap(d', hs[FREE_MAP_SECTOR]));
    && x != -1 && x !in hs && NewHeader(HdrAt(d', x), x) && IsDir(HdrAt(d', x))
    && p in hs && Lookup(TableIn(d', hs[p]), Last(Elements(path))) == x
    && !Volume(d', hs[x := HdrAt(d', x)])
  }

  /** In plain terms: the name leads to an empty header of type directory whose sector is clear on disk, and the lowest such. */
  lemma LostHeaderMeans(d: Disk, hs: map<int, Header>, d': Disk, path: text)
    requires FREE_MAP_SECTOR in hs && DIRECTORY_SECTOR in TablesOf(d, hs) && Elements(path) != [] && LostHeader(d, hs, d', path)
    ensures var p := ParentOf(TablesOf(d, hs), path);
            && p in hs
            && var x := Lookup(TableIn(d', hs[p]), Last(Elements(path)));
            && 0 <= x < NUM_SECTORS && x !in hs && !FreeMap(d', hs[FREE_MAP_SECTOR])[x]
            && (forall s | 0 <= s < x :: FreeMap(d', hs[FREE_MAP_SECTOR])[s])
            && HdrAt(d', x).nsectors == 0 && HdrAt(d', x).limit == 0 && HdrAt(d', x).ftype == 1
            && !Volume(d', hs[x := HdrAt(d', x)])
  {
    hide Volume, FreeMap, Parse, Lookup, Elements, TableIn;
  }

  lemma HeaderIsLost(d: Disk, hs: map<int, Header>, path: text, x: word, d1: Disk, h: Header)
    requires x < NUM_SECTORS
    requires FREE_MAP_SECTOR in hs && DIRECTORY_SECTOR in TablesOf(d, hs) && Elements(path) != []
    requires EntryWritten(d, hs, ParentOf(TablesOf(d, hs), path), Last(Elements(path)), x, d1) && NewHeader(h, x) && IsDir(h)
    requires FirstClear(FreeMap(d1, hs[FREE_MAP_SECTOR])) == x
    ensures LostHeader(d, hs, d1[x := Image(h)], path)
  {
    hide Tree, FreeMap, Owned, Parse, Image, FileBytes, Elements, TablesOf, TableIn, WellFormed, Volume, Lookup, Added, DirFileOk, Accounted;
    EntryAccounts(d, hs, path, x, d1, h);
    LostFacts(d, hs, path, x, d1, h, d1[x := Image(h)]);
    var p, d' := ParentOf(TablesOf(d, hs), path), d1[x := Image(h)];
    if Volume(d', hs[x as int := HdrAt(d', x)]) {
      HeaderMarked(d', hs[x as int := HdrAt(d', x)], x);
    }
  }

  lemma LostFacts(d: Disk, hs: map<int, Header>, path: text, x: word, d1: Disk, h: Header, d': Disk)
    requires x < NUM_SECTORS
    requires FREE_MAP_SECTOR in hs && DIRECTORY_SECTOR in TablesOf(d, hs) && Elements(path) != []
    requires EntryWritten(d, hs, ParentOf(TablesOf(d, hs), path), Last(Elements(path)), x, d1) && x as int !in hs
    requires Accounted(d1, hs, x, h, FreeMap(d1, hs[FREE_MAP_SECTOR])[x := true], d')
    ensures HdrAt(d', x) == h && FreeMap(d', hs[FREE_MAP_SECTOR]) == FreeMap(d1, hs[FREE_MAP_SECTOR])
    ensures var p := ParentOf(TablesOf(d, hs), path); p in hs && Lookup(TableIn(d', hs[p]), Last(Elements(path))) == x
  {
    hide Tree, Owned, Parse, FileBytes, Elements, Volume, Lookup, Added, DirFileOk, BitsOf, ToWords, TableOf;
    var p, name := ParentOf(TablesOf(d, hs), path), Last(Elements(path));
    assert FileBytes(d', hs[FREE_MAP_SECTOR]) == FileBytes(d1, hs[FREE_MAP_SECTOR]);
    assert p in TablesOf(d1, hs) && FileBytes(d', hs[p]) == FileBytes(d1, hs[p]);
    DirHasDistinctNames(d, hs, p);
    AddThenFindAll(TablesOf(d, hs)[p], name, x);
  }

  lemma CreatedShape(d: Disk, hs: map<int, Header>, path: text, isDir: bool, x: word, d': Disk, hs': map<int, Header>)
    requires FREE_MAP_SECTOR in hs && DIRECTORY_SECTOR in TablesOf(d, hs) && Elements(path) != []
    requires CreatedIn(d, hs, path, isDir, x, d', hs')
    ensures x as int !in hs && hs'.Keys == hs.Keys + {x as int}
    ensures hs'[x].ftype == (if isDir then 1 else 0) && hs'[x].nsectors == if isDir then 2 else 0
  {
    hide Replaced, FileBytes, DirImage, Added, Elements, TablesOf, DirFileOk, TableIn, InUse, Lookup;
  }

  /** What the methods need to know of a creation. */
  lemma CreationKeeps(d: Disk, hs: map<int, Header>, path: text, isDir: bool, x: word, d': Disk, hs': map<int, Header>)
    requires FREE_MAP_SECTOR in hs && DIRECTORY_SECTOR in TablesOf(d, hs) && Elements(path) != []
    requires Tree(d, hs) && CreatedIn(d, hs, path, isDir, x, d', hs')
    ensures Tree(d', hs') && x > PIPE_SECTOR && DIRECTORY_SECTOR in hs && DIRECTORY_SECTOR in TablesOf(d', hs')
  {
    hide Tree, TablesOf, CreatedIn, Elements, Lookup, Added, TableIn, InUse, FileBytes;
    CreationKeepsTree(d, hs, path, isDir, x, d', hs');
  }

  lemma StoredShape(d: Disk, h: Header, d': Disk, h': Header, f: int, position: nat, from: seq<byte>)
    requires WellFormed(d, h, f) && position <= h.limit && Stored(d, h, d', h', f, position, from)
    ensures h'.nsectors == h.nsectors
  {
  }
}
