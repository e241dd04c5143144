/** code/filesys/filesys.cc: the tree of directories over a volume, and how its operations change both. */
module FileTrees {
  import opened Words
  import opened Bitmaps
  import opened SynchDisks
  import opened FileHeaders
  import opened FileContents
  import opened Volumes
  import opened Paths
  import opened DirTables
  import opened Directories

  const DIRECTORY_SECTOR := 1
  const PIPE_SECTOR := 2

  predicate IsDir(h: Header) {
    h.ftype == TYPE_DIR
  }

  /** The table of a directory with header sector `f` in a volume with header sectors `files`. */
  ghost predicate DirOk(files: set<int>, t: Table, f: int) {
    && DistinctNames(t)
    && forall i | Live(t, i) :: SectorOf(t, i) in files && SectorOf(t, i) > PIPE_SECTOR && SectorOf(t, i) != f
  }

  /** Entries of two directories name different files, unless they are the same entry. */
  ghost predicate Apart(t: Table, f: int, u: Table, g: int) {
    forall i, j | Live(t, i) && Live(u, j) && SectorOf(t, i) == SectorOf(u, j) :: f == g && i == j
  }

  /** The directories `dirs` with their tables form a tree: every entry names a file, no file is entered twice. */
  ghost predicate TreeOver(files: set<int>, dirs: map<int, Table>) {
    && {FREE_MAP_SECTOR, DIRECTORY_SECTOR, PIPE_SECTOR} <= files
    && DIRECTORY_SECTOR in dirs && FREE_MAP_SECTOR !in dirs && PIPE_SECTOR !in dirs
    && (forall f | f in dirs :: f in files && DirOk(files, dirs[f], f))
    && (forall f, g | f in dirs && g in dirs :: Apart(dirs[f], f, dirs[g], g))
  }

  /** The table that a file of the right size holds. */
  function TableIn(d: Disk, h: Header): Table {
    if h.limit == DIR_BYTES then TableOf(FileBytes(d, h)) else seq(TABLE_SIZE, i => 0)
  }

  /** The tables of all directories of a volume. */
  ghost function TablesOf(d: Disk, hs: map<int, Header>): (m: map<int, Table>)
    ensures forall f :: f in m <==> f in hs && IsDir(hs[f])
    ensures forall f | f in m :: m[f] == TableIn(d, hs[f])
  {
    map f | f in hs && IsDir(hs[f]) :: TableIn(d, hs[f])
  }

  /** The file of a directory: its own header sector in front of its table. */
  ghost predicate DirFileOk(d: Disk, h: Header, f: int) {
    h.limit == DIR_BYTES && h.capacity >= DIR_BYTES && OwnSector(FileBytes(d, h)) == f
  }

  /** The invariant of the file system: a sound volume whose directories form a tree. */
  ghost predicate Tree(d: Disk, hs: map<int, Header>) {
    && Volume(d, hs) && TreeOver(hs.Keys, TablesOf(d, hs))
    && forall f | f in hs && IsDir(hs[f]) :: DirFileOk(d, hs[f], f)
  }

  // Entries come and go.

  /** `t'` is `t` with one more live entry `k`, for `x`. */
  ghost predicate OneMore(t: Table, t': Table, k: int, x: word) {
    && 0 <= k < NUM_DIR_ENTRIES && !InUse(t, k)
    && forall i | 0 <= i < NUM_DIR_ENTRIES :: InUse(t', i) == (i == k || InUse(t, i)) && SectorOf(t', i) == if i == k then x else SectorOf(t, i)
  }

  lemma AddedIsOneMore(t: Table, name: text, x: word)
    requires |name| <= FILE_NAME_MAX_LEN && 0 !in name && Added(t, name, x).0
    ensures OneMore(t, Added(t, name, x).1, FirstUnused(t), x)
  {
    var t', k := Added(t, name, x).1, FirstUnused(t);
    forall i | 0 <= i < NUM_DIR_ENTRIES
      ensures InUse(t', i) == (i == k || InUse(t, i)) && SectorOf(t', i) == if i == k then x else SectorOf(t, i)
    {
      EnteredAt(t, k, name, x, i);
    }
  }

  lemma ApartAfterAdd(t: Table, f: int, t': Table, k: int, x: word, u: Table, g: int)
    requires OneMore(t, t', k, x) && Apart(t, f, u, g) && f != g
    requires forall j | Live(u, j) :: SectorOf(u, j) != x
    ensures Apart(t', f, u, g) && Apart(u, g, t', f)
  {
    hide InUse, SectorOf;
  }

  lemma ApartFromItself(t: Table, f: int, t': Table, k: int, x: word)
    requires OneMore(t, t', k, x) && Apart(t, f, t, f) && forall j | Live(t, j) :: SectorOf(t, j) != x
    ensures Apart(t', f, t', f)
  {
    hide InUse, SectorOf;
  }

  /** Entering a new file under a name that was free. */
  lemma TreeAfterAdd(files: set<int>, dirs: map<int, Table>, p: int, name: text, x: word)
    requires TreeOver(files, dirs) && p in dirs && x !in files && x > PIPE_SECTOR
    requires |name| <= FILE_NAME_MAX_LEN && 0 !in name && Added(dirs[p], name, x).0
    ensures TreeOver(files + {x as int}, dirs[p := Added(dirs[p], name, x).1])
  {
    hide InUse, SectorOf, Added, Apart, DistinctNames, OneMore;
    var t, t' := dirs[p], Added(dirs[p], name, x).1;
    var dirs', files' := dirs[p := t'], files + {x as int};
    AddThenFind(t, name, x, name);
    AddedIsOneMore(t, name, x);
    forall f | f in dirs'
      ensures f in files' && DirOk(files', dirs'[f], f)
    {
      assert DirOk(files, dirs[f], f);
      if f == p { DirOkAfterAdd(files, t, t', FirstUnused(t), x, p); }
    }
    forall f, g | f in dirs' && g in dirs'
      ensures Apart(dirs'[f], f, dirs'[g], g)
    {
      assert Apart(dirs[f], f, dirs[g], g) && DirOk(files, dirs[f], f) && DirOk(files, dirs[g], g);
      if f == p && g == p {
        ApartFromItself(t, p, t', FirstUnused(t), x);
      } else if f == p {
        ApartAfterAdd(t, p, t', FirstUnused(t), x, dirs[g], g);
      } else if g == p {
        assert Apart(dirs[g], g, dirs[f], f);
        ApartAfterAdd(t, p, t', FirstUnused(t), x, dirs[f], f);
      }
    }
  }

  lemma DirOkAfterAdd(files: set<int>, t: Table, t': Table, k: int, x: word, p: int)
    requires DirOk(files, t, p) && OneMore(t, t', k, x) && DistinctNames(t') && x > PIPE_SECTOR && x != p
    ensures DirOk(files + {x as int}, t', p)
  {
    hide InUse, SectorOf;
  }

  /** A new directory starts with no entries. */
  lemma TreeWithEmptyDir(files: set<int>, dirs: map<int, Table>, x: int, t: Table)
    requires TreeOver(files, dirs) && x in files && x !in dirs && PIPE_SECTOR < x
    requires forall i | 0 <= i < NUM_DIR_ENTRIES :: !InUse(t, i)
    ensures TreeOver(files, dirs[x := t])
  {
    hide InUse, SectorOf;
    var dirs' := dirs[x := t];
    forall f | f in dirs'
      ensures f in files && DirOk(files, dirs'[f], f)
    {
    }
  }

  lemma RemovedIsOneLess(t: Table, name: text)
    requires Removed(t, name).0 && DistinctNames(t)
    ensures Live(t, IndexOf(t, name)) && Lookup(t, name) == SectorOf(t, IndexOf(t, name))
    ensures DistinctNames(Removed(t, name).1)
    ensures forall i :: Live(Removed(t, name).1, i) <==> Live(t, i) && i != IndexOf(t, name)
    ensures forall i | Live(t, i) :: SectorOf(Removed(t, name).1, i) == SectorOf(t, i)
  {
    hide NameOf, SectorOf;
    var t', k := Removed(t, name).1, IndexOf(t, name);
    RemoveThenFind(t, name, name);
    forall i | 0 <= i < NUM_DIR_ENTRIES
      ensures InUse(t', i) == (i != k && InUse(t, i)) && SectorOf(t', i) == SectorOf(t, i)
    {
      DroppedAt(t, k, i);
    }
  }

  /** Taking the entry of `x` out of directory `p`, and `x` with all it contains out of the tree. */
  lemma TreeAfterRemove(files: set<int>, dirs: map<int, Table>, p: int, name: text)
    requires TreeOver(files, dirs) && p in dirs && Removed(dirs[p], name).0
    ensures var x := Lookup(dirs[p], name);
            && x > PIPE_SECTOR && x in files && x != p
            && TreeOver(files - {x}, dirs[p := Removed(dirs[p], name).1] - {x})
  {
    hide InUse, SectorOf, Removed, DistinctNames, Lookup, Live;
    var t, t' := dirs[p], Removed(dirs[p], name).1;
    var x, k := Lookup(t, name), IndexOf(t, name);
    assert DirOk(files, t, p);
    RemovedIsOneLess(t, name);
    var dirs', files' := dirs[p := t'] - {x}, files - {x};
    forall f | f in dirs'
      ensures f in files' && DirOk(files', dirs'[f], f)
    {
      assert DirOk(files, dirs[f], f) && Apart(dirs[f], f, t, p);
    }
    forall f, g | f in dirs' && g in dirs'
      ensures Apart(dirs'[f], f, dirs'[g], g)
    {
      assert Apart(dirs[f], f, dirs[g], g);
    }
  }

  // Walking along a path.

  /** The directory that should hold the last of the names `es`, walking from directory `f`; -1 if there is none. */
  function ParentIn(dirs: map<int, Table>, f: int, es: seq<text>): (p: int)
    requires es != [] && f in dirs
    ensures p == -1 || p in dirs
    decreases |es|
  {
    if |es| == 1 then f
    else
      var next := Lookup(dirs[f], es[0]);
      if next == -1 || next !in dirs then -1 else ParentIn(dirs, next, es[1..])
  }

  /** The header sector of the file that the names lead to, or -1. */
  function Resolve(dirs: map<int, Table>, f: int, es: seq<text>): int
    requires es != [] && f in dirs
  {
    var p := ParentIn(dirs, f, es);
    if p == -1 then -1 else Lookup(dirs[p], es[|es| - 1])
  }

  /** `dirs'` is `dirs` with one more name in directory `p`, and perhaps a new directory. */
  ghost predicate NameAdded(dirs: map<int, Table>, dirs': map<int, Table>, p: int, name: text, x: int) {
    && p in dirs && dirs.Keys <= dirs'.Keys && x !in dirs && Lookup(dirs[p], name) == -1
    && Lookup(dirs'[p], name) == x && (forall other | other != name :: Lookup(dirs'[p], other) == Lookup(dirs[p], other))
    && forall g | g in dirs && g != p :: dirs'[g] == dirs[g]
  }

  /** Adding a name leaves every walk that led somewhere as it was. */
  lemma {:induction false} WalkAfterAdd(dirs: map<int, Table>, dirs': map<int, Table>, p: int, name: text, x: int, f: int, es: seq<text>)
    requires NameAdded(dirs, dirs', p, name, x) && es != [] && f in dirs && ParentIn(dirs, f, es) != -1
    ensures ParentIn(dirs', f, es) == ParentIn(dirs, f, es)
    decreases |es|
  {
    hide Lookup;
    if |es| > 1 {
      assert f == p ==> es[0] != name;
      WalkAfterAdd(dirs, dirs', p, name, x, Lookup(dirs[f], es[0]), es[1..]);
    }
  }

  /** After adding, the new path leads to the new file, and every path that led to a file still leads to it. */
  lemma ResolveAfterAdd(dirs: map<int, Table>, dirs': map<int, Table>, p: int, name: text, x: int, f: int, es: seq<text>)
    requires NameAdded(dirs, dirs', p, name, x) && es != [] && f in dirs && ParentIn(dirs, f, es) != -1
    ensures ParentIn(dirs, f, es) == p && es[|es| - 1] == name ==> Resolve(dirs', f, es) == x
    ensures Resolve(dirs, f, es) != -1 ==> Resolve(dirs', f, es) == Resolve(dirs, f, es)
  {
    hide Lookup;
    WalkAfterAdd(dirs, dirs', p, name, x, f, es);
  }

  ghost predicate NameRemoved(dirs: map<int, Table>, dirs': map<int, Table>, p: int, name: text) {
    && p in dirs' && dirs'.Keys <= dirs.Keys
    && Lookup(dirs'[p], name) == -1 && (forall other | other != name :: Lookup(dirs'[p], other) == Lookup(dirs[p], other))
    && forall g | g in dirs' && g != p :: dirs'[g] == dirs[g]
  }

  lemma {:induction false} WalkAfterRemove(dirs: map<int, Table>, dirs': map<int, Table>, p: int, name: text, f: int, es: seq<text>)
    requires NameRemoved(dirs, dirs', p, name) && es != [] && f in dirs'
    ensures ParentIn(dirs', f, es) == ParentIn(dirs, f, es) || ParentIn(dirs', f, es) == -1
    decreases |es|
  {
    hide Lookup;
    if |es| > 1 {
      var next := Lookup(dirs'[f], es[0]);
      if next != -1 && next in dirs' {
        assert f == p ==> es[0] != name;
        WalkAfterRemove(dirs, dirs', p, name, next, es[1..]);
      }
    }
  }

  /** After removing, the path leads nowhere, and no path leads anywhere else than before. */
  lemma ResolveAfterRemove(dirs: map<int, Table>, dirs': map<int, Table>, p: int, name: text, f: int, es: seq<text>)
    requires NameRemoved(dirs, dirs', p, name) && es != [] && f in dirs'
    ensures ParentIn(dirs, f, es) == p && es[|es| - 1] == name ==> Resolve(dirs', f, es) == -1
    ensures Resolve(dirs', f, es) == Resolve(dirs, f, es) || Resolve(dirs', f, es) == -1
  {
    hide Lookup;
    WalkAfterRemove(dirs, dirs', p, name, f, es);
  }

  lemma {:induction false} ElementsAreNames(path: text)
    requires IsPath(path)
    ensures forall e | e in Elements(path) :: 0 < |e| <= FILE_NAME_MAX_LEN && 0 !in e
    decreases |path|
  {
    var r := SkipElem(path);
    if r.Some? {
      var q := SkipSlashes(path);
      SlashesKeepPath(path);
      SlashesKeepPath(q[|FrontElement(q)|..]);
      ElementsAreNames(r.rest);
    }
  }

  lemma {:induction false} SlashesKeepPath(path: text)
    requires IsPath(path)
    ensures IsPath(SkipSlashes(path))
  {
    if path != [] && path[0] == SLASH {
      SlashesKeepPath(path[1..]);
    }
  }

  // What the methods need to know about a directory of the tree.

  lemma DirFacts(d: Disk, hs: map<int, Header>, f: int)
    requires Tree(d, hs) && f in hs && IsDir(hs[f])
    ensures 0 <= f < NUM_SECTORS && HdrAt(d, f) == hs[f] && WellFormed(d, hs[f], f) && hs[f].limit == DIR_BYTES
    ensures hs[f].selfSector == f && hs[f].capacity >= DIR_BYTES && OwnSector(FileBytes(d, hs[f])) == f
    ensures f in TablesOf(d, hs) && TablesOf(d, hs)[f] == TableOf(FileBytes(d, hs[f])) && DirOk(hs.Keys, TablesOf(d, hs)[f], f)
    ensures f != FREE_MAP_SECTOR && f != PIPE_SECTOR
  {
    hide FileBytes, FreeMap, Parse, DirOk, TableOf, OwnSector;
    VolumeFacts(d, hs, f);
    assert f in TablesOf(d, hs);
  }

  lemma LookupFacts(d: Disk, hs: map<int, Header>, f: int, name: text)
    requires Tree(d, hs) && f in hs && IsDir(hs[f])
    ensures var next := Lookup(TablesOf(d, hs)[f], name);
            next != -1 ==> next in hs && PIPE_SECTOR < next < NUM_SECTORS && HdrAt(d, next) == hs[next] &&
                           (next in TablesOf(d, hs) <==> IsDir(hs[next]))
  {
    hide FileBytes, FreeMap, Parse, TableOf, OwnSector, SectorOf, NameOf;
    DirFacts(d, hs, f);
  }

  // What the operations do to the tree, step by step.

  /** All files but the free map keep their contents. */
  ghost predicate OthersKept(d: Disk, d': Disk, hs: map<int, Header>) {
    forall g | g in hs && g != FREE_MAP_SECTOR :: FileBytes(d', hs[g]) == FileBytes(d, hs[g])
  }

  lemma FreeMapIsNoDir(d: Disk, hs: map<int, Header>)
    requires Tree(d, hs)
    ensures FREE_MAP_SECTOR in hs && !IsDir(hs[FREE_MAP_SECTOR]) && hs[FREE_MAP_SECTOR].capacity == FREE_MAP_BYTES
    ensures PIPE_SECTOR in hs && !IsDir(hs[PIPE_SECTOR]) && DIRECTORY_SECTOR in hs && IsDir(hs[DIRECTORY_SECTOR])
    ensures FreeMap(d, hs[FREE_MAP_SECTOR])[0] && FreeMap(d, hs[FREE_MAP_SECTOR])[1] && FreeMap(d, hs[FREE_MAP_SECTOR])[2]
  {
    hide FileBytes, FreeMap, Parse;
    var dirs := TablesOf(d, hs);
    assert (0 in dirs <==> 0 in hs && IsDir(hs[0])) && (1 in dirs <==> 1 in hs && IsDir(hs[1])) && (2 in dirs <==> 2 in hs && IsDir(hs[2]));
    HeaderMarked(d, hs, 0);
    HeaderMarked(d, hs, 1);
    HeaderMarked(d, hs, 2);
  }

  lemma HeaderMarked(d: Disk, hs: map<int, Header>, f: int)
    requires Volume(d, hs) && f in hs
    ensures 0 <= f < NUM_SECTORS && FreeMap(d, hs[FREE_MAP_SECTOR])[f]
  {
    hide FreeMap, Parse;
    assert SlotsMarked(d, hs[f], f, FreeMap(d, hs[FREE_MAP_SECTOR]));
    assert IsSlot(hs[f], 0) && Slot(d, hs[f], f, 0) == f;
  }

  lemma TablesChanged(d: Disk, d': Disk, hs: map<int, Header>, p: int, t': Table)
    requires p in hs && IsDir(hs[p]) && TableIn(d', hs[p]) == t'
    requires forall g | g in hs && g != p :: FileBytes(d', hs[g]) == FileBytes(d, hs[g])
    ensures TablesOf(d', hs) == TablesOf(d, hs)[p := t']
    ensures forall f | f in hs && f != p && IsDir(hs[f]) :: DirFileOk(d', hs[f], f) == DirFileOk(d, hs[f], f)
  {
    hide FileBytes, TableOf, OwnSector;
    forall f | f in hs && f != p && IsDir(hs[f])
      ensures TableIn(d', hs[f]) == TableIn(d, hs[f])
    {
      assert FileBytes(d', hs[f]) == FileBytes(d, hs[f]);
    }
  }

  /** A directory's new table has been written to its file; the tree need not be one any more. */
  lemma DirWritten(d: Disk, hs: map<int, Header>, p: int, d': Disk, h': Header, t': Table)
    requires Tree(d, hs) && p in hs && IsDir(hs[p]) && WellFormed(d, hs[p], p)
    requires Stored(d, hs[p], d', h', p, 0, DirImage(p, t'))
    ensures h' == hs[p] && Volume(d', hs) && FreeMap(d', hs[FREE_MAP_SECTOR]) == FreeMap(d, hs[FREE_MAP_SECTOR])
    ensures TablesOf(d', hs) == TablesOf(d, hs)[p := t']
    ensures forall f | f in hs && IsDir(hs[f]) :: DirFileOk(d', hs[f], f)
    ensures forall g | g in hs && g != p :: FileBytes(d', hs[g]) == FileBytes(d, hs[g])
  {
    hide WellFormed, Stored, Owned, FreeMap, Parse, FileBytes, Image, TreeOver, DirImage, OwnSector, TableOf;
    DirFacts(d, hs, p);
    StoredFacts(d, hs[p], d', h', p, 0, DirImage(p, t'));
    FreeMapIsNoDir(d, hs);
    VolumeAfterStore(d, hs, d', h', p, 0, DirImage(p, t'));
    assert hs[p := h'] == hs;
    assert FileBytes(d, hs[p])[..0] + DirImage(p, t') == DirImage(p, t');
    FetchAfterWriteBack(p, t');
    assert TableIn(d', hs[p]) == t';
    TablesChanged(d, d', hs, p, t');
  }

  /** The header of a new, empty file. */
  predicate NewHeader(h: Header, x: int) {
    h.limit == h.capacity == h.nsectors == h.dataSectors[NUM_DIRECT] == 0 && h.selfSector == x
  }

  lemma ClearIsNew(d: Disk, hs: map<int, Header>, x: int)
    requires Volume(d, hs) && TreeOver(hs.Keys, TablesOf(d, hs)) && 0 <= x < NUM_SECTORS && !FreeMap(d, hs[FREE_MAP_SECTOR])[x]
    ensures x !in hs && x > PIPE_SECTOR
  {
    hide FreeMap, Parse, Owned;
    if x in hs { HeaderMarked(d, hs, x); }
    assert {FREE_MAP_SECTOR, DIRECTORY_SECTOR, PIPE_SECTOR} <= hs.Keys;
    HeaderMarked(d, hs, 0);
    HeaderMarked(d, hs, 1);
    HeaderMarked(d, hs, 2);
  }

  /** The new header has been put in its sector: all files, old and new, are accounted for by `bits`. */
  ghost predicate Accounted(d1: Disk, hs: map<int, Header>, x: int, h: Header, bits: seq<bool>, d: Disk) {
    && Owned(d, hs[x := h], bits)
    && (forall g | g in hs && g != x :: FileBytes(d, hs[g]) == FileBytes(d1, hs[g]) && (0 <= g < NUM_SECTORS ==> d[g] == d1[g]))
    && 0 <= x < NUM_SECTORS && HdrAt(d, x) == h
  }

  lemma FileAccounted(d: Disk, hs: map<int, Header>, bits: seq<bool>, x: int, h: Header)
    requires Owned(d, hs, bits) && |bits| == NUM_SECTORS && 0 <= x < NUM_SECTORS && !bits[x] && NewHeader(h, x)
    ensures x !in hs && Accounted(d, hs, x, h, bits[x := true], d[x := Image(h)])
  {
    hide WellFormed, Owned, Parse, FileBytes, Image;
    NewFileOwned(d, hs, bits, h, x);
    HeaderPut(d, hs[x := h], bits[x := true], x);
    var hs' := hs[x := h];
    assert forall g | g in hs && g != x :: g in hs' && hs'[g] == hs[g];
  }

  lemma DirAccounted(d: Disk, hs: map<int, Header>, bits: seq<bool>, x: int, h: Header, d1: Disk, h1: Header, bits1: seq<bool>, n: nat)
    requires Owned(d, hs, bits) && |bits| == NUM_SECTORS && 0 <= x < NUM_SECTORS && !bits[x] && NewHeader(h, x) && WellFormed(d, h, x)
    requires |bits1| == NUM_SECTORS && Grown(d, h, bits[x := true], d1, h1, bits1, x, n)
    ensures x !in hs && Accounted(d, hs, x, h1, bits1, d1[x := Image(h1)]) && WellFormed(d1[x := Image(h1)], h1, x)
  {
    hide WellFormed, Owned, Parse, FileBytes, Image, Grown;
    NewFileOwned(d, hs, bits, h, x);
    var hsx := hs[x := h];
    OwnedAfterGrow(d, hsx, bits[x := true], d1, h1, bits1, x, n);
    assert hsx[x := h1] == hs[x := h1];
    HeaderPut(d1, hs[x := h1], bits1, x);
    var hs' := hs[x := h1];
    assert forall g | g in hs && g != x :: g in hs' && hs'[g] == hs[g] && g in hsx && hsx[g] == hs[g];
    OwnedFacts(d1[x := Image(h1)], hs', bits1, x);
  }

  /** Then the image of the new directory is written to it. */
  lemma DirFilled(d1: Disk, hs: map<int, Header>, x: int, h: Header, bits: seq<bool>, d: Disk, d': Disk, h': Header, image: seq<byte>)
    requires x !in hs && Accounted(d1, hs, x, h, bits, d) && WellFormed(d, h, x) && Stored(d, h, d', h', x, 0, image)
    ensures Accounted(d1, hs, x, h', bits, d') && FileBytes(d', h') == image
    ensures h'.limit == |image| && h'.capacity == h.capacity && h'.ftype == h.ftype
  {
    hide WellFormed, Owned, Parse, FileBytes, Image, Stored;
    var hsx := hs[x := h];
    StoredFacts(d, h, d', h', x, 0, image);
    OwnedAfterStore(d, hsx, bits, d', h', x, 0, image);
    assert hsx[x := h'] == hs[x := h'];
    assert forall g | g in hs && g != x :: g in hsx && hsx[g] == hs[g];
    assert FileBytes(d, h)[..0] + image == image;
  }

  /** The last step of `Create`: the free map goes to disk, and the volume is sound again. */
  lemma CreationCompletes(d: Disk, hs: map<int, Header>, x: int, h: Header, bits: seq<bool>, d1: Disk, d': Disk, hm: Header, bytes: seq<byte>)
    requires Volume(d, hs) && x !in hs && hs[FREE_MAP_SECTOR].limit == FREE_MAP_BYTES
    requires Accounted(d, hs, x, h, bits, d1) && WellFormed(d1, hs[FREE_MAP_SECTOR], FREE_MAP_SECTOR)
    requires |bytes| == FREE_MAP_BYTES && BitsOf(ToWords(bytes), NUM_SECTORS) == bits
    requires Stored(d1, hs[FREE_MAP_SECTOR], d', hm, FREE_MAP_SECTOR, 0, bytes)
    ensures hm == hs[FREE_MAP_SECTOR] && Volume(d', hs[x := h]) && FreeMap(d', hm) == bits
    ensures OthersKept(d, d', hs) && FileBytes(d', h) == FileBytes(d1, h)
  {
    hide WellFormed, Owned, Parse, FileBytes, Image, Stored, BitsOf, ToWords;
    var hsx := hs[x := h];
    StoredFacts(d1, hs[FREE_MAP_SECTOR], d', hm, FREE_MAP_SECTOR, 0, bytes);
    forall f | f in hsx && f != FREE_MAP_SECTOR
      ensures 0 <= f < NUM_SECTORS && HdrAt(d1, f) == hsx[f]
    {
    }
    MapWritten(d1, hsx, bits, d', hm, bytes);
    assert hsx[FREE_MAP_SECTOR := hm] == hsx;
    assert forall g | g in hs && g != x :: g in hsx && hsx[g] == hs[g];
  }

  /** The state after the parent directory has been written: all is ready for the new file `x` to join. */
  ghost predicate EntryWritten(d: Disk, hs: map<int, Header>, p: int, name: text, x: int, d1: Disk) {
    && Tree(d, hs) && p in TablesOf(d, hs) && 0 <= x < NUM_SECTORS && x !in hs && x > PIPE_SECTOR
    && |name| <= FILE_NAME_MAX_LEN && 0 !in name && Added(TablesOf(d, hs)[p], name, x).0
    && Volume(d1, hs) && TablesOf(d1, hs) == TablesOf(d, hs)[p := Added(TablesOf(d, hs)[p], name, x).1]
    && (forall f | f in hs && IsDir(hs[f]) :: DirFileOk(d1, hs[f], f))
    && (forall g | g in hs && g != p :: FileBytes(d1, hs[g]) == FileBytes(d, hs[g]))
    && FREE_MAP_SECTOR in hs && FreeMap(d1, hs[FREE_MAP_SECTOR]) == FreeMap(d, hs[FREE_MAP_SECTOR])
    && 0 <= p < NUM_SECTORS && FileBytes(d1, hs[p]) == DirImage(p, Added(TablesOf(d, hs)[p], name, x).1)
    && (forall s | 0 <= s < NUM_SECTORS && d1[s] != d[s] :: InFile(d, hs[p], p, s))
  }

  lemma NoEntryYet(d: Disk, hs: map<int, Header>, x: int)
    requires x !in hs
    ensures x !in TablesOf(d, hs)
  {
  }

  lemma AddThenFindAll(t: Table, name: text, x: word)
    requires DistinctNames(t) && |name| <= FILE_NAME_MAX_LEN && 0 !in name && Added(t, name, x).0
    ensures var t' := Added(t, name, x).1;
            Lookup(t, name) == -1 && Lookup(t', name) == x && forall other | other != name :: Lookup(t', other) == Lookup(t, other)
  {
    hide Added, Lookup, DistinctNames, InUse;
    AddThenFind(t, name, x, name);
    forall other | other != name
      ensures Lookup(Added(t, name, x).1, other) == Lookup(t, other)
    {
      AddThenFind(t, name, x, other);
    }
  }

  /** The tables after a new file `x` has been entered in directory `p`, whose new table is `t'`. */
  lemma TablesAfterCreation(d: Disk, d': Disk, hs: map<int, Header>, p: int, t': Table, x: int, h: Header)
    requires x !in hs && p in hs && IsDir(hs[p]) && FREE_MAP_SECTOR in hs && !IsDir(hs[FREE_MAP_SECTOR]) && TableIn(d', hs[p]) == t'
    requires forall g | g in hs && g != p && g != FREE_MAP_SECTOR :: FileBytes(d', hs[g]) == FileBytes(d, hs[g])
    ensures TablesOf(d', hs[x := h]) ==
            if IsDir(h) then TablesOf(d, hs)[p := t'][x := TableIn(d', h)] else TablesOf(d, hs)[p := t']
    ensures forall f | f in hs && f != p && IsDir(hs[f]) :: DirFileOk(d', hs[f], f) == DirFileOk(d, hs[f], f)
  {
    hide FileBytes, TableOf, OwnSector;
    forall f | f in hs && f != p && IsDir(hs[f])
      ensures TableIn(d', hs[f]) == TableIn(d, hs[f])
    {
      assert FileBytes(d', hs[f]) == FileBytes(d, hs[f]);
    }
  }

  /** A new file joins the tree; a directory joins it without entries. */
  lemma NewFileJoins(d: Disk, hs: map<int, Header>, p: int, name: text, x: word, h: Header, d': Disk)
    requires Tree(d, hs) && p in TablesOf(d, hs) && 0 <= p < NUM_SECTORS && x as int !in hs && PIPE_SECTOR < x
    requires |name| <= FILE_NAME_MAX_LEN && 0 !in name && Added(TablesOf(d, hs)[p], name, x).0
    requires Volume(d', hs[x as int := h]) && FileBytes(d', hs[p]) == DirImage(p, Added(TablesOf(d, hs)[p], name, x).1)
    requires forall g | g in hs && g != p && g != FREE_MAP_SECTOR :: FileBytes(d', hs[g]) == FileBytes(d, hs[g])
    requires IsDir(h) ==> DirFileOk(d', h, x) && forall i | 0 <= i < NUM_DIR_ENTRIES :: !InUse(TableIn(d', h), i)
    ensures Tree(d', hs[x as int := h])
    ensures var dirs := TablesOf(d, hs)[p := Added(TablesOf(d, hs)[p], name, x).1];
            TablesOf(d', hs[x as int := h]) == if IsDir(h) then dirs[x as int := TableIn(d', h)] else dirs
    ensures NameAdded(TablesOf(d, hs), TablesOf(d', hs[x as int := h]), p, name, x)
  {
    hide Volume, FileBytes, TreeOver, TableOf, OwnSector, Added, Lookup, DistinctNames, InUse, DirImage;
    var t' := Added(TablesOf(d, hs)[p], name, x).1;
    FreeMapIsNoDir(d, hs);
    DirFacts(d, hs, p);
    AddThenFindAll(TablesOf(d, hs)[p], name, x);
    TreeAfterAdd(hs.Keys, TablesOf(d, hs), p, name, x);
    FetchAfterWriteBack(p, t');
    TablesAfterCreation(d, d', hs, p, t', x, h);
    NoEntryYet(d, hs, x);
    assert hs[x as int := h].Keys == hs.Keys + {x as int};
    if IsDir(h) {
      TreeWithEmptyDir(hs.Keys + {x as int}, TablesOf(d, hs)[p := t'], x, TableIn(d', h));
    }
  }

  // Removal.

  /** The free map in memory after `Deallocate` and the clearing of the header's bit. */
  ghost predicate GivenBack(d: Disk, h: Header, x: int, bits: seq<bool>, bits': seq<bool>) {
    |bits| == |bits'| == NUM_SECTORS && forall s: nat | s < NUM_SECTORS :: bits'[s] <==> bits[s] && s !in Freed(d, h) && s != x
  }

  /** A part-filled indirect block makes the removal give back sector 0 as well, which holds the free map's header. */
  lemma ReservedSectorLost(d: Disk, h: Header, x: int, bits: seq<bool>, bits': seq<bool>)
    requires WellFormed(d, h, x) && x != 0 && bits != [] && bits[0] && GivenBack(d, h, x, bits, bits')
    ensures bits'[0] <==> !PartFilledIndirect(h)
  {
    FreedSectors(d, h, x, 0);
  }

  /** A file leaves the tree: its entry is gone from directory `p`, and so is the file from the volume. */
  lemma FileLeaves(d: Disk, hs: map<int, Header>, p: int, name: text, x: int, d': Disk)
    requires Tree(d, hs) && p in TablesOf(d, hs) && 0 <= p < NUM_SECTORS && Removed(TablesOf(d, hs)[p], name).0
    requires x == Lookup(TablesOf(d, hs)[p], name) && x in hs
    requires Volume(d', hs - {x}) && p in hs && FileBytes(d', hs[p]) == DirImage(p, Removed(TablesOf(d, hs)[p], name).1)
    requires forall g | g in hs && g != x && g != p && g != FREE_MAP_SECTOR :: FileBytes(d', hs[g]) == FileBytes(d, hs[g])
    ensures Tree(d', hs - {x}) && x > PIPE_SECTOR && x != p
    ensures TablesOf(d', hs - {x}) == TablesOf(d, hs)[p := Removed(TablesOf(d, hs)[p], name).1] - {x}
    ensures NameRemoved(TablesOf(d, hs), TablesOf(d', hs - {x}), p, name)
  {
    hide Volume, FileBytes, TreeOver, Removed, Lookup, DirImage, DistinctNames, DirOk, TableOf, OwnSector;
    var t' := Removed(TablesOf(d, hs)[p], name).1;
    DirFacts(d, hs, p);
    FreeMapIsNoDir(d, hs);
    TreeAfterRemove(hs.Keys, TablesOf(d, hs), p, name);
    FetchAfterWriteBack(p, t');
    TablesAfterRemoval(d, d', hs, p, t', x);
    DirHasDistinctNames(d, hs, p);
    RemoveThenFindAll(TablesOf(d, hs)[p], name);
    assert (hs - {x}).Keys == hs.Keys - {x};
  }

  lemma TablesAfterRemoval(d: Disk, d': Disk, hs: map<int, Header>, p: int, t': Table, x: int)
    requires p in hs && IsDir(hs[p]) && p != x && FREE_MAP_SECTOR in hs && !IsDir(hs[FREE_MAP_SECTOR]) && TableIn(d', hs[p]) == t'
    requires forall g | g in hs && g != x && g != p && g != FREE_MAP_SECTOR :: FileBytes(d', hs[g]) == FileBytes(d, hs[g])
    ensures TablesOf(d', hs - {x}) == TablesOf(d, hs)[p := t'] - {x}
    ensures forall f | f in hs && f != p && f != x && IsDir(hs[f]) :: DirFileOk(d', hs[f], f) == DirFileOk(d, hs[f], f)
  {
    hide FileBytes, TableOf, OwnSector;
    forall f | f in hs && f != p && f != x && IsDir(hs[f])
      ensures TableIn(d', hs[f]) == TableIn(d, hs[f])
    {
      assert FileBytes(d', hs[f]) == FileBytes(d, hs[f]);
    }
  }

  lemma DirHasDistinctNames(d: Disk, hs: map<int, Header>, p: int)
    requires Tree(d, hs) && p in TablesOf(d, hs)
    ensures DistinctNames(TablesOf(d, hs)[p])
  {
    DirFacts(d, hs, p);
  }

  lemma RemoveThenFindAll(t: Table, name: text)
    requires DistinctNames(t) && Removed(t, name).0
    ensures var t' := Removed(t, name).1;
            Lookup(t', name) == -1 && forall other | other != name :: Lookup(t', other) == Lookup(t, other)
  {
    hide Removed, Lookup, DistinctNames;
    RemoveThenFind(t, name, name);
    forall other | other != name
      ensures Lookup(Removed(t, name).1, other) == Lookup(t, other)
    {
      RemoveThenFind(t, name, other);
    }
  }

  /** Changing a file that is no directory keeps the tree. */
  lemma TreeAfterChange(d: Disk, hs: map<int, Header>, f: int, d': Disk, h': Header)
    requires Tree(d, hs) && f in hs && f != FREE_MAP_SECTOR && !IsDir(hs[f]) && h'.ftype == hs[f].ftype
    requires Volume(d', hs[f := h']) && forall g | g in hs && g != f && g != FREE_MAP_SECTOR :: FileBytes(d', hs[g]) == FileBytes(d, hs[g])
    ensures Tree(d', hs[f := h']) && TablesOf(d', hs[f := h']) == TablesOf(d, hs)
  {
    hide Volume, FileBytes, TableOf, OwnSector, TreeOver;
    FreeMapIsNoDir(d, hs);
    var hs' := hs[f := h'];
    forall g | g in hs' && IsDir(hs'[g])
      ensures g in hs && IsDir(hs[g]) && TableIn(d', hs'[g]) == TableIn(d, hs[g]) && DirFileOk(d', hs'[g], g) == DirFileOk(d, hs[g], g)
    {
      assert FileBytes(d', hs'[g]) == FileBytes(d, hs[g]);
    }
    assert TablesOf(d', hs') == TablesOf(d, hs);
    assert hs'.Keys == hs.Keys;
  }

  /** `WriteAt` on any file but the free map and the directories keeps the file system, whether or not it has to grow the file. */
  lemma TreeAfterWrite(d: Disk, hs: map<int, Header>, f: int, position: nat, from: seq<byte>, d': Disk, h': Header, size: nat)
    requires Tree(d, hs) && f in hs && f != FREE_MAP_SECTOR && !IsDir(hs[f]) && position <= hs[f].limit && WellFormed(d, hs[f], f)
    requires FREE_MAP_SECTOR in hs
    requires Stored(d, hs[f], d', h', f, position, from) || GrownStored(d, hs, d', h', f, position, from, size)
    ensures Tree(d', hs[f := h']) && TablesOf(d', hs[f := h']) == TablesOf(d, hs)
    ensures FileBytes(d', h') == FileBytes(d, hs[f])[..position] + from
    ensures forall g | g in hs && g != f && g != FREE_MAP_SECTOR :: FileBytes(d', hs[g]) == FileBytes(d, hs[g])
  {
    hide Tree, TablesOf, WellFormed, FreeMap, FileBytes, Replaced, Volume, Image;
    TreeVolume(d, hs);
    if Stored(d, hs[f], d', h', f, position, from) {
      VolumeAfterStore(d, hs, d', h', f, position, from);
    } else {
      ReplacedKeepsVolume(d, hs, f, h', FREE_MAP_SECTOR, d');
    }
    TreeAfterChange(d, hs, f, d', h');
  }

  lemma TreeVolume(d: Disk, hs: map<int, Header>)
    requires Tree(d, hs)
    ensures Volume(d, hs) && FREE_MAP_SECTOR in hs && TreeOver(hs.Keys, TablesOf(d, hs))
  {
    hide Volume, TreeOver;
    assert FREE_MAP_SECTOR in hs by { FreeMapIsNoDir(d, hs); }
  }
}
