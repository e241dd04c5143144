/** code/filesys/filesys.cc: which files the operations leave within reach of the root directory. */
module Reachability {
  import opened Words
  import opened Bitmaps
  import opened SynchDisks
  import opened FileHeaders
  import opened FileContents
  import opened Volumes
  import opened Paths
  import opened DirTables
  import opened Directories
  import opened FileTrees
  import opened PathWalks
  import opened Creations
  import opened Removals

  /** Some names, walked from the root, lead to `f`. */
  ghost predicate Reached(dirs: map<int, Table>, f: int) {
    DIRECTORY_SECTOR in dirs && exists es: seq<text> :: es != [] && Resolve(dirs, DIRECTORY_SECTOR, es) == f
  }

  /** Every file but the three reserved ones can be reached. */
  ghost predicate AllEntered(d: Disk, hs: map<int, Header>) {
    forall f | f in hs && f > PIPE_SECTOR :: Reached(TablesOf(d, hs), f)
  }

  /** A directory in use. */
  ghost predicate HasEntries(d: Disk, h: Header) {
    IsDir(h) && exists i :: Live(TableIn(d, h), i)
  }

  /** After a creation everything is within reach that was, and the new file is, too. */
  lemma CreationKeepsEntered(d: Disk, hs: map<int, Header>, path: text, isDir: bool, x: word, d': Disk, hs': map<int, Header>)
    requires Tree(d, hs) && FREE_MAP_SECTOR in hs && DIRECTORY_SECTOR in TablesOf(d, hs) && Elements(path) != []
    requires AllEntered(d, hs) && CreatedIn(d, hs, path, isDir, x, d', hs')
    ensures AllEntered(d', hs')
  {
    hide Tree, Lookup, FileBytes, FreeMap, Elements, Added, TablesOf, TableIn, InUse, CreatedIn, Resolve, ParentIn;
    var dirs, dirs' := TablesOf(d, hs), TablesOf(d', hs');
    var p, name := ParentOf(dirs, path), Last(Elements(path));
    CreationKeepsTree(d, hs, path, isDir, x, d', hs');
    CreatedResolves(d, hs, path, isDir, x, d', hs');
    forall f | f in hs' && f > PIPE_SECTOR
      ensures Reached(dirs', f)
    {
      if f == x as int {
        WalkLeads(dirs', path, x);
      } else {
        assert Reached(dirs, f);
        var es: seq<text> :| es != [] && Resolve(dirs, DIRECTORY_SECTOR, es) == f;
        ResolvesThroughParent(dirs, es);
        ResolveAfterAdd(dirs, dirs', p, name, x, DIRECTORY_SECTOR, es);
      }
    }
  }

  lemma WalkLeads(dirs: map<int, Table>, path: text, x: int)
    requires DIRECTORY_SECTOR in dirs && Walk(dirs, DIRECTORY_SECTOR, path, false) == At(x)
    ensures Reached(dirs, x)
  {
    hide Resolve;
    assert Elements(path) != [] && Resolve(dirs, DIRECTORY_SECTOR, Elements(path)) == x;
  }

  lemma ResolvesThroughParent(dirs: map<int, Table>, es: seq<text>)
    requires es != [] && DIRECTORY_SECTOR in dirs
    ensures Resolve(dirs, DIRECTORY_SECTOR, es) != -1 ==> ParentIn(dirs, DIRECTORY_SECTOR, es) != -1
  {
    hide Lookup;
  }

  /** A walk to another file does not go through the entry of a file that holds no entries. */
  lemma {:induction false} WalkPastLeaf(dirs: map<int, Table>, dirs': map<int, Table>, p: int, name: text, x: int, f: int, es: seq<text>)
    requires NameRemoved(dirs, dirs', p, name) && p in dirs && x == Lookup(dirs[p], name) && dirs'.Keys == dirs.Keys - {x}
    requires x in dirs ==> forall other :: Lookup(dirs[x], other) == -1
    requires es != [] && f in dirs' && Resolve(dirs, f, es) != -1 && Resolve(dirs, f, es) != x
    ensures Resolve(dirs', f, es) == Resolve(dirs, f, es)
    decreases |es|
  {
    hide Lookup;
    if |es| > 1 {
      var next := Lookup(dirs[f], es[0]);
      assert Resolve(dirs, f, es) == Resolve(dirs, next, es[1..]);
      if next == x {
        NothingBelow(dirs, x, es[1..]);
      }
      assert f == p ==> es[0] != name;
      WalkPastLeaf(dirs, dirs', p, name, x, next, es[1..]);
    }
  }

  lemma NothingBelow(dirs: map<int, Table>, x: int, es: seq<text>)
    requires es != [] && x in dirs && forall other :: Lookup(dirs[x], other) == -1
    ensures Resolve(dirs, x, es) == -1
  {
    hide Lookup;
  }

  lemma LeafHasNoNames(d: Disk, h: Header, name: text)
    requires !HasEntries(d, h) && IsDir(h)
    ensures Lookup(TableIn(d, h), name) == -1
  {
    hide InUse, TableIn;
    forall i | 0 <= i < NUM_DIR_ENTRIES
      ensures !InUse(TableIn(d, h), i)
    {
      assert !Live(TableIn(d, h), i);
    }
    NothingIn(TableIn(d, h), name);
  }

  /** No entry, no way to it. */
  lemma UnenteredUnreached(dirs: map<int, Table>, f: int)
    requires f != -1 && forall g, j | g in dirs && Live(dirs[g], j) :: SectorOf(dirs[g], j) != f
    ensures !Reached(dirs, f)
  {
    hide Lookup, SectorOf, Live;
    if Reached(dirs, f) {
      var es: seq<text> :| es != [] && Resolve(dirs, DIRECTORY_SECTOR, es) == f;
      var p := ParentIn(dirs, DIRECTORY_SECTOR, es);
      LookupLive(dirs[p], Last(es));
    }
  }

  /** Removing a directory in use strands what it holds. */
  lemma RemovalStrands(d: Disk, hs: map<int, Header>, path: text, x: int, d': Disk, hs': map<int, Header>)
    requires Tree(d, hs) && FREE_MAP_SECTOR in hs && DIRECTORY_SECTOR in TablesOf(d, hs) && Elements(path) != []
    requires RemovedFrom(d, hs, path, x, d', hs') && x in hs && HasEntries(d, hs[x])
    ensures !AllEntered(d', hs')
  {
    hide Tree, FileBytes, TableOf, OwnSector, SectorOf, FreeMap, Lookup, Elements, TableIn, RemovedFrom, Reached, InUse;
    var i :| Live(TableIn(d, hs[x]), i);
    assert TablesOf(d, hs)[x] == TableIn(d, hs[x]);
    OrphansStayMarked(d, hs, path, x, d', hs', i);
    var orphan := SectorOf(TablesOf(d, hs)[x], i);
    DirFacts(d, hs, x);
    assert orphan > PIPE_SECTOR by { EntryAbovePipe(hs.Keys, TablesOf(d, hs)[x], x, i); }
    UnenteredUnreached(TablesOf(d', hs'), orphan);
  }

  lemma EntryAbovePipe(files: set<int>, t: Table, f: int, i: nat)
    requires DirOk(files, t, f) && Live(t, i)
    ensures SectorOf(t, i) > PIPE_SECTOR
  {
  }

  /** Removing anything else leaves every other file where it can be reached. */
  lemma RemovalOfLeafKeepsEntered(d: Disk, hs: map<int, Header>, path: text, x: int, d': Disk, hs': map<int, Header>)
    requires Tree(d, hs) && FREE_MAP_SECTOR in hs && DIRECTORY_SECTOR in TablesOf(d, hs) && Elements(path) != []
    requires AllEntered(d, hs) && RemovedFrom(d, hs, path, x, d', hs') && x in hs && !HasEntries(d, hs[x])
    ensures AllEntered(d', hs')
  {
    hide Tree, Lookup, FileBytes, FreeMap, Elements, Removed, TableIn, InUse, Resolve, HasEntries;
    var dirs, dirs' := TablesOf(d, hs), TablesOf(d', hs');
    var p, name := ParentOf(dirs, path), Last(Elements(path));
    RemovalKeepsTree(d, hs, path, x, d', hs');
    RemovedHeaders(d, hs, path, x, d', hs');
    if x in dirs {
      forall other
        ensures Lookup(dirs[x], other) == -1
      {
        LeafHasNoNames(d, hs[x], other);
      }
    }
    hide RemovedFrom, TablesOf;
    forall f | f in hs' && f > PIPE_SECTOR
      ensures Reached(dirs', f)
    {
      assert Reached(dirs, f);
      var es: seq<text> :| es != [] && Resolve(dirs, DIRECTORY_SECTOR, es) == f;
      WalkPastLeaf(dirs, dirs', p, name, x, DIRECTORY_SECTOR, es);
    }
  }

  /** `Remove` loses nothing exactly if what it removes is not a directory with entries. */
  lemma RemovalKeepsEnteredIff(d: Disk, hs: map<int, Header>, path: text, x: int, d': Disk, hs': map<int, Header>)
    requires Tree(d, hs) && FREE_MAP_SECTOR in hs && DIRECTORY_SECTOR in TablesOf(d, hs) && Elements(path) != []
    requires AllEntered(d, hs) && RemovedFrom(d, hs, path, x, d', hs') && x in hs
    ensures AllEntered(d', hs') <==> !HasEntries(d, hs[x])
  {
    hide Tree, AllEntered, RemovedFrom, HasEntries, Elements, TablesOf;
    if HasEntries(d, hs[x]) {
      RemovalStrands(d, hs, path, x, d', hs');
    } else {
      RemovalOfLeafKeepsEntered(d, hs, path, x, d', hs');
    }
  }
}
