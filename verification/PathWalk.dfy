/** code/filesys/directory.cc: walking along a path, and changing the directory it ends in. */
module PathWalks {
  import opened Words
  import opened Bitmaps
  import opened SynchDisks
  import opened FileHeaders
  import opened FileContents
  import opened Volumes
  import opened OpenFiles
  import opened Paths
  import opened DirTables
  import opened Directories
  import opened FileTrees

  /** What walking a path comes to; `NullPath` is the null pointer that a path without elements makes. */
  datatype Walked = NullPath | NotFound | At(sector: int)

  function Walk(dirs: map<int, Table>, f: int, path: text, nameparent: bool): Walked
    requires f in dirs
  {
    var es := Elements(path);
    if es == [] then NullPath
    else
      var r := if nameparent then ParentIn(dirs, f, es) else Resolve(dirs, f, es);
      if r == -1 then NotFound else At(r)
  }

  lemma WalkUnfolds(dirs: map<int, Table>, f: int, path: text, nameparent: bool)
    requires f in dirs && f != -1
    ensures SkipElem(path).None? ==> Walk(dirs, f, path, nameparent) == NullPath
    ensures SkipElem(path).Some? && SkipElem(path).rest == [] ==>
              Elements(path) == [SkipElem(path).name] &&
              Walk(dirs, f, path, nameparent) ==
                (if nameparent then At(f)
                 else if Lookup(dirs[f], SkipElem(path).name) == -1 then NotFound
                 else At(Lookup(dirs[f], SkipElem(path).name)))
    ensures SkipElem(path).Some? && SkipElem(path).rest != [] ==>
              Elements(path) == [SkipElem(path).name] + Elements(SkipElem(path).rest) && Elements(SkipElem(path).rest) != [] &&
              var next := Lookup(dirs[f], SkipElem(path).name);
              Walk(dirs, f, path, nameparent) ==
                if next == -1 || next !in dirs then NotFound else Walk(dirs, next, SkipElem(path).rest, nameparent)
  {
    hide Lookup;
    if SkipElem(path).Some? {
      var rest := SkipElem(path).rest;
      if rest == [] {
        assert Elements(rest) == [];
      } else {
        assert SkipSlashes(rest) == rest;
        assert Elements(path)[1..] == Elements(rest);
      }
    }
  }

  /** A directory of the tree, opened and fetched into memory. */
  method OpenDirectory(disk: SynchDisk, f: int, ghost hs: map<int, Header>) returns (directory: Directory, file: OpenFile)
    requires disk.Valid() && Tree(disk.sectors, hs) && f in TablesOf(disk.sectors, hs)
    modifies disk.cache
    ensures disk.Valid() && directory.Valid() && file.hdr.Valid() && fresh(directory) && fresh(directory.table) && fresh(file.hdr)
    ensures 0 <= f < NUM_SECTORS && f in hs && IsDir(hs[f]) && file.hdr.Value() == hs[f] && WellFormed(disk.sectors, hs[f], f)
    ensures file.hdr.selfSector == f && file.hdr.capacity >= DIR_BYTES
    ensures directory.sector == f && directory.T() == TablesOf(disk.sectors, hs)[f]
  {
    hide Tree, WellFormed, FileBytes, TableOf, OwnSector, Parse;
    DirFacts(disk.sectors, hs, f);
    var junk: Table := *;
    file := new OpenFile(disk, f);
    directory := new Directory(0, junk);
    directory.FetchFrom(disk, file, f);
  }

  /** `namex`: with `nameparent` the name of the last element is left in the buffer. */
  method Namex(disk: SynchDisk, directory: Directory, path: text, nameparent: bool, name: array<byte>,
               ghost f: int, ghost hs: map<int, Header>) returns (r: Walked)
    requires disk.Valid() && directory.Valid() && IsPath(path) && name.Length == FILE_NAME_MAX_LEN && name != directory.table
    requires Tree(disk.sectors, hs) && f in TablesOf(disk.sectors, hs)
    requires directory.sector == f && directory.T() == TablesOf(disk.sectors, hs)[f]
    modifies name, disk.cache
    ensures disk.Valid() && r == Walk(TablesOf(disk.sectors, hs), f, path, nameparent)
    ensures r.At? && nameparent ==> CString(name[..]) == Elements(path)[|Elements(path)| - 1]
    decreases |path|
  {
    hide Tree, WellFormed, FileBytes, Walk, Elements, Lookup, CString, TableOf, OwnSector, Parse;
    ghost var d, dirs := disk.sectors, TablesOf(disk.sectors, hs);
    DirFacts(d, hs, f);
    WalkUnfolds(dirs, f, path, nameparent);
    ElementShort(path);
    var found, rest := Skipelem(path, name);
    if !found {
      return NullPath;
    }
    if rest == |path| && nameparent {
      return At(directory.sector);
    }
    LookupFacts(d, hs, f, SkipElem(path).name);
    var next := directory.DirLookup(CString(name[..]));
    if next == -1 {
      return NotFound;
    }
    if rest == |path| {
      return At(next);
    }
    var hdr := new FileHeader.Fetch(disk, next);
    if hdr.ftype != TYPE_DIR {
      return NotFound;
    }
    DirFacts(d, hs, next);
    var nextDir, _ := OpenDirectory(disk, next, hs);
    PathTail(path, rest);
    r := Namex(disk, nextDir, path[rest..], nameparent, name, next, hs);
  }

  lemma ElementShort(path: text)
    ensures SkipElem(path).Some? ==> |SkipElem(path).name| <= FILE_NAME_MAX_LEN && |SkipElem(path).rest| < |path|
  {
  }

  lemma PathTail(path: text, rest: nat)
    requires IsPath(path) && rest <= |path|
    ensures IsPath(path[rest..])
  {
  }

  function Last(es: seq<text>): text
    requires es != []
  {
    es[|es| - 1]
  }

  /** The directory that holds, or should hold, the last element of the path. */
  function ParentOf(dirs: map<int, Table>, path: text): (p: int)
    requires DIRECTORY_SECTOR in dirs && Elements(path) != []
    ensures p == -1 || p in dirs
  {
    ParentIn(dirs, DIRECTORY_SECTOR, Elements(path))
  }

  lemma ParentLookupFacts(d: Disk, hs: map<int, Header>, path: text)
    requires Tree(d, hs) && DIRECTORY_SECTOR in TablesOf(d, hs) && Elements(path) != []
    requires Resolve(TablesOf(d, hs), DIRECTORY_SECTOR, Elements(path)) != -1
    ensures var x := Resolve(TablesOf(d, hs), DIRECTORY_SECTOR, Elements(path));
            x in hs && PIPE_SECTOR < x < NUM_SECTORS && HdrAt(d, x) == hs[x]
  {
    hide Tree, Lookup, Elements, Parse;
    LookupFacts(d, hs, ParentOf(TablesOf(d, hs), path), Last(Elements(path)));
  }

  lemma EntryStored(d: Disk, hs: map<int, Header>, p: int, d1: Disk, hp: Header, t: Table)
    requires p in hs && 0 <= p < NUM_SECTORS && WellFormed(d, hs[p], p) && Stored(d, hs[p], d1, hp, p, 0, DirImage(p, t)) && hp == hs[p]
    ensures FileBytes(d1, hs[p]) == DirImage(p, t) && forall s | 0 <= s < NUM_SECTORS && d1[s] != d[s] :: InFile(d, hs[p], p, s)
  {
    hide WellFormed, Stored, FileBytes, DirImage, InFile, Parse;
    StoredFacts(d, hs[p], d1, hp, p, 0, DirImage(p, t));
    assert FileBytes(d, hs[p])[..0] + DirImage(p, t) == DirImage(p, t);
    forall s | 0 <= s < NUM_SECTORS && d1[s] != d[s]
      ensures InFile(d, hs[p], p, s)
    {
      StoreWritesOwn(d, hs[p], d1, hp, p, 0, DirImage(p, t), s);
    }
  }

  lemma EntryIsWritten(d: Disk, hs: map<int, Header>, p: int, name: text, x: word, d1: Disk, hp: Header)
    requires Tree(d, hs) && p in TablesOf(d, hs) && p in hs && 0 <= p < NUM_SECTORS && IsDir(hs[p])
    requires x < NUM_SECTORS && x as int !in hs && x > PIPE_SECTOR
    requires |name| <= FILE_NAME_MAX_LEN && 0 !in name && Added(TablesOf(d, hs)[p], name, x).0
    requires WellFormed(d, hs[p], p) && Stored(d, hs[p], d1, hp, p, 0, DirImage(p, Added(TablesOf(d, hs)[p], name, x).1))
    ensures EntryWritten(d, hs, p, name, x, d1) && FREE_MAP_SECTOR in hs
    ensures FreeMap(d1, hs[FREE_MAP_SECTOR]) == FreeMap(d, hs[FREE_MAP_SECTOR])
  {
    hide Tree, WellFormed, FileBytes, TablesOf, Parse, Added, Stored, FreeMap, Volume, DirFileOk, InFile, DirImage;
    var t := Added(TablesOf(d, hs)[p], name, x).1;
    FreeMapIsNoDir(d, hs);
    DirWritten(d, hs, p, d1, hp, t);
    EntryStored(d, hs, p, d1, hp, t);
  }

  /** `Directory::Add`, on the root directory. */
  method AddPath(disk: SynchDisk, root: Directory, path: text, newSector: word, ghost hs: map<int, Header>) returns (ok: bool)
    requires disk.Valid() && root.Valid() && IsPath(path) && Elements(path) != []
    requires Tree(disk.sectors, hs) && DIRECTORY_SECTOR in TablesOf(disk.sectors, hs)
    requires root.sector == DIRECTORY_SECTOR && root.T() == TablesOf(disk.sectors, hs)[DIRECTORY_SECTOR]
    requires newSector < NUM_SECTORS && newSector as int !in hs && newSector > PIPE_SECTOR
    modifies disk, disk.cache
    ensures disk.Valid() && |Last(Elements(path))| <= FILE_NAME_MAX_LEN
    ensures var dirs, name := TablesOf(old(disk.sectors), hs), Last(Elements(path));
            var p := ParentOf(dirs, path);
            && (ok <==> p != -1 && Added(dirs[p], name, newSector).0)
            && (!ok ==> disk.sectors == old(disk.sectors))
            && (ok ==> EntryWritten(old(disk.sectors), hs, p, name, newSector, disk.sectors) && FREE_MAP_SECTOR in hs &&
                       FreeMap(disk.sectors, hs[FREE_MAP_SECTOR]) == FreeMap(old(disk.sectors), hs[FREE_MAP_SECTOR]))
  {
    hide Tree, WellFormed, FileBytes, Elements, Lookup, CString, TableOf, OwnSector, Parse, Added, Stored, FreeMap, Volume, DirFileOk, TreeOver,
         InFile, DirImage, EntryWritten;
    ghost var d, dirs := disk.sectors, TablesOf(disk.sectors, hs);
    ElementsAreNames(path);
    assert Last(Elements(path)) in Elements(path);
    var name := new byte[FILE_NAME_MAX_LEN];
    var w := Namex(disk, root, path, true, name, DIRECTORY_SECTOR, hs);
    if w == NotFound {
      return false;
    }
    var psector := w.sector;
    var pdir, pfile := OpenDirectory(disk, psector, hs);
    ok := pdir.AddInCurrentDir(CString(name[..]), newSector);
    if ok {
      pdir.WriteBack(disk, pfile, psector);
      EntryIsWritten(d, hs, psector, CString(name[..]), newSector, disk.sectors, pfile.hdr.Value());
    }
  }

  /** `Directory::Remove`, on the root directory. */
  method RemovePath(disk: SynchDisk, root: Directory, path: text, ghost hs: map<int, Header>) returns (ok: bool, ghost hp: Header)
    requires disk.Valid() && root.Valid() && IsPath(path) && Elements(path) != []
    requires Tree(disk.sectors, hs) && DIRECTORY_SECTOR in TablesOf(disk.sectors, hs)
    requires root.sector == DIRECTORY_SECTOR && root.T() == TablesOf(disk.sectors, hs)[DIRECTORY_SECTOR]
    modifies disk, disk.cache
    ensures disk.Valid()
    ensures var dirs, name := TablesOf(old(disk.sectors), hs), Last(Elements(path));
            var p := ParentOf(dirs, path);
            && (ok <==> p != -1 && Removed(dirs[p], name).0)
            && (!ok ==> disk.sectors == old(disk.sectors))
            && (ok ==> WellFormed(old(disk.sectors), hs[p], p) &&
                       Stored(old(disk.sectors), hs[p], disk.sectors, hp, p, 0, DirImage(p, Removed(dirs[p], name).1)))
  {
    hide Tree, WellFormed, FileBytes, Elements, Lookup, CString, TableOf, OwnSector, Parse, Removed, Stored, DirImage;
    ghost var d := disk.sectors;
    ElementsAreNames(path);
    assert Last(Elements(path)) in Elements(path);
    var name := new byte[FILE_NAME_MAX_LEN];
    var w := Namex(disk, root, path, true, name, DIRECTORY_SECTOR, hs);
    if w == NotFound {
      return false, hs[DIRECTORY_SECTOR];
    }
    var psector := w.sector;
    var pdir, pfile := OpenDirectory(disk, psector, hs);
    ok := pdir.RemoveInCurrentDir(CString(name[..]));
    if ok {
      pdir.WriteBack(disk, pfile, psector);
    }
    hp := pfile.hdr.Value();
  }
}
