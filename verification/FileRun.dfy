/** What holds over whole runs of the file system, from formatting on. */
module FileRuns {
  import opened Words
  import opened Bitmaps
  import opened SynchDisks
  import opened FileHeaders
  import opened FileContents
  import opened Volumes
  import opened Paths
  import opened DirTables
  import opened Directories
  import opened FileTrees
  import opened PathWalks
  import opened Creations
  import opened Removals
  import opened Reachability
  import opened Formats

  /** The disk, and the current headers of all files. */
  datatype State = State(disk: Disk, hs: map<int, Header>)

  /** An operation that changes something, with what it chose: a new header sector, or the size by which a file grew. */
  datatype Step =
    | Creation(path: text, isDir: bool, x: word)
    | Removal(path: text, gone: int)
    | Writing(f: int, position: nat, from: seq<byte>, size: nat)

  /** The step leads from `s` to `s'`: which sectors it writes, and what is then in them. */
  ghost predicate Does(s: State, step: Step, s': State) {
    && FREE_MAP_SECTOR in s.hs && DIRECTORY_SECTOR in TablesOf(s.disk, s.hs)
    && match step
       case Creation(path, isDir, x) => Elements(path) != [] && CreatedIn(s.disk, s.hs, path, isDir, x, s'.disk, s'.hs)
       case Removal(path, gone) => Elements(path) != [] && RemovedFrom(s.disk, s.hs, path, gone, s'.disk, s'.hs)
       case Writing(f, position, from, size) =>
         && f in s.hs && f != FREE_MAP_SECTOR && !IsDir(s.hs[f]) && position <= s.hs[f].limit && WellFormed(s.disk, s.hs[f], f)
         && f in s'.hs && s'.hs == s.hs[f := s'.hs[f]]
         && (Stored(s.disk, s.hs[f], s'.disk, s'.hs[f], f, position, from) ||
             GrownStored(s.disk, s.hs, s'.disk, s'.hs[f], f, position, from, size))
  }

  ghost predicate IsRun(run: seq<State>, steps: seq<Step>) {
    && |run| == |steps| + 1 && Formatted(run[0].disk, run[0].hs)
    && forall i | 0 <= i < |steps| :: Does(run[i], steps[i], run[i + 1])
  }

  lemma StepKeepsTree(s: State, step: Step, s': State)
    requires Tree(s.disk, s.hs) && Does(s, step, s')
    ensures Tree(s'.disk, s'.hs)
  {
    hide Tree, WellFormed, Stored, GrownStored, CreatedIn, RemovedFrom, FileBytes, TablesOf, Elements, Lookup;
    match step
    case Creation(path, isDir, x) => CreationKeeps(s.disk, s.hs, path, isDir, x, s'.disk, s'.hs);
    case Removal(path, gone) => RemovalKeeps(s.disk, s.hs, path, gone, s'.disk, s'.hs);
    case Writing(f, position, from, size) => TreeAfterWrite(s.disk, s.hs, f, position, from, s'.disk, s'.hs[f], size);
  }

  lemma StepKeepsExact(s: State, step: Step, s': State)
    requires Tree(s.disk, s.hs) && Exact(s.disk, s.hs) && Does(s, step, s')
    ensures Exact(s'.disk, s'.hs)
  {
    hide Tree, WellFormed, Stored, Replaced, Vacated, Exact, Volume, FileBytes, TablesOf, Elements, Lookup, Added, Removed, NewContents, DirImage;
    TreeVolume(s.disk, s.hs);
    match step
    case Creation(path, isDir, x) => ReplacedKeepsExact(s.disk, s.hs, x, s'.hs[x], ParentOf(TablesOf(s.disk, s.hs), path), s'.disk);
    case Removal(path, gone) => VacatedKeepsExact(s.disk, s.hs, gone, ParentOf(TablesOf(s.disk, s.hs), path), s'.disk);
    case Writing(f, position, from, size) =>
      if Stored(s.disk, s.hs[f], s'.disk, s'.hs[f], f, position, from) {
        StoreKeepsExact(s.disk, s.hs, s'.disk, s'.hs[f], f, position, from);
      } else {
        ReplacedKeepsExact(s.disk, s.hs, f, s'.hs[f], FREE_MAP_SECTOR, s'.disk);
      }
  }

  /**
   * In every state of every run the stored headers are current, no sector has two owners, the directories form a tree,
   * and the map on disk marks exactly the sectors in use.
   */
  lemma {:induction false} RunKeepsTree(run: seq<State>, steps: seq<Step>, i: nat)
    requires IsRun(run, steps) && i < |run|
    ensures Tree(run[i].disk, run[i].hs) && Exact(run[i].disk, run[i].hs)
  {
    hide Tree, Exact, Does, Lookup, FreeMap, TablesOf;
    if i > 0 {
      RunKeepsTree(run, steps, i - 1);
      StepKeepsTree(run[i - 1], steps[i - 1], run[i]);
      StepKeepsExact(run[i - 1], steps[i - 1], run[i]);
    }
  }

  /** A sector is free on disk exactly if no file has it: nothing leaks and nothing is given away twice. */
  lemma MarkedIffOwned(run: seq<State>, steps: seq<Step>, i: nat, s: nat)
    requires IsRun(run, steps) && i < |run| && s < NUM_SECTORS
    ensures FREE_MAP_SECTOR in run[i].hs
    ensures FreeMap(run[i].disk, run[i].hs[FREE_MAP_SECTOR])[s] <==> exists f :: f in run[i].hs && Owns(run[i].disk, run[i].hs[f], f, s)
  {
    hide IsRun, Tree, Exact, Volume, FreeMap, Owns;
    RunKeepsTree(run, steps, i);
    TreeVolume(run[i].disk, run[i].hs);
    ExactIff(run[i].disk, run[i].hs, s);
  }

  /** The step removes a directory that still has entries. */
  ghost predicate Strands(s: State, step: Step) {
    step.Removal? && step.gone in s.hs && HasEntries(s.disk, s.hs[step.gone])
  }

  lemma StepKeepsEnteredIff(s: State, step: Step, s': State)
    requires Tree(s.disk, s.hs) && AllEntered(s.disk, s.hs) && Does(s, step, s')
    ensures AllEntered(s'.disk, s'.hs) <==> !Strands(s, step)
  {
    hide Tree, WellFormed, Stored, GrownStored, CreatedIn, Reached, FileBytes, TablesOf, Elements, Lookup, HasEntries;
    match step
    case Creation(path, isDir, x) => CreationKeepsEntered(s.disk, s.hs, path, isDir, x, s'.disk, s'.hs);
    case Removal(path, gone) =>
      RemovedHeaders(s.disk, s.hs, path, gone, s'.disk, s'.hs);
      RemovalKeepsEnteredIff(s.disk, s.hs, path, gone, s'.disk, s'.hs);
    case Writing(f, position, from, size) => TreeAfterWrite(s.disk, s.hs, f, position, from, s'.disk, s'.hs[f], size);
  }

  /** Over a run, every file stays within reach of the root up to the first removal of a directory in use. */
  lemma {:induction false} RunKeepsEntered(run: seq<State>, steps: seq<Step>, i: nat)
    requires IsRun(run, steps) && i < |run| && forall k | 0 <= k < i :: !Strands(run[k], steps[k])
    ensures AllEntered(run[i].disk, run[i].hs)
  {
    hide Tree, Does, Strands, TablesOf, Exact, Lookup, FreeMap;
    if i > 0 {
      RunKeepsEntered(run, steps, i - 1);
      RunKeepsTree(run, steps, i - 1);
      StepKeepsEnteredIff(run[i - 1], steps[i - 1], run[i]);
    }
  }

  /** The step is none of those that may change or delete file `f`. */
  predicate Spares(step: Step, f: int) {
    !(step.Removal? && step.gone == f) && !(step.Writing? && step.f == f)
  }

  lemma StepSpares(s: State, step: Step, s': State, f: int)
    requires Tree(s.disk, s.hs) && Does(s, step, s') && Spares(step, f)
    requires f in s.hs && f != FREE_MAP_SECTOR && !IsDir(s.hs[f])
    ensures f in s'.hs && s'.hs[f] == s.hs[f] && FileBytes(s'.disk, s.hs[f]) == FileBytes(s.disk, s.hs[f])
  {
    hide Tree, WellFormed, Stored, GrownStored, CreatedIn, RemovedFrom, FileBytes, Elements, Lookup, TableIn, Added, Removed, InUse;
    match step
    case Creation(path, isDir, x) => CreationKeepsTree(s.disk, s.hs, path, isDir, x, s'.disk, s'.hs);
    case Removal(path, gone) =>
      RemovalKeepsTree(s.disk, s.hs, path, gone, s'.disk, s'.hs);
      RemovedHeaders(s.disk, s.hs, path, gone, s'.disk, s'.hs);
    case Writing(g, position, from, size) => TreeAfterWrite(s.disk, s.hs, g, position, from, s'.disk, s'.hs[g], size);
  }

  /** A file keeps its header and every byte of its contents through any run that neither writes to it nor removes it. */
  lemma {:induction false} ContentsStay(run: seq<State>, steps: seq<Step>, i: nat, j: nat, f: int)
    requires IsRun(run, steps) && i <= j < |run|
    requires f in run[i].hs && f != FREE_MAP_SECTOR && !IsDir(run[i].hs[f])
    requires forall k | i <= k < j :: Spares(steps[k], f)
    ensures f in run[j].hs && run[j].hs[f] == run[i].hs[f] && FileBytes(run[j].disk, run[i].hs[f]) == FileBytes(run[i].disk, run[i].hs[f])
    decreases j - i
  {
    hide Tree, Exact, Does, Formatted, FileBytes, Spares;
    if i < j {
      ContentsStay(run, steps, i, j - 1, f);
      RunKeepsTree(run, steps, j - 1);
      StepSpares(run[j - 1], steps[j - 1], run[j], f);
    }
  }

  lemma StepKeepsPath(s: State, step: Step, s': State, path: text)
    requires Tree(s.disk, s.hs) && Does(s, step, s') && !step.Removal?
    requires DIRECTORY_SECTOR in TablesOf(s.disk, s.hs)
    requires Walk(TablesOf(s.disk, s.hs), DIRECTORY_SECTOR, path, false).At?
    ensures DIRECTORY_SECTOR in TablesOf(s'.disk, s'.hs)
    ensures Walk(TablesOf(s'.disk, s'.hs), DIRECTORY_SECTOR, path, false) == Walk(TablesOf(s.disk, s.hs), DIRECTORY_SECTOR, path, false)
  {
    hide Tree, WellFormed, Stored, GrownStored, FileBytes, Elements, TablesOf, Walk, CreatedIn;
    if step.Creation? {
      CreatedResolves(s.disk, s.hs, step.path, step.isDir, step.x, s'.disk, s'.hs);
    } else {
      TreeAfterWrite(s.disk, s.hs, step.f, step.position, step.from, s'.disk, s'.hs[step.f], step.size);
    }
  }

  /** A path that leads to a file keeps leading to it as long as nothing is removed. */
  lemma {:induction false} PathStays(run: seq<State>, steps: seq<Step>, i: nat, j: nat, path: text)
    requires IsRun(run, steps) && i <= j < |run| && forall k | i <= k < j :: !steps[k].Removal?
    requires DIRECTORY_SECTOR in TablesOf(run[i].disk, run[i].hs)
    requires Walk(TablesOf(run[i].disk, run[i].hs), DIRECTORY_SECTOR, path, false).At?
    ensures DIRECTORY_SECTOR in TablesOf(run[j].disk, run[j].hs)
    ensures Walk(TablesOf(run[j].disk, run[j].hs), DIRECTORY_SECTOR, path, false) ==
            Walk(TablesOf(run[i].disk, run[i].hs), DIRECTORY_SECTOR, path, false)
    decreases j - i
  {
    hide Tree, Exact, Does, Formatted, TablesOf, Walk;
    if i < j {
      PathStays(run, steps, i, j - 1, path);
      RunKeepsTree(run, steps, j - 1);
      StepKeepsPath(run[j - 1], steps[j - 1], run[j], path);
    }
  }
}
