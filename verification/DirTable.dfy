/** code/filesys/directory.cc: the table of a directory, as the bytes it occupies in memory and in its file. */
module DirTables {
  import opened Words
  import opened Paths

  const NUM_DIR_ENTRIES := 10
  const ENTRY_SIZE := 20
  const TABLE_SIZE := NUM_DIR_ENTRIES * ENTRY_SIZE
  const SECTOR_OFFSET := 4
  const NAME_OFFSET := 8

  type Table = s: seq<byte> | |s| == TABLE_SIZE witness seq(TABLE_SIZE, i => 0)

  /** The fields of an entry: a flag in its first byte, a word after padding, and the name. */
  predicate InUse(t: Table, i: nat)
    requires i < NUM_DIR_ENTRIES
  {
    t[ENTRY_SIZE * i] != 0
  }

  function SectorOf(t: Table, i: nat): word
    requires i < NUM_DIR_ENTRIES
  {
    var k := ENTRY_SIZE * i + SECTOR_OFFSET;
    WordOf(t[k], t[k + 1], t[k + 2], t[k + 3])
  }

  function NameOf(t: Table, i: nat): text
    requires i < NUM_DIR_ENTRIES
  {
    CString(t[ENTRY_SIZE * i + NAME_OFFSET..ENTRY_SIZE * i + NAME_OFFSET + FILE_NAME_MAX_LEN])
  }

  predicate Live(t: Table, i: int) {
    0 <= i < NUM_DIR_ENTRIES && InUse(t, i)
  }

  predicate LiveAs(t: Table, i: int, name: text) {
    Live(t, i) && NameOf(t, i) == name
  }

  /** No two live entries have the same name. */
  predicate DistinctNames(t: Table) {
    forall i, j | 0 <= i < j < NUM_DIR_ENTRIES && InUse(t, i) && InUse(t, j) :: NameOf(t, i) != NameOf(t, j)
  }

  /** The first live entry from `from` on that has the name, or -1. */
  function IndexOf(t: Table, name: text, from: nat := 0): (r: int)
    requires from <= NUM_DIR_ENTRIES
    ensures r == -1 || (from <= r && LiveAs(t, r, name))
    ensures forall i | from <= i < (if r == -1 then NUM_DIR_ENTRIES else r) :: !LiveAs(t, i, name)
    decreases NUM_DIR_ENTRIES - from
  {
    if from == NUM_DIR_ENTRIES then -1
    else if LiveAs(t, from, name) then from
    else IndexOf(t, name, from + 1)
  }

  /** The sector entered for a name, or -1. */
  function Lookup(t: Table, name: text): int {
    var k := IndexOf(t, name);
    if k == -1 then -1 else SectorOf(t, k)
  }

  function FirstUnused(t: Table, from: nat := 0): (r: int)
    requires from <= NUM_DIR_ENTRIES
    ensures r == -1 || (from <= r < NUM_DIR_ENTRIES && !InUse(t, r))
    ensures forall i | from <= i < (if r == -1 then NUM_DIR_ENTRIES else r) :: InUse(t, i)
    decreases NUM_DIR_ENTRIES - from
  {
    if from == NUM_DIR_ENTRIES then -1
    else if !InUse(t, from) then from
    else FirstUnused(t, from + 1)
  }

  /** The nine bytes that `strncpy` writes for a name. */
  function Padded(name: text): (r: seq<byte>)
    requires |name| <= FILE_NAME_MAX_LEN
    ensures |r| == FILE_NAME_MAX_LEN && name <= r
    ensures forall i | |name| <= i < |r| :: r[i] == 0
  {
    name + seq(FILE_NAME_MAX_LEN - |name|, i => 0)
  }

  function Patched(t: Table, at: nat, bytes: seq<byte>): (r: Table)
    requires at + |bytes| <= TABLE_SIZE
    ensures forall k | 0 <= k < TABLE_SIZE :: r[k] == if at <= k < at + |bytes| then bytes[k - at] else t[k]
  {
    t[..at] + bytes + t[at + |bytes|..]
  }

  /** The entry is taken for a name and a sector. */
  function Entered(t: Table, i: nat, name: text, sector: word): Table
    requires i < NUM_DIR_ENTRIES && |name| <= FILE_NAME_MAX_LEN
  {
    var t1 := Patched(t, ENTRY_SIZE * i, [1]);
    var t2 := Patched(t1, ENTRY_SIZE * i + NAME_OFFSET, Padded(name));
    Patched(t2, ENTRY_SIZE * i + SECTOR_OFFSET, [ByteOf(sector, 0), ByteOf(sector, 1), ByteOf(sector, 2), ByteOf(sector, 3)])
  }

  function Dropped(t: Table, i: nat): Table
    requires i < NUM_DIR_ENTRIES
  {
    Patched(t, ENTRY_SIZE * i, [0])
  }

  lemma EnteredAt(t: Table, i: nat, name: text, sector: word, j: nat)
    requires i < NUM_DIR_ENTRIES && |name| <= FILE_NAME_MAX_LEN && 0 !in name && j < NUM_DIR_ENTRIES
    ensures var t' := Entered(t, i, name, sector);
            if j == i then InUse(t', j) && NameOf(t', j) == name && SectorOf(t', j) == sector
            else InUse(t', j) == InUse(t, j) && NameOf(t', j) == NameOf(t, j) && SectorOf(t', j) == SectorOf(t, j)
  {
    hide CString, ByteOf, WordOf, Padded;
    var t' := Entered(t, i, name, sector);
    var a := ENTRY_SIZE * j + NAME_OFFSET;
    var was, now := t[a..a + FILE_NAME_MAX_LEN], t'[a..a + FILE_NAME_MAX_LEN];
    if j == i {
      assert now == Padded(name);
      PaddedName(name);
      WordOfBytes(sector);
    } else {
      assert now == was;
    }
  }

  lemma PaddedName(name: text)
    requires |name| <= FILE_NAME_MAX_LEN && 0 !in name
    ensures CString(Padded(name)) == name
  {
    CStringIs(Padded(name), name, FILE_NAME_MAX_LEN);
  }

  lemma DroppedAt(t: Table, i: nat, j: nat)
    requires i < NUM_DIR_ENTRIES && j < NUM_DIR_ENTRIES
    ensures var t' := Dropped(t, i);
            InUse(t', j) == (j != i && InUse(t, j)) && NameOf(t', j) == NameOf(t, j) && SectorOf(t', j) == SectorOf(t, j)
  {
    hide CString, WordOf;
    var a := ENTRY_SIZE * j + NAME_OFFSET;
    assert Dropped(t, i)[a..a + FILE_NAME_MAX_LEN] == t[a..a + FILE_NAME_MAX_LEN];
  }

  /** `AddInCurrentDir` on the table: nothing if the name is there or no entry is free. */
  /** Where flag, sector and name of an entry lie: bytes 0, 4 to 7 and 8 to 16 of twenty. */
  lemma EntryLayout(t: Table, i: nat, name: text, sector: word)
    requires i < NUM_DIR_ENTRIES && |name| <= FILE_NAME_MAX_LEN
    ensures var e := Entered(t, i, name, sector)[20 * i..20 * (i + 1)];
            && e[0] == 1 && e[8..8 + |name|] == name && (forall k | 8 + |name| <= k < 17 :: e[k] == 0)
            && e[4] as int + e[5] as int * 0x100 + e[6] as int * 0x1_0000 + e[7] as int * 0x100_0000 == sector
  {
    hide ByteOf;
    WordOfBytes(sector);
    var e := Entered(t, i, name, sector)[20 * i..20 * (i + 1)];
    assert forall k | 0 <= k < |name| :: e[8 + k] == Padded(name)[k];
  }

  function Added(t: Table, name: text, sector: word): (r: (bool, Table))
    requires |name| <= FILE_NAME_MAX_LEN
  {
    if IndexOf(t, name) != -1 || FirstUnused(t) == -1 then (false, t)
    else (true, Entered(t, FirstUnused(t), name, sector))
  }

  function Removed(t: Table, name: text): (bool, Table) {
    var k := IndexOf(t, name);
    if k == -1 then (false, t) else (true, Dropped(t, k))
  }

  /** With distinct names, a lookup finds the one live entry of the name. */
  lemma LookupIs(t: Table, name: text, i: nat)
    requires DistinctNames(t) && LiveAs(t, i, name)
    ensures IndexOf(t, name) == i && Lookup(t, name) == SectorOf(t, i)
  {
    var k := IndexOf(t, name);
    assert k != -1 ==> LiveAs(t, k, name);
  }

  lemma LookupNone(t: Table, name: text)
    requires forall i | 0 <= i < NUM_DIR_ENTRIES :: !LiveAs(t, i, name)
    ensures Lookup(t, name) == -1 && IndexOf(t, name) == -1
  {
  }

  /** Adding keeps the names distinct; then the name is found, and every other name as before. */
  lemma AddThenFind(t: Table, name: text, sector: word, other: text)
    requires DistinctNames(t) && |name| <= FILE_NAME_MAX_LEN && 0 !in name
    ensures var (ok, t') := Added(t, name, sector);
            && DistinctNames(t')
            && (ok ==> Lookup(t', name) == sector)
            && (other != name ==> Lookup(t', other) == Lookup(t, other))
            && (ok <==> Lookup(t, name) == -1 && exists i :: 0 <= i < NUM_DIR_ENTRIES && !InUse(t, i))
  {
    hide NameOf, SectorOf, Entered, InUse;
    var (ok, t') := Added(t, name, sector);
    if ok {
      var k := FirstUnused(t);
      forall i | 0 <= i < NUM_DIR_ENTRIES
        ensures i != k ==> InUse(t', i) == InUse(t, i) && NameOf(t', i) == NameOf(t, i) && SectorOf(t', i) == SectorOf(t, i)
        ensures i == k ==> InUse(t', i) && NameOf(t', i) == name && SectorOf(t', i) == sector
        ensures InUse(t, i) ==> NameOf(t, i) != name
      {
        EnteredAt(t, k, name, sector, i);
        assert !LiveAs(t, i, name);
      }
      LookupIs(t', name, k);
      if other != name {
        LookupSame(t, t', other);
      }
    }
  }

  /** Tables that agree on the live entries of a name agree on its lookup. */
  lemma LookupSame(t: Table, t': Table, name: text)
    requires DistinctNames(t) && DistinctNames(t')
    requires forall i | 0 <= i < NUM_DIR_ENTRIES :: LiveAs(t, i, name) == LiveAs(t', i, name)
    requires forall i | 0 <= i < NUM_DIR_ENTRIES && LiveAs(t, i, name) :: SectorOf(t, i) == SectorOf(t', i)
    ensures Lookup(t', name) == Lookup(t, name)
  {
    hide DistinctNames, NameOf, SectorOf, Live;
    var k := IndexOf(t, name);
    if k != -1 {
      LookupIs(t, name, k);
      LookupIs(t', name, k);
    } else {
      LookupNone(t', name);
    }
  }

  /** Removing keeps the names distinct; then the name is gone, and every other name is as before. */
  lemma RemoveThenFind(t: Table, name: text, other: text)
    requires DistinctNames(t)
    ensures var (ok, t') := Removed(t, name);
            && DistinctNames(t') && (ok <==> Lookup(t, name) != -1)
            && Lookup(t', name) == -1 && (other != name ==> Lookup(t', other) == Lookup(t, other))
  {
    hide NameOf, SectorOf, Dropped, InUse;
    var (ok, t') := Removed(t, name);
    if ok {
      var k := IndexOf(t, name);
      forall i | 0 <= i < NUM_DIR_ENTRIES
        ensures InUse(t', i) == (i != k && InUse(t, i)) && NameOf(t', i) == NameOf(t, i) && SectorOf(t', i) == SectorOf(t, i)
      {
        DroppedAt(t, k, i);
      }
      forall i | 0 <= i < NUM_DIR_ENTRIES
        ensures !LiveAs(t', i, name)
      {
        assert LiveAs(t, k, name);
      }
      LookupNone(t', name);
      if other != name {
        LookupSame(t, t', other);
      }
    } else {
      LookupNone(t, name);
    }
  }

  /** Removing what was just added restores every lookup. */
  lemma RemoveUndoesAdd(t: Table, name: text, sector: word, any: text)
    requires DistinctNames(t) && |name| <= FILE_NAME_MAX_LEN && 0 !in name && Added(t, name, sector).0
    ensures var (ok, t') := Removed(Added(t, name, sector).1, name);
            ok && DistinctNames(t') && Lookup(t', any) == Lookup(t, any)
  {
    hide Added, Removed, DistinctNames, Lookup;
    var t1 := Added(t, name, sector).1;
    AddThenFind(t, name, sector, any);
    RemoveThenFind(t1, name, any);
  }

  lemma NothingIn(t: Table, name: text)
    requires forall i | 0 <= i < NUM_DIR_ENTRIES :: !InUse(t, i)
    ensures Lookup(t, name) == -1
  {
    hide InUse;
    LookupNone(t, name);
  }
}
