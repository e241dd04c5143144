/** code/lib/hash.cc: a hash table that grows; its buckets are lists, here sequences. */
module HashTables {
  import opened Wrappers

  const INITIAL_BUCKETS := 4
  const RESIZE_RATIO := 3
  const INCREASE_SIZE_BY := 4

  type Table<T> = seq<seq<T>>

  /** The items of all buckets, bucket by bucket. */
  function Flat<T>(t: Table<T>): seq<T> {
    if t == [] then [] else Flat(t[..|t| - 1]) + t[|t| - 1]
  }

  /** The number of items in all buckets. */
  function Total<T>(t: Table<T>): nat {
    if t == [] then 0 else Total(t[..|t| - 1]) + |t[|t| - 1]|
  }

  lemma {:induction false} TotalUpdate<T>(t: Table<T>, b: nat, bucket: seq<T>)
    requires b < |t|
    ensures Total(t[b := bucket]) == Total(t) - |t[b]| + |bucket|
  {
    var n := |t| - 1;
    if b == n {
      assert t[b := bucket][..n] == t[..n];
    } else {
      assert t[b := bucket][..n] == t[..n][b := bucket];
      TotalUpdate(t[..n], b, bucket);
    }
  }

  lemma {:induction false} TotalOfEmpty<T>(t: Table<T>)
    requires forall b | 0 <= b < |t| :: t[b] == []
    ensures Total(t) == 0
  {
    if t != [] { TotalOfEmpty(t[..|t| - 1]); }
  }

  predicate Distinct<T(==)>(s: seq<T>) {
    forall i, j | 0 <= i < j < |s| :: s[i] != s[j]
  }

  /** How keys are found in items, and hashed. */
  datatype Keys<!Key, !T> = Keys(getKey: T -> Key, hash: Key -> nat)

  /** Every item is in the bucket of its own key, once, and is what `m` has for that key. */
  ghost predicate Placed<Key, T>(t: Table<T>, keys: Keys<Key, T>, m: map<Key, T>) {
    && |t| > 0
    && (forall b | 0 <= b < |t| :: Distinct(t[b]))
    && (forall b, x | 0 <= b < |t| && x in t[b] ::
          keys.getKey(x) in m && m[keys.getKey(x)] == x && keys.hash(keys.getKey(x)) % |t| == b)
  }

  /** The items of `m` are all there. */
  ghost predicate Complete<Key, T>(t: Table<T>, keys: Keys<Key, T>, m: map<Key, T>)
    requires |t| > 0
  {
    forall k <- m :: keys.getKey(m[k]) == k && m[k] in t[keys.hash(k) % |t|]
  }

  /** The table refines the map `m`. */
  ghost predicate Refines<Key, T>(t: Table<T>, keys: Keys<Key, T>, m: map<Key, T>) {
    Placed(t, keys, m) && Complete(t, keys, m)
  }

  lemma InsertRefines<Key, T>(t: Table<T>, keys: Keys<Key, T>, m: map<Key, T>, item: T)
    requires Refines(t, keys, m) && keys.getKey(item) !in m
    ensures var k := keys.getKey(item);
            var b := keys.hash(k) % |t|;
            Refines(t[b := t[b] + [item]], keys, m[k := item])
  {
    var k := keys.getKey(item);
    var b := keys.hash(k) % |t|;
    assert item !in t[b];
  }

  lemma RemoveRefines<Key, T>(t: Table<T>, keys: Keys<Key, T>, m: map<Key, T>, k: Key, i: nat)
    requires Refines(t, keys, m) && k in m
    requires var b := keys.hash(k) % |t|; i < |t[b]| && t[b][i] == m[k]
    ensures var b := keys.hash(k) % |t|;
            Refines(t[b := t[b][..i] + t[b][i + 1..]], keys, m - {k})
  {
    var b := keys.hash(k) % |t|;
    var cut := t[b][..i] + t[b][i + 1..];
    assert t[b] == t[b][..i] + [t[b][i]] + t[b][i + 1..];
    assert forall x :: x in cut ==> x in t[b];
    assert m[k] !in cut;
    assert forall x :: x in t[b] && x != m[k] ==> x in cut;
  }

  /** While a table is being moved, every item is in exactly one of the two tables. */
  ghost predicate Moving<Key, T>(old_: Table<T>, t: Table<T>, keys: Keys<Key, T>, m: map<Key, T>) {
    && Placed(old_, keys, m) && Placed(t, keys, m)
    && (forall k <- m :: keys.getKey(m[k]) == k)
    && (forall k <- m :: m[k] in old_[keys.hash(k) % |old_|] <==> m[k] !in t[keys.hash(k) % |t|])
  }

  lemma MoveOne<Key, T>(old_: Table<T>, t: Table<T>, keys: Keys<Key, T>, m: map<Key, T>, i: nat)
    requires Moving(old_, t, keys, m) && i < |old_| && old_[i] != []
    ensures var item := old_[i][0];
            var b := keys.hash(keys.getKey(item)) % |t|;
            Moving(old_[i := old_[i][1..]], t[b := t[b] + [item]], keys, m)
  {
    var item := old_[i][0];
    var b := keys.hash(keys.getKey(item)) % |t|;
    assert item in old_[i];
    assert forall x :: x in old_[i] <==> x == item || x in old_[i][1..];
    assert item !in old_[i][1..];
    assert item !in t[b];
  }

  lemma StartMoving<Key, T>(old_: Table<T>, t: Table<T>, keys: Keys<Key, T>, m: map<Key, T>)
    requires Refines(old_, keys, m) && |t| > 0 && forall b | 0 <= b < |t| :: t[b] == []
    ensures Moving(old_, t, keys, m)
  {
  }

  lemma EndMoving<Key, T>(old_: Table<T>, t: Table<T>, keys: Keys<Key, T>, m: map<Key, T>)
    requires Moving(old_, t, keys, m) && forall b | 0 <= b < |old_| :: old_[b] == []
    ensures Refines(t, keys, m)
  {
  }

  class HashTable<!Key(==), !T(==)> {
    const keys: Keys<Key, T>
    var buckets: array<seq<T>>
    var numBuckets: nat
    var numItems: nat
    ghost var contents: map<Key, T>

    /** The table refines the finite map `contents`, its counters are right and it is never loaded beyond the ratio. */
    ghost predicate Valid()
      reads this, buckets
    {
      && numBuckets == buckets.Length && Refines(buckets[..], keys, contents)
      && numItems == |contents| == Total(buckets[..]) && numItems <= RESIZE_RATIO * numBuckets
    }

    constructor (getKey: T -> Key, hash: Key -> nat)
      ensures Valid() && contents == map[] && fresh(buckets) && keys == Keys(getKey, hash)
    {
      keys := Keys(getKey, hash);
      numItems, numBuckets, contents := 0, INITIAL_BUCKETS, map[];
      buckets := new seq<T>[INITIAL_BUCKETS](i => []);
      new;
      TotalOfEmpty(buckets[..]);
    }

    function HashValue(key: Key): (b: nat)
      requires numBuckets > 0
      reads this
      ensures b < numBuckets
    {
      keys.hash(key) % numBuckets
    }

    method FindInBucket(bucket: nat, key: Key) returns (item: Option<T>)
      requires Valid() && bucket < numBuckets
      ensures item.Some? ==> item.value in buckets[bucket] && keys.getKey(item.value) == key
      ensures item.None? ==> forall x <- buckets[bucket] :: keys.getKey(x) != key
    {
      var i := 0;
      while i < |buckets[bucket]|
        invariant 0 <= i <= |buckets[bucket]| && forall j | 0 <= j < i :: keys.getKey(buckets[bucket][j]) != key
      {
        if key == keys.getKey(buckets[bucket][i]) {
          return Some(buckets[bucket][i]);
        }
        i := i + 1;
      }
      return None;
    }

    method Find(key: Key) returns (item: Option<T>)
      requires Valid()
      ensures item == if key in contents then Some(contents[key]) else None
    {
      hide Total;
      item := FindInBucket(HashValue(key), key);
    }

    /** `false` is the failed ASSERT that the key is new. */
    method Insert(item: T) returns (ok: bool)
      requires Valid()
      modifies this, buckets
      ensures ok <==> keys.getKey(item) !in old(contents)
      ensures ok ==> Valid() && contents == old(contents)[keys.getKey(item) := item]
      ensures buckets == old(buckets) || fresh(buckets)
    {
      hide Total, Refines;
      var key := keys.getKey(item);
      var present := Find(key);
      if present.Some? {
        return false;
      }
      RefinesIsNonempty(buckets[..], keys, contents);
      if numItems / numBuckets >= RESIZE_RATIO {
        ReHash();
      }
      AddToBucket(key, item);
      return true;
    }

    method AddToBucket(key: Key, item: T)
      requires Valid() && key == keys.getKey(item) && key !in contents && numItems < RESIZE_RATIO * numBuckets
      modifies this`numItems, this`contents, buckets
      ensures Valid() && contents == old(contents)[key := item]
    {
      hide Total, Refines;
      RefinesIsNonempty(buckets[..], keys, contents);
      var b := HashValue(key);
      ghost var before := buckets[..];
      InsertRefines(before, keys, contents, item);
      TotalUpdate(before, b, before[b] + [item]);
      buckets[b] := buckets[b] + [item];
      assert buckets[..] == before[b := before[b] + [item]];
      numItems := numItems + 1;
      contents := contents[key := item];
    }

    /** A table of four times the size with the same contents. */
    method ReHash()
      requires Valid()
      modifies this, buckets
      ensures Valid() && contents == old(contents) && fresh(buckets)
      ensures numBuckets == INCREASE_SIZE_BY * old(numBuckets) && numItems == old(numItems)
    {
      hide Total, Refines, Moving;
      var oldTable, oldSize := buckets, numBuckets;
      RefinesIsNonempty(oldTable[..], keys, contents);
      numBuckets := numBuckets * INCREASE_SIZE_BY;
      buckets := new seq<T>[numBuckets](i => []);
      TotalOfEmpty(buckets[..]);
      StartMoving(oldTable[..], buckets[..], keys, contents);
      for i := 0 to oldSize
        modifies buckets, oldTable
        invariant forall b | 0 <= b < i :: oldTable[b] == []
        invariant Moving(oldTable[..], buckets[..], keys, contents)
        invariant Total(oldTable[..]) + Total(buckets[..]) == numItems
      {
        MoveBucket(oldTable, i);
      }
      TotalOfEmpty(oldTable[..]);
      EndMoving(oldTable[..], buckets[..], keys, contents);
    }

    /** Empties bucket `i` of the old table into the new one. */
    method MoveBucket(oldTable: array<seq<T>>, i: nat)
      requires oldTable != buckets && i < oldTable.Length && numBuckets == buckets.Length > 0
      requires Moving(oldTable[..], buckets[..], keys, contents)
      modifies buckets, oldTable
      ensures Moving(oldTable[..], buckets[..], keys, contents) && oldTable[i] == []
      ensures forall b | 0 <= b < oldTable.Length && b != i :: oldTable[b] == old(oldTable[b])
      ensures Total(oldTable[..]) + Total(buckets[..]) == old(Total(oldTable[..]) + Total(buckets[..]))
    {
      hide Total, Moving;
      while oldTable[i] != []
        modifies buckets, oldTable
        invariant forall b | 0 <= b < oldTable.Length && b != i :: oldTable[b] == old(oldTable[b])
        invariant Moving(oldTable[..], buckets[..], keys, contents)
        invariant Total(oldTable[..]) + Total(buckets[..]) == old(Total(oldTable[..]) + Total(buckets[..]))
        decreases |oldTable[i]|
      {
        ghost var from, to := oldTable[..], buckets[..];
        MoveOne(from, to, keys, contents, i);
        var item := oldTable[i][0];
        var b := HashValue(keys.getKey(item));
        TotalUpdate(from, i, from[i][1..]);
        TotalUpdate(to, b, to[b] + [item]);
        oldTable[i] := oldTable[i][1..];
        buckets[b] := buckets[b] + [item];
        assert oldTable[..] == from[i := from[i][1..]];
        assert buckets[..] == to[b := to[b] + [item]];
      }
    }

    /** `None` is the failed ASSERT that the key is there. */
    method Remove(key: Key) returns (item: Option<T>)
      requires Valid()
      modifies this, buckets
      ensures item == if key in old(contents) then Some(old(contents)[key]) else None
      ensures item.Some? ==> Valid() && contents == old(contents) - {key} && buckets == old(buckets)
    {
      hide Total, Refines;
      item := Find(key);
      if item.None? {
        return;
      }
      IsInItsBucket(buckets[..], keys, contents, key);
      var b := HashValue(key);
      var i := IndexIn(b, item.value);
      CutFromBucket(key, b, i);
    }

    /** The search of the bucket's list for an item that it has. */
    method IndexIn(b: nat, item: T) returns (i: nat)
      requires b < buckets.Length && item in buckets[b]
      ensures i < |buckets[b]| && buckets[b][i] == item
    {
      i := 0;
      while buckets[b][i] != item
        invariant i < |buckets[b]| && forall j | 0 <= j < i :: buckets[b][j] != item
        decreases |buckets[b]| - i
      {
        i := i + 1;
      }
    }

    method CutFromBucket(key: Key, b: nat, i: nat)
      requires Valid() && key in contents && b < numBuckets && b == keys.hash(key) % numBuckets
      requires i < |buckets[b]| && buckets[b][i] == contents[key]
      modifies this`numItems, this`contents, buckets
      ensures Valid() && contents == old(contents) - {key}
    {
      hide Total, Refines;
      ghost var before := buckets[..];
      var cut := buckets[b][..i] + buckets[b][i + 1..];
      RemoveRefines(before, keys, contents, key, i);
      TotalUpdate(before, b, cut);
      buckets[b] := cut;
      assert buckets[..] == before[b := cut];
      numItems := numItems - 1;
      contents := contents - {key};
    }
  }

  lemma IsInItsBucket<Key, T>(t: Table<T>, keys: Keys<Key, T>, m: map<Key, T>, k: Key)
    requires Refines(t, keys, m) && k in m
    ensures |t| > 0 && m[k] in t[keys.hash(k) % |t|]
  {
  }

  lemma RefinesIsNonempty<Key, T>(t: Table<T>, keys: Keys<Key, T>, m: map<Key, T>)
    requires Refines(t, keys, m)
    ensures |t| > 0
  {
  }

  // Iteration.

  lemma {:induction false} FlatAt<T>(t: Table<T>, b: nat)
    requires b < |t|
    ensures Flat(t[..b + 1]) == Flat(t[..b]) + t[b]
    ensures Flat(t[..b + 1]) <= Flat(t)
  {
    assert t[..b + 1][..b] == t[..b];
    if b + 1 < |t| {
      FlatAt(t[..|t| - 1], b);
      assert t[..|t| - 1][..b + 1] == t[..b + 1] && t[..|t| - 1][..b] == t[..b];
    } else {
      assert t[..b + 1] == t;
    }
  }

  lemma {:induction false} FlatMembers<T>(t: Table<T>, x: T)
    ensures x in Flat(t) <==> exists b :: 0 <= b < |t| && x in t[b]
  {
    if t != [] {
      var n := |t| - 1;
      FlatMembers(t[..n], x);
      assert forall b | 0 <= b < n :: t[..n][b] == t[b];
    }
  }

  lemma DistinctJoin<T>(a: seq<T>, b: seq<T>)
    requires Distinct(a) && Distinct(b) && forall x :: x in a ==> x !in b
    ensures Distinct(a + b)
  {
    var c := a + b;
    forall i, j | 0 <= i < j < |c|
      ensures c[i] != c[j]
    {
      assert i < |a| ==> c[i] in a;
      assert j >= |a| ==> c[j] in b;
    }
  }

  lemma {:induction false} FlatDistinct<Key, T>(t: Table<T>, keys: Keys<Key, T>, m: map<Key, T>, n: nat)
    requires Placed(t, keys, m) && n <= |t|
    ensures Distinct(Flat(t[..n]))
  {
    if n > 0 {
      FlatDistinct(t, keys, m, n - 1);
      FlatAt(t, n - 1);
      var front := Flat(t[..n - 1]);
      forall x | x in front
        ensures keys.hash(keys.getKey(x)) % |t| < n - 1
      {
        FlatMembers(t[..n - 1], x);
        var b :| 0 <= b < n - 1 && x in t[..n - 1][b];
        assert x in t[b];
      }
      DistinctJoin(front, t[n - 1]);
    }
  }

  /** The buckets read one after the other give every item of the map once, and nothing else. */
  lemma FlatIsContents<Key, T>(t: Table<T>, keys: Keys<Key, T>, m: map<Key, T>)
    requires Refines(t, keys, m)
    ensures Distinct(Flat(t))
    ensures forall x <- Flat(t) :: keys.getKey(x) in m && m[keys.getKey(x)] == x
    ensures forall k <- m :: m[k] in Flat(t)
  {
    FlatDistinct(t, keys, m, |t|);
    assert t[..|t|] == t;
    forall x | x in Flat(t)
      ensures keys.getKey(x) in m && m[keys.getKey(x)] == x
    {
      FlatMembers(t, x);
    }
    forall k | k in m
      ensures m[k] in Flat(t)
    {
      FlatMembers(t, m[k]);
    }
  }

  class HashIterator<!Key(==), !T(==)> {
    const table: HashTable<Key, T>
    var bucket: nat
    var place: nat  // in the list of the bucket

    /** The iterator stands on an item, or past the last bucket; `Position` counts the items before it. */
    ghost predicate Valid()
      reads this, table, table.buckets
    {
      && table.Valid() && bucket <= table.numBuckets
      && (bucket < table.numBuckets ==> place < |table.buckets[bucket]|)
      && (bucket == table.numBuckets ==> place == 0)
    }

    ghost function Position(): nat
      requires Valid()
      reads this, table, table.buckets
    {
      |Flat(table.buckets[..][..bucket])| + place
    }

    predicate IsDone()
      reads this, table
    {
      bucket == table.numBuckets
    }

    constructor (tbl: HashTable<Key, T>)
      requires tbl.Valid()
      ensures table == tbl && Valid() && Position() == 0
    {
      table := tbl;
      place := 0;
      new;
      bucket := FindNextFullBucket(0);
    }

    method FindNextFullBucket(from: nat) returns (b: nat)
      requires table.Valid() && from <= table.numBuckets
      ensures from <= b <= table.numBuckets && (b < table.numBuckets ==> table.buckets[b] != [])
      ensures Flat(table.buckets[..][..b]) == Flat(table.buckets[..][..from])
    {
      b := from;
      while b < table.numBuckets && table.buckets[b] == []
        invariant from <= b <= table.numBuckets
        invariant Flat(table.buckets[..][..b]) == Flat(table.buckets[..][..from])
      {
        FlatAt(table.buckets[..], b);
        b := b + 1;
      }
    }

    method Item() returns (item: T)
      requires Valid() && !IsDone()
      ensures Position() < |Flat(table.buckets[..])| && item == Flat(table.buckets[..])[Position()]
    {
      FlatAt(table.buckets[..], bucket);
      item := table.buckets[bucket][place];
    }

    method Next()
      requires Valid() && !IsDone()
      modifies this
      ensures Valid() && Position() == old(Position()) + 1
    {
      FlatAt(table.buckets[..], bucket);
      place := place + 1;
      if place == |table.buckets[bucket]| {
        place := 0;
        bucket := FindNextFullBucket(bucket + 1);
      }
    }
  }

  /** A walk with an iterator from start to end sees every item of the table exactly once. */
  method VisitAll<Key(==), T(==)>(table: HashTable<Key, T>) returns (items: seq<T>)
    requires table.Valid()
    ensures Distinct(items) && |items| == |table.contents|
    ensures forall x <- items :: table.keys.getKey(x) in table.contents && table.contents[table.keys.getKey(x)] == x
    ensures forall k <- table.contents :: table.contents[k] in items
  {
    hide Flat, Total, Refines, Distinct;
    ghost var all, m := Flat(table.buckets[..]), table.contents;
    FlatIsContents(table.buckets[..], table.keys, table.contents);
    FlatLength(table.buckets[..]);
    var iter := new HashIterator(table);
    items := [];
    while !iter.IsDone()
      invariant table.contents == m
      invariant iter.table == table && table.buckets[..] == old(table.buckets[..]) && iter.Valid()
      invariant |items| == iter.Position() <= |all| && items == all[..|items|]
      decreases |all| - |items|
    {
      var x := iter.Item();
      items := items + [x];
      iter.Next();
    }
    assert table.buckets[..][..table.numBuckets] == table.buckets[..];
    assert items == all;
  }

  lemma {:induction false} FlatLength<T>(t: Table<T>)
    ensures |Flat(t)| == Total(t)
  {
    if t != [] { FlatLength(t[..|t| - 1]); }
  }
}
