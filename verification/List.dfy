/** The sequences that a sorted list goes through, apart from how it is linked. */
module SortedSeqs {

  /** `compare` returns a negative, zero or positive number, and orders all items consistently. */
  ghost predicate IsOrder<T(!new)>(compare: (T, T) -> int) {
    && (forall x, y :: compare(x, y) < 0 <==> compare(y, x) > 0)
    && (forall x, y, z :: compare(x, y) <= 0 && compare(y, z) <= 0 ==> compare(x, z) <= 0)
  }

  ghost predicate Sorted<T>(s: seq<T>, compare: (T, T) -> int) {
    forall i, j | 0 <= i < j < |s| :: compare(s[i], s[j]) <= 0
  }

  /** Where `x` goes: in front of the first item that is greater. */
  function Place<T>(s: seq<T>, x: T, compare: (T, T) -> int): (k: nat)
    ensures k <= |s|
    ensures k < |s| ==> compare(x, s[k]) < 0
    ensures forall i | 0 <= i < k :: compare(x, s[i]) >= 0
  {
    if s == [] || compare(x, s[0]) < 0 then 0 else 1 + Place(s[1..], x, compare)
  }

  function InsertAt<T>(s: seq<T>, k: nat, x: T): (r: seq<T>)
    requires k <= |s|
    ensures |r| == |s| + 1
    ensures forall i | 0 <= i < |r| :: r[i] == if i < k then s[i] else if i == k then x else s[i - 1]
  {
    s[..k] + [x] + s[k..]
  }

  function RemoveAt<T>(s: seq<T>, k: nat): (r: seq<T>)
    requires k < |s|
    ensures |r| == |s| - 1
    ensures forall i | 0 <= i < |r| :: r[i] == if i < k then s[i] else s[i + 1]
  {
    s[..k] + s[k + 1..]
  }

  function Inserted<T>(s: seq<T>, x: T, compare: (T, T) -> int): seq<T> {
    InsertAt(s, Place(s, x, compare), x)
  }

  lemma InsertDistinct<T>(s: seq<T>, k: nat, x: T)
    requires k <= |s| && x !in s && forall i, j | 0 <= i < j < |s| :: s[i] != s[j]
    ensures forall i, j | 0 <= i < j <= |s| :: InsertAt(s, k, x)[i] != InsertAt(s, k, x)[j]
  {
  }

  lemma PlaceIs<T>(s: seq<T>, x: T, compare: (T, T) -> int, k: nat)
    requires k <= |s| && (k < |s| ==> compare(x, s[k]) < 0) && forall i | 0 <= i < k :: compare(x, s[i]) >= 0
    ensures Place(s, x, compare) == k
  {
  }

  lemma Transitive<T(!new)>(compare: (T, T) -> int, x: T, y: T, z: T)
    requires IsOrder(compare) && compare(x, y) <= 0 && compare(y, z) <= 0
    ensures compare(x, z) <= 0
  {
  }

  lemma Flip<T(!new)>(compare: (T, T) -> int, x: T, y: T)
    requires IsOrder(compare)
    ensures compare(x, y) < 0 <==> compare(y, x) > 0
  {
  }

  lemma SortedAt<T>(s: seq<T>, compare: (T, T) -> int, i: nat, j: nat)
    requires Sorted(s, compare) && i < j < |s|
    ensures compare(s[i], s[j]) <= 0
  {
  }

  lemma PlaceSplits<T(!new)>(s: seq<T>, x: T, compare: (T, T) -> int, i: nat)
    requires IsOrder(compare) && Sorted(s, compare) && i < |s|
    ensures if i < Place(s, x, compare) then compare(s[i], x) <= 0 else compare(x, s[i]) < 0
  {
    hide IsOrder, Sorted;
    var k := Place(s, x, compare);
    Flip(compare, x, s[i]);
    Flip(compare, s[i], x);
    if i > k && compare(s[i], x) <= 0 {
      SortedAt(s, compare, k, i);
      Transitive(compare, s[k], s[i], x);
      Flip(compare, x, s[k]);
    }
  }

  lemma InsertedPair<T(!new)>(s: seq<T>, x: T, compare: (T, T) -> int, i: nat, j: nat)
    requires IsOrder(compare) && Sorted(s, compare) && i < j <= |s|
    ensures compare(Inserted(s, x, compare)[i], Inserted(s, x, compare)[j]) <= 0
  {
    hide IsOrder, Sorted, Place;
    var k := Place(s, x, compare);
    if i == k {
      PlaceSplits(s, x, compare, j - 1);
    } else if j == k {
      PlaceSplits(s, x, compare, i);
    } else {
      SortedAt(s, compare, if i < k then i else i - 1, if j < k then j else j - 1);
    }
  }

  /** Insertion keeps the order; items that compare equal stay in the order in which they came. */
  lemma InsertedSorted<T(!new)>(s: seq<T>, x: T, compare: (T, T) -> int)
    requires IsOrder(compare) && Sorted(s, compare)
    ensures Sorted(Inserted(s, x, compare), compare)
  {
    hide IsOrder, Place, Inserted;
    InsertedMembers(s, x, compare);
    forall i, j | 0 <= i < j < |Inserted(s, x, compare)| {
      InsertedPair(s, x, compare, i, j);
    }
  }

  lemma InsertedMembers<T>(s: seq<T>, x: T, compare: (T, T) -> int)
    ensures forall y :: y in Inserted(s, x, compare) <==> y in s || y == x
    ensures |Inserted(s, x, compare)| == |s| + 1
  {
    var k := Place(s, x, compare);
    assert s == s[..k] + s[k..];
  }

  lemma InsertedMultiset<T>(s: seq<T>, x: T, compare: (T, T) -> int)
    ensures multiset(Inserted(s, x, compare)) == multiset(s) + multiset{x}
  {
    var k := Place(s, x, compare);
    assert s == s[..k] + s[k..];
  }
}

/** code/lib/list.cc: singly linked lists, plain and sorted. A method returns `false` where an ASSERT would fail. */
module Lists {
  import opened SortedSeqs

  /** The sequence without its first `x`. */
  function WithoutFirst<T(==)>(s: seq<T>, x: T): seq<T> {
    if s == [] then [] else if s[0] == x then s[1..] else [s[0]] + WithoutFirst(s[1..], x)
  }

  lemma {:induction false} WithoutFirstAt<T>(s: seq<T>, x: T, k: nat)
    requires k < |s| && s[k] == x && forall i | 0 <= i < k :: s[i] != x
    ensures WithoutFirst(s, x) == RemoveAt(s, k)
  {
    if s[0] == x {
      assert s[1..] == RemoveAt(s, 0);
    } else {
      WithoutFirstAt(s[1..], x, k - 1);
      assert [s[0]] + RemoveAt(s[1..], k - 1) == RemoveAt(s, k);
    }
  }

  /** Cutting out an occurrence of an item leaves none exactly when it occurred once. */
  lemma GoneIffOnce<T>(s: seq<T>, x: T, k: nat)
    requires k < |s| && s[k] == x
    ensures x !in RemoveAt(s, k) <==> multiset(s)[x] == 1
  {
    assert s == s[..k] + [x] + s[k + 1..];
    assert multiset(RemoveAt(s, k)) == multiset(s[..k]) + multiset(s[k + 1..]);
  }

  class ListElement<T> {
    const item: T
    var next: ListElement?<T>

    constructor (itm: T)
      ensures item == itm && next == null
    {
      item := itm;
      next := null;
    }
  }

  class List<T(==)> {
    var first: ListElement?<T>
    var last: ListElement?<T>
    var numInList: int
    ghost var items: seq<T>               // what the list means
    ghost var chain: seq<ListElement<T>>  // its elements, front to back

    /** What the element at place `i` of the chain points to. */
    ghost function Link(i: nat): ListElement?<T>
      reads this
    {
      if i < |chain| then chain[i] else null
    }

    ghost predicate Valid()
      reads this, chain
    {
      && numInList == |chain| == |items|
      && (forall i | 0 <= i < |chain| :: chain[i].item == items[i])
      && (forall i, j | 0 <= i < j < |chain| :: chain[i] != chain[j])
      && first == Link(0) && last == (if chain == [] then null else chain[|chain| - 1])
      && (forall i {:trigger chain[i].next} | 0 <= i < |chain| :: chain[i].next == Link(i + 1))
    }

    constructor ()
      ensures Valid() && items == [] && chain == []
    {
      first, last, numInList, items, chain := null, null, 0, [], [];
    }

    predicate IsEmpty()
      reads this
    {
      numInList == 0
    }

    method IsInList(item: T) returns (found: bool)
      requires Valid()
      ensures found <==> item in items
    {
      var ptr := first;
      ghost var k := 0;
      while ptr != null
        invariant k <= |chain| && ptr == Link(k) && forall i | 0 <= i < k :: chain[i].item != item
        decreases |chain| - k
      {
        if item == ptr.item {
          assert items[k] == item;
          return true;
        }
        ptr := ptr.next;
        k := k + 1;
      }
      return false;
    }

    method Append(item: T)
      requires Valid()
      modifies this, chain
      ensures Valid() && items == InsertAt(old(items), |old(items)|, item) && forall e <- chain :: e in old(chain) || fresh(e)
    {
      var element := new ListElement(item);
      if IsEmpty() {
        LinkFirst(element);
      } else {
        LinkLast(element);
      }
    }

    method Prepend(item: T) returns (ok: bool)
      requires Valid()
      modifies this, chain
      ensures ok <==> item !in old(items)
      ensures ok ==> Valid() && items == InsertAt(old(items), 0, item) && forall e <- chain :: e in old(chain) || fresh(e)
    {
      var duplicate := IsInList(item);
      if duplicate {
        return false;
      }
      var element := new ListElement(item);
      LinkFirst(element);
      return true;
    }

    method RemoveFront() returns (thing: T)
      requires Valid() && !IsEmpty()
      modifies this
      ensures Valid() && [thing] + items == old(items) && chain == old(chain)[1..]
    {
      var element := first;
      thing := element.item;
      if first == last {
        first := null;
        last := null;
      } else {
        first := element.next;
      }
      numInList := numInList - 1;
      items, chain := items[1..], chain[1..];
    }

    /** Takes out the first occurrence; the ASSERTs pass exactly when it is the only one. */
    method Remove(item: T) returns (ok: bool)
      requires Valid()
      modifies this, chain
      ensures ok <==> multiset(old(items))[item] == 1
      ensures Valid() && items == if item in old(items) then WithoutFirst(old(items), item) else old(items)
      ensures ok ==> item in old(items) && item !in items
    {
      hide WithoutFirst, RemoveAt;
      var found := IsInList(item);
      if !found {
        return false;
      }
      ghost var k := Cut(item);
      WithoutFirstAt(old(items), item, k);
      GoneIffOnce(old(items), item, k);
      found := IsInList(item);
      ok := !found;
    }

    /** Unlinks the first occurrence of `item`. */
    method Cut(item: T) returns (ghost k: nat)
      requires Valid() && item in items
      modifies this, chain
      ensures Valid() && k < |old(items)| && items == RemoveAt(old(items), k)
      ensures old(items)[k] == item && forall i | 0 <= i < k :: old(items)[i] != item
    {
      if item == first.item {
        var removed := RemoveFront();
        assert items == RemoveAt(old(items), 0);
        k := 0;
      } else {
        var prev;
        prev, k := FindBefore(item);
        UnlinkAfter(prev, k);
      }
    }

    /** The search of `Remove` past the first element. */
    method FindBefore(item: T) returns (prev: ListElement<T>, ghost k: nat)
      requires Valid() && item in items && item != items[0]
      ensures 0 < k < |items| && prev == chain[k - 1] && items[k] == item
      ensures forall i | 0 <= i < k :: items[i] != item
    {
      prev := first;
      var ptr := first.next;
      k := 1;
      while ptr != null && item != ptr.item
        invariant 1 <= k <= |chain| && prev == chain[k - 1] && ptr == Link(k)
        invariant forall i | 0 <= i < k :: items[i] != item
        decreases |chain| - k
      {
        prev := ptr;
        ptr := ptr.next;
        k := k + 1;
      }
    }

    method UnlinkAfter(prev: ListElement<T>, ghost k: nat)
      requires Valid() && 0 < k < |chain| && prev == chain[k - 1]
      modifies this, prev
      ensures Valid() && items == RemoveAt(old(items), k) && chain == RemoveAt(old(chain), k)
    {
      prev.next := prev.next.next;
      if prev.next == null {
        last := prev;
      }
      numInList := numInList - 1;
      items := RemoveAt(items, k);
      chain := RemoveAt(chain, k);
    }

    /** `SortedList::Insert`. */
    method Insert(item: T, compare: (T, T) -> int) returns (ok: bool)
      requires Valid()
      modifies this, chain
      ensures ok <==> item !in old(items)
      ensures ok ==> Valid() && items == Inserted(old(items), item, compare) && forall e <- chain :: e in old(chain) || fresh(e)
    {
      var duplicate := IsInList(item);
      if duplicate {
        return false;
      }
      var element := new ListElement(item);
      LinkInOrder(element, compare);
      return true;
    }

    /** The three branches of `Insert`. */
    method LinkInOrder(element: ListElement<T>, compare: (T, T) -> int)
      requires Valid() && element !in chain && element.next == null
      modifies this, chain, element
      ensures Valid() && items == Inserted(old(items), element.item, compare)
      ensures forall e <- chain :: e in old(chain) || e == element
    {
      hide Place;
      ghost var k := 0;
      if IsEmpty() || compare(element.item, first.item) < 0 {
        LinkFirst(element);
      } else {
        var ptr;
        ptr, k := FindPlace(element.item, compare);
        LinkAfter(ptr, element, k);
      }
      PlaceIs(old(items), element.item, compare, k);
    }

    /** The two branches that `Prepend` and `Insert` share: the only element, or the new first one. */
    method LinkFirst(element: ListElement<T>)
      requires Valid() && element !in chain && element.next == null
      modifies this, element
      ensures Valid() && items == InsertAt(old(items), 0, element.item) && chain == InsertAt(old(chain), 0, element)
    {
      InsertDistinct(chain, 0, element);
      if IsEmpty() {
        first := element;
        last := element;
      } else {
        element.next := first;
        first := element;
      }
      items := InsertAt(items, 0, element.item);
      chain := InsertAt(chain, 0, element);
      numInList := numInList + 1;
    }

    /** The search of `Insert` past the first element. */
    method FindPlace(item: T, compare: (T, T) -> int) returns (ptr: ListElement<T>, ghost k: nat)
      requires Valid() && items != [] && compare(item, items[0]) >= 0
      ensures 0 < k <= |items| && ptr == chain[k - 1] && k == Place(items, item, compare)
    {
      ptr := first;
      k := 1;
      while ptr.next != null && !(compare(item, ptr.next.item) < 0)
        invariant 1 <= k <= |chain| && ptr == chain[k - 1]
        invariant forall i | 0 <= i < k :: compare(item, items[i]) >= 0
        decreases |chain| - k
      {
        ptr := ptr.next;
        k := k + 1;
      }
      PlaceIs(items, item, compare, k);
    }

    method LinkAfter(ptr: ListElement<T>, element: ListElement<T>, ghost k: nat)
      requires Valid() && 0 < k <= |chain| && ptr == chain[k - 1] && element !in chain && element.next == null
      modifies this, ptr, last, element
      ensures Valid() && items == InsertAt(old(items), k, element.item) && chain == InsertAt(old(chain), k, element)
    {
      if ptr.next != null {
        LinkBetween(ptr, element, k);
      } else {
        LinkLast(element);
      }
    }

    method LinkBetween(ptr: ListElement<T>, element: ListElement<T>, ghost k: nat)
      requires Valid() && 0 < k < |chain| && ptr == chain[k - 1] && element !in chain && element.next == null
      modifies this`numInList, this`items, this`chain, ptr, element
      ensures Valid() && items == InsertAt(old(items), k, element.item) && chain == InsertAt(old(chain), k, element)
    {
      InsertDistinct(chain, k, element);
      assert ptr.next == Link(k) && forall i | 0 <= i < |chain| && i != k - 1 :: chain[i] != ptr;
      element.next := ptr.next;
      ptr.next := element;
      numInList := numInList + 1;
      items := InsertAt(items, k, element.item);
      chain := InsertAt(chain, k, element);
    }

    /** Behind the last element, as `Append` does it too. */
    method LinkLast(element: ListElement<T>)
      requires Valid() && chain != [] && element !in chain && element.next == null
      modifies this, last, element
      ensures Valid() && items == InsertAt(old(items), |old(items)|, element.item) && chain == InsertAt(old(chain), |old(chain)|, element)
    {
      last.next := element;
      last := element;
      numInList := numInList + 1;
      items := InsertAt(items, |chain|, element.item);
      chain := InsertAt(chain, |chain|, element);
    }

    /** The checks hold for every list that the methods build. */
    method SanityCheck() returns (ok: bool)
      requires Valid()
      ensures ok
    {
      if first == null {
        return numInList == 0 && last == null;
      } else if first == last {
        return numInList == 1 && last.next == null;
      } else {
        var numFound := 1;
        var ptr := first;
        while ptr != last
          invariant 1 <= numFound <= |chain| && ptr == chain[numFound - 1]
          decreases |chain| - numFound
        {
          numFound := numFound + 1;
          if !(numFound <= numInList) {
            return false;
          }
          ptr := ptr.next;
        }
        return numFound == numInList && last.next == null;
      }
    }
  }
}
