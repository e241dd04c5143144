/** code/lib/bitmap.cc: a set of small integers kept as the bits of an array of words. */
module Bitmaps {
  import opened Words
  import opened Bits

  const BITS_IN_WORD := 32

  /** The words needed to hold `n` bits. */
  function WordsFor(n: nat): nat {
    n / BITS_IN_WORD + if n % BITS_IN_WORD > 0 then 1 else 0
  }

  /** What a word array means: bit `i` lives in word `i / 32`, position `i % 32`. */
  function BitsOf(words: seq<word>, n: nat): (bits: seq<bool>)
    requires n <= BITS_IN_WORD * |words|
    ensures |bits| == n
  {
    if n == 0 then [] else BitsOf(words, n - 1) + [Bit(words[(n - 1) / BITS_IN_WORD], (n - 1) % BITS_IN_WORD)]
  }

  lemma {:induction false} BitsAt(words: seq<word>, n: nat, i: nat)
    requires i < n <= BITS_IN_WORD * |words|
    ensures BitsOf(words, n)[i] == Bit(words[i / BITS_IN_WORD], i % BITS_IN_WORD)
  {
    if i < n - 1 { BitsAt(words, n - 1, i); }
  }

  /** The first clear bit at or after `from`, or -1. */
  function FirstClear(bits: seq<bool>, from: nat := 0): (r: int)
    requires from <= |bits|
    ensures r == -1 || from <= r < |bits|
    ensures r == -1 ==> forall i | from <= i < |bits| :: bits[i]
    ensures r != -1 ==> !bits[r] && forall i | from <= i < r :: bits[i]
    decreases |bits| - from
  {
    if from == |bits| then -1
    else if !bits[from] then from
    else FirstClear(bits, from + 1)
  }

  /** The number of clear bits. */
  function CountClear(bits: seq<bool>): nat {
    if |bits| == 0 then 0
    else CountClear(bits[..|bits| - 1]) + if bits[|bits| - 1] then 0 else 1
  }

  lemma {:induction false} CountClearAfterMark(bits: seq<bool>, i: nat)
    requires i < |bits| && !bits[i]
    ensures CountClear(bits[i := true]) == CountClear(bits) - 1
  {
    var n := |bits| - 1;
    if i == n {
      assert bits[i := true][..n] == bits[..n];
    } else {
      assert bits[i := true][..n] == bits[..n][i := true];
      CountClearAfterMark(bits[..n], i);
    }
  }

  lemma {:induction false} CountClearZero(bits: seq<bool>)
    ensures CountClear(bits) == 0 <==> forall i | 0 <= i < |bits| :: bits[i]
  {
    if |bits| > 0 {
      var n := |bits| - 1;
      CountClearZero(bits[..n]);
      assert bits == bits[..n] + [bits[n]];
    }
  }

  /** `FindAndSet` runs dry exactly when no bit is left. */
  lemma FindFailsIffFull(bits: seq<bool>)
    ensures FirstClear(bits) == -1 <==> CountClear(bits) == 0
  {
    CountClearZero(bits);
  }

  /** `words[w] |= 1 << k` changes bit `k` of word `w` and no other bit of the bitmap. */
  lemma OrMarksOneBit(words: seq<word>, n: nat, which: nat)
    requires |words| == WordsFor(n) && which < n
    ensures var w := Or(words[which / BITS_IN_WORD], Pow2(which % BITS_IN_WORD));
            w < 0x1_0000_0000 &&
            BitsOf(words[which / BITS_IN_WORD := w], n) == BitsOf(words, n)[which := true]
  {
    var i, k := which / BITS_IN_WORD, which % BITS_IN_WORD;
    Pow2Of32();
    Pow2Monotone(k, 32);
    OrFits(words[i], Pow2(k), 32);
    var w := Or(words[i], Pow2(k));
    var before, after := BitsOf(words, n), BitsOf(words[i := w], n);
    forall j | 0 <= j < n
      ensures after[j] == before[which := true][j]
    {
      BitsAt(words, n, j);
      BitsAt(words[i := w], n, j);
      BitOfOr(words[i], Pow2(k), j % BITS_IN_WORD);
      BitOfPow2(k, j % BITS_IN_WORD);
    }
  }

  /** `words[w] &= ~(1 << k)` clears bit `k` of word `w` and no other bit of the bitmap. */
  lemma AndNotClearsOneBit(words: seq<word>, n: nat, which: nat)
    requires |words| == WordsFor(n) && which < n
    ensures Pow2(which % BITS_IN_WORD) < Pow2(32)
    ensures var w := And(words[which / BITS_IN_WORD], Not(Pow2(which % BITS_IN_WORD), 32));
            BitsOf(words[which / BITS_IN_WORD := w], n) == BitsOf(words, n)[which := false]
  {
    var i, k := which / BITS_IN_WORD, which % BITS_IN_WORD;
    Pow2Monotone(k, 32);
    var mask := Not(Pow2(k), 32);
    var w := And(words[i], mask);
    var before, after := BitsOf(words, n), BitsOf(words[i := w], n);
    forall j | 0 <= j < n
      ensures after[j] == before[which := false][j]
    {
      BitsAt(words, n, j);
      BitsAt(words[i := w], n, j);
      BitOfAnd(words[i], mask, j % BITS_IN_WORD);
      BitOfNot(Pow2(k), 32, j % BITS_IN_WORD);
      BitOfPow2(k, j % BITS_IN_WORD);
    }
  }

  /** `words[w] & (1 << k)` is non-zero exactly when bit `k` is set. */
  lemma AndTestsOneBit(w: word, k: nat)
    requires k < 32
    ensures And(w, Pow2(k)) != 0 <==> Bit(w, k)
  {
    BitOfAnd(w, Pow2(k), k);
    BitOfPow2(k, k);
    if And(w, Pow2(k)) != 0 {
      Pow2Of32();
      var j := NonzeroHasBit(And(w, Pow2(k)), 32);
      BitOfAnd(w, Pow2(k), j);
      BitOfPow2(k, j);
    } else {
      ZeroHasNoBits(k);
    }
  }

  class Bitmap {
    const numBits: nat
    const words: array<word>

    ghost predicate Valid()
      reads words
    {
      words.Length == WordsFor(numBits)
    }

    ghost function Contents(): (bits: seq<bool>)
      requires Valid()
      reads words
      ensures |bits| == numBits
    {
      BitsOf(words[..], numBits)
    }

    constructor (numItems: nat)
      requires numItems > 0
      ensures Valid() && fresh(words) && numBits == numItems
      ensures Contents() == seq(numItems, i => false)
    {
      numBits := numItems;
      words := new word[WordsFor(numItems)](i => 0);
      new;
      forall i | 0 <= i < numItems
        ensures !Contents()[i]
      {
        BitsAt(words[..], numBits, i);
        ZeroHasNoBits(i % BITS_IN_WORD);
      }
      for i := 0 to numItems
        invariant Contents() == seq(numItems, i => false)
      {
        Clear(i);
      }
    }

    method Mark(which: nat)
      requires Valid() && which < numBits
      modifies words
      ensures Valid() && Contents() == old(Contents())[which := true]
    {
      OrMarksOneBit(words[..], numBits, which);
      ghost var before := words[..];
      var i := which / BITS_IN_WORD;
      words[i] := Or(words[i], Pow2(which % BITS_IN_WORD));
      assert words[..] == before[i := words[i]];
    }

    method Clear(which: nat)
      requires Valid() && which < numBits
      modifies words
      ensures Valid() && Contents() == old(Contents())[which := false]
    {
      AndNotClearsOneBit(words[..], numBits, which);
      ghost var before := words[..];
      var i := which / BITS_IN_WORD;
      words[i] := And(words[i], Not(Pow2(which % BITS_IN_WORD), 32));
      assert words[..] == before[i := words[i]];
    }

    method Test(which: nat) returns (set_: bool)
      requires Valid() && which < numBits
      ensures set_ == Contents()[which]
    {
      BitsAt(words[..], numBits, which);
      AndTestsOneBit(words[which / BITS_IN_WORD], which % BITS_IN_WORD);
      set_ := And(words[which / BITS_IN_WORD], Pow2(which % BITS_IN_WORD)) != 0;
    }

    method FindAndSet() returns (r: int)
      requires Valid()
      modifies words
      ensures Valid() && r == FirstClear(old(Contents()))
      ensures Contents() == if r == -1 then old(Contents()) else old(Contents())[r := true]
    {
      for i := 0 to numBits
        invariant words[..] == old(words[..])
        invariant FirstClear(Contents()) == FirstClear(Contents(), i)
      {
        var t := Test(i);
        if !t {
          Mark(i);
          return i;
        }
      }
      return -1;
    }

    method NumClear() returns (count: nat)
      requires Valid()
      ensures count == CountClear(Contents())
    {
      count := 0;
      for i := 0 to numBits
        invariant count == CountClear(Contents()[..i])
      {
        var t := Test(i);
        if !t {
          count := count + 1;
        }
        assert Contents()[..i + 1][..i] == Contents()[..i];
      }
      assert Contents()[..numBits] == Contents();
    }
  }
}
