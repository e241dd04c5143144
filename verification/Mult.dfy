/** code/machine/mipssim.cc: the shift-and-add multiplier of the simulated processor. */
module Multiplier {

  const W := 0x1_0000_0000    // 2^32
  const HALF := 0x8000_0000   // 2^31

  type int32 = x: int | -0x8000_0000 <= x < 0x8000_0000
  type uint32 = x: int | 0 <= x < 0x1_0000_0000

  /** The bits of a signed word read as an unsigned one, and back. */
  function U(x: int32): (r: uint32)
    ensures r == x || r == x + 0x1_0000_0000
  {
    if x < 0 then x + W else x
  }

  function S(x: uint32): int32 {
    if x < HALF then x else x - W
  }

  /** Negation in 32 bits: the least integer is its own negative. */
  function Negated(x: int32): int32 {
    if x == -HALF then x else -x
  }

  /** The unsigned number with high word `hi` and low word `lo`. */
  function Wide(hi: uint32, lo: uint32): (r: int)
    ensures r == hi * 0x1_0000_0000 + lo
  {
    hi * W + lo
  }

  function Magnitude(x: int): nat {
    if x < 0 then -x else x
  }

  /** Multiplication, kept apart so that the loop below reasons with linear arithmetic only. */
  function Times(a: int, b: int): int {
    a * b
  }

  /** `*hiPtr` and `*loPtr` as returned hold the exact 64-bit product, for all operands. */
  method Mult(a: int32, b: int32, signedArith: bool) returns (hiPtr: int32, loPtr: int32)
    ensures signedArith ==> hiPtr * W + U(loPtr) == a * b
    ensures !signedArith ==> Wide(U(hiPtr), U(loPtr)) == U(a) * U(b)
  {
    if a == 0 || b == 0 {
      return 0, 0;
    }
    var negative := false;
    var a1, b1 := a, b;
    if signedArith {
      if a1 < 0 {
        negative := !negative;
        a1 := Negated(a1);
      }
      if b1 < 0 {
        negative := !negative;
        b1 := Negated(b1);
      }
    }
    var hi, lo := ShiftAdd(a1, b1);
    assert signedArith ==> U(a1) == Magnitude(a) && U(b1) == Magnitude(b);
    SignsMultiply(a, b);
    if negative {
      ghost var n := Wide(hi, lo);
      hi := W - 1 - hi;
      lo := W - 1 - lo;
      lo := (lo + 1) % W;
      if lo == 0 {
        hi := (hi + 1) % W;
      }
      assert 0 < n <= HALF * HALF;
      assert Wide(hi, lo) == W * W - n;
    }
    hiPtr, loPtr := S(hi), S(lo);
  }

  lemma SignsMultiply(a: int, b: int)
    requires 0 < Magnitude(a) <= HALF && 0 < Magnitude(b) <= HALF
    ensures a * b == (if (a < 0) == (b < 0) then 1 else -1) * (Magnitude(a) * Magnitude(b))
    ensures 0 < Magnitude(a) * Magnitude(b) <= HALF * HALF
  {
    ProductFits(Magnitude(a), Magnitude(b), HALF, HALF);
  }

  lemma ProductFits(a: int, b: int, m: int, n: int)
    requires 0 < a <= m && 0 < b <= n
    ensures 0 < a * b <= m * n
  {
    assert a * b <= m * b <= m * n;
  }

  /** The main loop: the product of the operands read as unsigned words, whatever sign the shifted `a` has. */
  method ShiftAdd(a0: int32, b0: int32) returns (hi: uint32, lo: uint32)
    requires a0 != 0 && b0 != 0
    ensures Wide(hi, lo) == Times(U(a0), U(b0))
  {
    hide Times, Power;
    var a: int32 := a0;
    var bLo: uint32, bHi: uint32 := U(b0), 0;
    hi, lo := 0, 0;
    ghost var b, used := U(b0), 0;  // used is the value of the bits of a0 seen so far
    var i := 0;
    FirstRound(a0, b);
    while i < 32
      invariant 0 <= i <= 32 && Split(a0, a, used, i)
      invariant Wide(hi, lo) == Times(used, b)
      invariant Wide(bHi, bLo) == Times(Power(i), b)
    {
      NextRound(a0, a, used, i, b);
      if a % 2 == 1 {
        AddWide(hi, lo, bHi, bLo);
        lo := (lo + bLo) % W;
        if lo < bLo {
          hi := (hi + 1) % W;
        }
        hi := (hi + bHi) % W;
        used := used + Power(i);
        if a - 1 == 0 {
          return;
        }
      }
      DoubleWide(bHi, bLo);
      bHi := (2 * bHi) % W;
      if bLo >= HALF {
        bHi := bHi + 1;
      }
      bLo := (2 * bLo) % W;
      a := a / 2;
      i := i + 1;
    }
    LastRound(a0, a, used);
  }

  /** After `i` rounds `a0` splits into the bits seen so far and the shifted rest, which keeps its sign. */
  ghost predicate Split(a0: int, a: int, used: int, i: nat) {
    0 <= used < Power(i) && used + Power(i) * a == a0
  }

  lemma FirstRound(a0: int32, b: int)
    ensures Split(a0, a0, 0, 0) && Times(0, b) == 0 && Times(Power(0), b) == b
  {
  }

  lemma NextRound(a0: int32, a: int32, used: int, i: nat, b: int)
    requires i < 32 && Split(a0, a, used, i) && 0 < b < W
    ensures a % 2 == 0 ==> Split(a0, a / 2, used, i + 1)
    ensures a % 2 == 1 ==> Split(a0, a / 2, used + Power(i), i + 1)
    ensures a == 1 ==> used + Power(i) == U(a0)
    ensures Times(used + Power(i), b) == Times(used, b) + Times(Power(i), b) < W * W
    ensures Times(Power(i + 1), b) == 2 * Times(Power(i), b) < W * W
  {
    hide Power, Times;
    PowerBounds(i);
    HalveFactor(Power(i), a);
    TimesGrows(used, Power(i), b);
    TimesGrows(Power(i), Power(i), b);
  }

  lemma HalveFactor(p: int, a: int)
    ensures p * a == (2 * p) * (a / 2) + (if a % 2 == 1 then p else 0)
  {
    var q := a / 2;
    assert a == 2 * q + a % 2;
    assert p * (2 * q) == (2 * p) * q;
  }

  lemma TimesGrows(x: int, y: int, b: int)
    requires 0 <= x && 0 < y && x + y <= W && 0 < b < W
    ensures Times(x + y, b) == Times(x, b) + Times(y, b) < W * W
    ensures x == y ==> Times(x + y, b) == Times(2 * x, b)
  {
    ProductFits(x + y, b, W, W - 1);
  }

  lemma LastRound(a0: int32, a: int32, used: int)
    requires Split(a0, a, used, 32)
    ensures used == U(a0)
  {
    hide Power;
    PowerBounds(31);
    ByW(Power(32), a);
  }

  lemma ByW(p: int, a: int)
    requires p == W
    ensures p * a == W * a
  {
  }

  function Power(i: nat): nat {
    if i == 0 then 1 else 2 * Power(i - 1)
  }

  lemma PowerBounds(i: nat)
    requires i < 32
    ensures 0 < Power(i) <= HALF && Power(i + 1) == 2 * Power(i) && (i == 31 ==> Power(i) == HALF)
  {
    PowerSum(i, 31 - i);
    assert Power(8) == 256;
    assert Power(16) == 0x1_0000;
    assert Power(24) == 0x100_0000;
    assert Power(31) == HALF;
  }

  lemma {:induction false} PowerSum(i: nat, j: nat)
    ensures 0 < Power(i) <= Power(i + j)
  {
    if j > 0 { PowerSum(i, j - 1); } else if i > 0 { PowerSum(i - 1, 0); }
  }

  /** Adding low words with a carry and then high words adds the wide numbers, as long as the sum fits. */
  lemma AddWide(hi: uint32, lo: uint32, bHi: uint32, bLo: uint32)
    requires Wide(hi, lo) + Wide(bHi, bLo) < W * W
    ensures var l := (lo + bLo) % W;
            var h := if l < bLo then (hi + 1) % W else hi;
            Wide((h + bHi) % W, l) == Wide(hi, lo) + Wide(bHi, bLo)
  {
  }

  lemma DoubleWide(bHi: uint32, bLo: uint32)
    requires 2 * Wide(bHi, bLo) < W * W
    ensures var h := (2 * bHi) % W + if bLo >= HALF then 1 else 0;
            0 <= h < W && Wide(h, (2 * bLo) % W) == 2 * Wide(bHi, bLo)
  {
  }
}
