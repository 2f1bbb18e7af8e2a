/**
 Bit-level facts about 16-bit words (Rust's `u16`), stated once so that the
 rest of the model can reason about a word through the set of positions of its
 one bits (`Ones`) instead of through bit-vector arithmetic. Bit positions are
 themselves `bv16` values, as the shift amounts are in the Rust code.
 */
module Bits {

  /** Bit number i of w, counting from the least significant bit: `w & (1 << i) != 0`. */
  predicate Bit(w: bv16, i: bv16)
    requires i < 16
  {
    (w & ((1 as bv16) << i)) != 0
  }

  /** Positions of the one bits of w at or above position i. */
  function OnesFrom(w: bv16, i: bv16): set<bv16>
    requires i <= 16
    decreases 16 - i
  {
    if i == 16 then {}
    else (if Bit(w, i) then {i} else {}) + OnesFrom(w, i + 1)
  }

  /** Positions of all one bits of w. */
  function Ones(w: bv16): set<bv16> {
    OnesFrom(w, 0)
  }

  lemma {:induction false} InOnesFrom(w: bv16, i: bv16, j: bv16)
    requires i <= 16
    ensures j in OnesFrom(w, i) <==> i <= j < 16 && Bit(w, j)
    decreases 16 - i
  {
    if i < 16 {
      InOnesFrom(w, i + 1, j);
    }
  }

  /** Membership in `Ones` is the bit test. */
  lemma InOnes(w: bv16, j: bv16)
    ensures j in Ones(w) <==> j < 16 && Bit(w, j)
  {
    InOnesFrom(w, 0, j);
  }

  /** Number of one bits of w at or above position i. */
  function CountOnesFrom(w: bv16, i: bv16): (n: nat)
    requires i <= 16
    ensures n == |OnesFrom(w, i)|
    decreases 16 - i
  {
    if i == 16 then 0
    else
      InOnesFrom(w, i + 1, i);
      (if Bit(w, i) then 1 else 0) + CountOnesFrom(w, i + 1)
  }

  /** The population count of w (Rust's `u16::count_ones`). */
  function CountOnes(w: bv16): (n: nat)
    ensures n == |Ones(w)|
  {
    CountOnesFrom(w, 0)
  }

  /** Position of the lowest one bit of w at or above i, or 16 if there is none. */
  function TrailingZerosFrom(w: bv16, i: bv16): (n: bv16)
    requires i <= 16
    ensures i <= n <= 16
    decreases 16 - i
  {
    if i == 16 then 16
    else if Bit(w, i) then i
    else TrailingZerosFrom(w, i + 1)
  }

  /** The bits of w below position i are all clear: `w & ((1 << i) - 1) == 0`. */
  predicate LowClear(w: bv16, i: bv16)
    requires i <= 16
  {
    (w & (((1 as bv16) << i) - 1)) == 0
  }

  /** Searching upwards from i over clear low bits finds the lowest one bit, with
      every bit below it clear; it runs off the top only for the zero word. */
  lemma {:induction false} TrailingZerosFromSpec(w: bv16, i: bv16)
    requires i <= 16
    requires LowClear(w, i)
    ensures var n := TrailingZerosFrom(w, i);
      && (n < 16 ==> Bit(w, n) && LowClear(w, n))
      && (n == 16 ==> w == 0)
    decreases 16 - i
  {
    if i == 16 {
      AllLowClear(w);
    } else if !Bit(w, i) {
      LowBitsStep(w, i);
      TrailingZerosFromSpec(w, i + 1);
    }
  }

  /** The number of trailing zero bits of w (Rust's `u16::trailing_zeros`): the
      position of the lowest one bit, or 16 for the zero word. */
  function TrailingZeros(w: bv16): (n: bv16)
    ensures n <= 16
    ensures n < 16 ==> n in Ones(w)
    ensures n == 16 ==> Ones(w) == {}
    ensures forall j :: j in Ones(w) ==> n <= j
  {
    var n := TrailingZerosFrom(w, 0);
    TrailingZerosFromSpec(w, 0);
    InOnes(w, n);
    forall j | j in Ones(w)
      ensures n < 16 && n <= j
    {
      InOnes(w, j);
      if n == 16 {
        assert Bit(w, j);
      } else if j < n {
        LowBitsClear(w, n, j);
      }
    }
    n
  }

  /** When the bits of w below n are clear, no bit below n is set. */
  lemma LowBitsClear(w: bv16, n: bv16, j: bv16)
    requires j < n < 16
    requires LowClear(w, n)
    ensures !Bit(w, j)
  {
  }

  /** Extending the run of clear low bits by one clear bit. */
  lemma LowBitsStep(w: bv16, i: bv16)
    requires i < 16
    requires LowClear(w, i)
    requires !Bit(w, i)
    ensures LowClear(w, i + 1)
  {
  }

  /** A word whose sixteen low bits are clear is zero. */
  lemma AllLowClear(w: bv16)
    requires LowClear(w, 16)
    ensures w == 0
  {
  }

  /** A word with exactly one one bit has it at the trailing-zero position. */
  lemma SingletonOnes(w: bv16)
    requires |Ones(w)| == 1
    ensures TrailingZeros(w) < 16
    ensures Ones(w) == {TrailingZeros(w)}
  {
    var ones := Ones(w);
    var n := TrailingZeros(w);
    assert ones != {};
    assert n < 16 && n in ones;
    forall y
      ensures y in ones <==> y == n
    {
      if y in ones && y != n {
        assert {n, y} <= ones;
        SubsetSize({n, y}, ones);
      }
    }
    OnlyElement(ones, n);
  }

  /** A set whose members are exactly n is {n}. */
  lemma OnlyElement<T>(s: set<T>, n: T)
    requires forall y :: y in s <==> y == n
    ensures s == {n}
  {
  }

  lemma SubsetSize<T>(a: set<T>, b: set<T>)
    requires a <= b
    ensures |a| <= |b|
  {
    assert b == a + (b - a);
  }

  /** Clearing bit v of w leaves every other bit as it was. */
  lemma BitClear(w: bv16, v: bv16, j: bv16)
    requires v < 16 && j < 16
    ensures Bit(w & !((1 as bv16) << v), j) <==> Bit(w, j) && j != v
  {
  }

  /** w with bit v cleared: `w & !(1 << v)`. Exactly v leaves the one-bit positions. */
  function ClearBit(w: bv16, v: bv16): (r: bv16)
    requires v < 16
    ensures Ones(r) == Ones(w) - {v}
  {
    var r := w & !((1 as bv16) << v);
    forall j
      ensures j in Ones(r) <==> j in Ones(w) && j != v
    {
      InOnes(r, j);
      InOnes(w, j);
      if j < 16 {
        BitClear(w, v, j);
      }
    }
    r
  }

  /** A word is determined by its sixteen bits. */
  lemma WordOfBits(a: bv16, b: bv16)
    requires Bit(a, 0) == Bit(b, 0)
    requires Bit(a, 1) == Bit(b, 1)
    requires Bit(a, 2) == Bit(b, 2)
    requires Bit(a, 3) == Bit(b, 3)
    requires Bit(a, 4) == Bit(b, 4)
    requires Bit(a, 5) == Bit(b, 5)
    requires Bit(a, 6) == Bit(b, 6)
    requires Bit(a, 7) == Bit(b, 7)
    requires Bit(a, 8) == Bit(b, 8)
    requires Bit(a, 9) == Bit(b, 9)
    requires Bit(a, 10) == Bit(b, 10)
    requires Bit(a, 11) == Bit(b, 11)
    requires Bit(a, 12) == Bit(b, 12)
    requires Bit(a, 13) == Bit(b, 13)
    requires Bit(a, 14) == Bit(b, 14)
    requires Bit(a, 15) == Bit(b, 15)
    ensures a == b
  {
  }

  /** A word is determined by the positions of its one bits. */
  lemma OnesInjective(a: bv16, b: bv16)
    requires Ones(a) == Ones(b)
    ensures a == b
  {
    forall k | k < 16
      ensures Bit(a, k) == Bit(b, k)
    {
      InOnes(a, k);
      InOnes(b, k);
    }
    WordOfBits(a, b);
  }

  /** `w & 0xFC01 == 0` says that bits 0 and 10..15 are clear, so every one bit
      of w lies in 1..9. */
  lemma StrayBitsClear(w: bv16)
    ensures (w & 0xFC01) == 0 <==> forall j | j in Ones(w) :: 1 <= j <= 9
  {
    forall j
      ensures j in Ones(w) <==> j < 16 && Bit(w, j)
    {
      InOnes(w, j);
    }
    if (w & 0xFC01) != 0 {
      assert Bit(w, 0) || Bit(w, 10) || Bit(w, 11) || Bit(w, 12)
        || Bit(w, 13) || Bit(w, 14) || Bit(w, 15);
    }
  }

  /** The one bits of 0x03FE are exactly positions 1..9. */
  lemma OnesOfFullSet()
    ensures Ones(0x03FE) == {1, 2, 3, 4, 5, 6, 7, 8, 9}
  {
    forall j
      ensures j in Ones(0x03FE) <==> 1 <= j <= 9
    {
      InOnes(0x03FE, j);
    }
  }
}
