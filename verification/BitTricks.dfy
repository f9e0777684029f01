/**
 The machine-word idiom x & -x of lpm/lpm.go on 64-bit vectors, and the number it stands for.
 */
module BitTricks {
  import opened Words
  import opened Lpm

  /** The number a bit vector denotes, bit by bit. */
  function Value(x: bv64): nat
    decreases x
  {
    if x == 0 then 0 else 2 * Value(x >> 1) + (if x & 1 == 1 then 1 else 0)
  }

  function GetRightmostSetBit(x: bv64): bv64 {
    x & (0 - x)
  }

  lemma OddLowBit(x: bv64)
    requires x & 1 == 1
    ensures GetRightmostSetBit(x) == 1
  {
  }

  lemma EvenLowBit(x: bv64)
    requires x & 1 == 0
    ensures GetRightmostSetBit(x) >> 1 == GetRightmostSetBit(x >> 1)
    ensures GetRightmostSetBit(x) & 1 == 0
  {
  }

  lemma HalfNonzero(x: bv64)
    requires x & 1 == 0 && x != 0
    ensures x >> 1 != 0 && GetRightmostSetBit(x) != 0
  {
  }

  lemma LowBitCases(x: bv64)
    ensures x & 1 == 1 || x & 1 == 0
    ensures x != 0 ==> x >> 1 < x
  {
  }

  lemma ValueOne()
    ensures Value(1) == 1
  {
    assert (1 as bv64) >> 1 == 0;
  }

  /** x & -x is the largest power of two dividing x. */
  lemma {:induction false} RightmostSetBitValue(x: bv64)
    requires x != 0
    ensures Value(x) > 0 && Value(GetRightmostSetBit(x)) == Pow2(TrailingZeros(Value(x)))
    decreases x
  {
    LowBitCases(x);
    var h, b := x >> 1, GetRightmostSetBit(x);
    if x & 1 == 1 {
      OddLowBit(x);
      ValueOne();
    } else {
      EvenLowBit(x);
      HalfNonzero(x);
      RightmostSetBitValue(h);
      EvenValue(x, Value(h));
      EvenValue(b, Value(GetRightmostSetBit(h)));
    }
  }

  lemma EvenValue(x: bv64, half: nat)
    requires x & 1 == 0 && x != 0 && Value(x >> 1) == half
    ensures Value(x) == 2 * half
  {
  }
}
