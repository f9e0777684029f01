/**
 Stack fingerprints (internal/stackcompress/jhash.go, support/ebpf/jhash.h): the incremental fold
 of frame words that names a stack in the compression protocol.
 */
module Fingerprint {
  import opened Words
  import opened Bytes

  const STACK_FP_SEED: Word := 0x6c6c70666c6c7066
  const MULTIPLIER_1: Word := 0x9E3779B97F4A7C15
  const MULTIPLIER_2: Word := 0xC2B2AE3D27D4EB4F

  function Xor(a: Word, b: Word): Word {
    Pow2Word();
    XorBelow(a, b, 64);
    BitXor(a, b)
  }

  /** (h << 31) | (h >> 33): the two parts share no bit, so they add up. */
  function Rotated(h: Word): Word {
    (h % 0x2_0000_0000) * 0x8000_0000 + h / 0x2_0000_0000
  }

  function Mixed(h: Word): Word {
    Xor(h, h / 0x2000_0000)
  }

  function FpStep(h: Word, v: Word): Word {
    Mixed(Times(Rotated(Xor(h, Times(v, MULTIPLIER_1))), MULTIPLIER_2))
  }

  /** The fold from a running value over all the words. */
  function Fold(h: Word, words: seq<Word>): Word {
    if words == [] then h else FpStep(Fold(h, words[..|words| - 1]), words[|words| - 1])
  }

  method Fingerprint(frameData: seq<Word>, skipKernelFrames: nat) returns (h: Word)
    requires skipKernelFrames <= |frameData|
    ensures h == Fold(0x6c6c70666c6c7066, frameData[skipKernelFrames..])
  {
    h := STACK_FP_SEED;
    var words := frameData[skipKernelFrames..];
    for i := 0 to |words|
      invariant h == Fold(STACK_FP_SEED, words[..i])
    {
      assert words[..i + 1][..i] == words[..i];
      h := FpStep(h, words[i]);
    }
    assert words[..|words|] == words;
  }

  // ------------------------------------------------------------------ bit-wise exclusive or

  lemma {:induction false} XorBelow(a: nat, b: nat, n: nat)
    requires a < Pow2(n) && b < Pow2(n)
    ensures BitXor(a, b) < Pow2(n)
  {
    if n > 0 {
      XorBelow(a / 2, b / 2, n - 1);
    }
  }

  lemma {:induction false} XorAssoc(a: nat, b: nat, c: nat)
    ensures BitXor(BitXor(a, b), c) == BitXor(a, BitXor(b, c))
    decreases a + b + c
  {
    if a + b + c > 0 {
      XorAssoc(a / 2, b / 2, c / 2);
      XorHalf(a, b);
      XorHalf(b, c);
      XorHalf(BitXor(a, b), c);
      XorHalf(a, BitXor(b, c));
    }
  }

  lemma XorHalf(a: nat, b: nat)
    ensures BitXor(a, b) / 2 == BitXor(a / 2, b / 2)
    ensures BitXor(a, b) % 2 == if a % 2 == b % 2 then 0 else 1
  {
  }

  function Shifted(x: nat, n: nat): nat {
    if n == 0 then x else Shifted(x / 2, n - 1)
  }

  lemma {:induction false} ShiftedDivides(x: nat, n: nat)
    ensures Shifted(x, n) == x / Pow2(n)
  {
    if n == 0 {
      assert Pow2(0) == 1;
    } else {
      ShiftedDivides(x / 2, n - 1);
      HalfThenShift(x, n - 1);
    }
  }

  lemma {:induction false} XorShifted(a: nat, b: nat, n: nat)
    ensures Shifted(BitXor(a, b), n) == BitXor(Shifted(a, n), Shifted(b, n))
  {
    if n > 0 {
      XorHalf(a, b);
      XorShifted(a / 2, b / 2, n - 1);
    }
  }

  lemma HalfThenShift(x: nat, n: nat)
    ensures (x / 2) / Pow2(n) == x / Pow2(n + 1)
  {
    DivDiv(x, 2, Pow2(n));
  }

  lemma Distribute(a: int, b: int, q: int, r: int)
    ensures a * (b * q + r) == (a * b) * q + a * r
  {
  }

  lemma LessThanProduct(a: nat, b: nat, r: nat)
    requires a > 0 && r < b
    ensures a * r + a <= a * b
  {
    assert a * b == a * r + a * (b - r);
    MultipleAtLeast(a, b - r);
  }

  lemma {:induction false} DivDiv(x: nat, a: nat, b: nat)
    requires a > 0 && b > 0
    ensures a * b > 0 && (x / a) / b == x / (a * b)
  {
    MultipleAtLeast(a, b);
    var q, r := x / a, x % a;
    var q', r' := q / b, q % b;
    Distribute(a, b, q', r');
    LessThanProduct(a, b, r');
    DivModUnique(x, a * b, q', a * r' + r);
  }

  /** x and then x again: exclusive or undoes itself on either side. */
  lemma XorUndone(a: nat, b: nat)
    ensures BitXor(BitXor(a, b), b) == a
    ensures BitXor(a, BitXor(a, b)) == b
  {
    XorAssoc(a, b, b);
    BitXorSelf(b);
    BitXorZero(a);
    XorAssoc(a, a, b);
    BitXorSelf(a);
    BitXorZero(b);
  }

  // ------------------------------------------------------------------ every part of a step is injective

  lemma RotatedInjective(a: Word, b: Word)
    requires Rotated(a) == Rotated(b)
    ensures a == b
  {
  }

  /** The final shift and exclusive or is undone by two more of them. */
  lemma MixedUndone(h: Word)
    ensures var y := Mixed(h); BitXor(BitXor(y, y / 0x2000_0000), y / 0x400_0000_0000_0000) == h
  {
    var y, s, t := Mixed(h), h / 0x2000_0000, h / 0x400_0000_0000_0000;
    XorShifted(h, s, 29);
    XorShifted(h, s, 58);
    Shifts(y);
    Shifts(h);
    Shifts(s);
    BitXorZero(t);
    assert s / 0x2000_0000 == t && s / 0x400_0000_0000_0000 == 0;
    assert y == BitXor(h, s) && y / 0x2000_0000 == BitXor(s, t) && y / 0x400_0000_0000_0000 == t;
    XorAssoc(h, s, BitXor(s, t));
    XorUndone(s, t);
    XorUndone(h, t);
  }

  lemma Shifts(x: nat)
    ensures Shifted(x, 29) == x / 0x2000_0000 && Shifted(x, 58) == x / 0x400_0000_0000_0000
  {
    Pow2Split(32, 64);
    Pow2Word();
    assert Pow2(32) == 8 * Pow2(29);
    Pow2Split(58, 64);
    assert Pow2(6) == 64;
    ShiftedDivides(x, 29);
    ShiftedDivides(x, 58);
  }

  lemma MixedInjective(a: Word, b: Word)
    requires Mixed(a) == Mixed(b)
    ensures a == b
  {
    MixedUndone(a);
    MixedUndone(b);
  }

  /** Multiplication by an odd constant is undone by its inverse modulo 2^64. */
  lemma MultipliersInvert(a: Word)
    ensures Times(Times(a, MULTIPLIER_1), 0xF1DE83E19937733D) == a
    ensures Times(Times(a, MULTIPLIER_2), 0x0BA79078168D4BAF) == a
  {
    TimesAssoc(a, MULTIPLIER_1, 0xF1DE83E19937733D);
    TimesAssoc(a, MULTIPLIER_2, 0x0BA79078168D4BAF);
    assert Times(MULTIPLIER_1, 0xF1DE83E19937733D) == 1;
    assert Times(MULTIPLIER_2, 0x0BA79078168D4BAF) == 1;
    TimesOne(a);
  }

  lemma TailInjective(x: Word, y: Word)
    requires Mixed(Times(Rotated(x), MULTIPLIER_2)) == Mixed(Times(Rotated(y), MULTIPLIER_2))
    ensures x == y
  {
    MixedInjective(Times(Rotated(x), MULTIPLIER_2), Times(Rotated(y), MULTIPLIER_2));
    MultipliersInvert(Rotated(x));
    MultipliersInvert(Rotated(y));
    RotatedInjective(x, y);
  }

  /** A step determines the word it folds in, given where it started. */
  lemma StepInjectiveInWord(h: Word, v: Word, w: Word)
    requires FpStep(h, v) == FpStep(h, w)
    ensures v == w
  {
    var a, b := Times(v, MULTIPLIER_1), Times(w, MULTIPLIER_1);
    TailInjective(Xor(h, a), Xor(h, b));
    XorUndone(h, a);
    XorUndone(h, b);
    MultipliersInvert(v);
    MultipliersInvert(w);
  }

  /** A step determines where it started, given the word it folds in. */
  lemma StepInjectiveInState(h: Word, g: Word, v: Word)
    requires FpStep(h, v) == FpStep(g, v)
    ensures h == g
  {
    var a := Times(v, MULTIPLIER_1);
    TailInjective(Xor(h, a), Xor(g, a));
    XorUndone(h, a);
    XorUndone(g, a);
  }

  /** Folding the same words from different states keeps them different. */
  lemma {:induction false} FoldInjective(h: Word, g: Word, words: seq<Word>)
    requires Fold(h, words) == Fold(g, words)
    ensures h == g
  {
    if words != [] {
      var rest, last := words[..|words| - 1], words[|words| - 1];
      StepInjectiveInState(Fold(h, rest), Fold(g, rest), last);
      FoldInjective(h, g, rest);
    }
  }

  lemma {:induction false} FoldConcat(h: Word, a: seq<Word>, b: seq<Word>)
    ensures Fold(h, a + b) == Fold(Fold(h, a), b)
  {
    if b == [] {
      assert a + b == a;
    } else {
      assert (a + b)[..|a + b| - 1] == a + b[..|b| - 1];
      FoldConcat(h, a, b[..|b| - 1]);
    }
  }

  /** Two stacks of equal length that differ in exactly one word never share a fingerprint. */
  lemma OneWordApart(before: seq<Word>, v: Word, w: Word, after: seq<Word>)
    requires Fold(STACK_FP_SEED, before + [v] + after) == Fold(STACK_FP_SEED, before + [w] + after)
    ensures v == w
  {
    FoldConcat(STACK_FP_SEED, before + [v], after);
    FoldConcat(STACK_FP_SEED, before + [w], after);
    FoldInjective(Fold(STACK_FP_SEED, before + [v]), Fold(STACK_FP_SEED, before + [w]), after);
    assert (before + [v])[..|before|] == before && (before + [w])[..|before|] == before;
    StepInjectiveInWord(Fold(STACK_FP_SEED, before), v, w);
  }

  // ------------------------------------------------------------------ the byte view

  function ToBytes(words: seq<Word>): (b: seq<Byte>)
    ensures |b| == 8 * |words|
  {
    if words == [] then [] else ToBytes(words[..|words| - 1]) + LeBytes(words[|words| - 1], 8)
  }

  function WordAt(b: seq<Byte>, i: nat): Word
    requires i + 8 <= |b|
  {
    LeBound(b[i..i + 8]);
    Pow256Values();
    LeValue(b[i..i + 8])
  }

  /** The complete words of a byte string; trailing bytes are ignored. */
  function WordsOf(b: seq<Byte>, n: nat): seq<Word>
    requires 8 * n <= |b|
  {
    if n == 0 then [] else WordsOf(b, n - 1) + [WordAt(b, 8 * (n - 1))]
  }

  lemma FoldNextWord(h: Word, b: seq<Byte>, n: nat)
    requires 8 * n + 8 <= |b|
    ensures Fold(h, WordsOf(b, n + 1)) == FpStep(Fold(h, WordsOf(b, n)), WordAt(b, 8 * n))
  {
    assert WordsOf(b, n + 1)[..|WordsOf(b, n)|] == WordsOf(b, n);
  }

  method FingerprintBytes(b: seq<Byte>) returns (h: Word)
    ensures h == Fold(STACK_FP_SEED, WordsOf(b, |b| / 8))
  {
    h := STACK_FP_SEED;
    var i := 0;
    ghost var n := 0;
    while i + 8 <= |b|
      invariant 0 <= i == 8 * n <= |b|
      invariant h == Fold(STACK_FP_SEED, WordsOf(b, n))
    {
      FoldNextWord(STACK_FP_SEED, b, n);
      h := FpStep(h, WordAt(b, i));
      i := i + 8;
      n := n + 1;
    }
    DivModUnique(|b|, 8, n, |b| - 8 * n);
  }

  lemma MiddleOf(a: seq<Byte>, b: seq<Byte>, c: seq<Byte>)
    ensures (a + b) + c == a + (b + c) && ((a + b) + c)[|a|..|a| + |b|] == b
  {
  }

  lemma {:induction false} WordsRoundTrip(words: seq<Word>, tail: seq<Byte>)
    ensures WordsOf(ToBytes(words) + tail, |words|) == words
  {
    if words != [] {
      var rest, last := words[..|words| - 1], words[|words| - 1];
      var b := ToBytes(words) + tail;
      WordsRoundTrip(rest, LeBytes(last, 8) + tail);
      MiddleOf(ToBytes(rest), LeBytes(last, 8), tail);
      Pow256Values();
      LeRoundTrip(last, 8);
      assert words == rest + [last];
    }
  }

  /** Both views of a stack fold to the same fingerprint. */
  lemma BytesAgree(h: Word, words: seq<Word>)
    ensures Fold(h, WordsOf(ToBytes(words), |ToBytes(words)| / 8)) == Fold(h, words)
  {
    WordsRoundTrip(words, []);
    assert ToBytes(words) + [] == ToBytes(words);
    assert |ToBytes(words)| / 8 == |words|;
  }

  // ------------------------------------------------------------------ the step, bit by bit

  predicate Bit(w: nat, k: nat) {
    if k == 0 then w % 2 == 1 else Bit(w / 2, k - 1)
  }

  lemma {:induction false} XorBit(a: nat, b: nat, k: nat)
    ensures Bit(BitXor(a, b), k) == (Bit(a, k) != Bit(b, k))
    decreases k
  {
    XorHalf(a, b);
    if k > 0 {
      XorBit(a / 2, b / 2, k - 1);
    }
  }

  /** The number moved up by n bits. */
  function Up(w: nat, n: nat): nat {
    if n == 0 then w else 2 * Up(w, n - 1)
  }

  lemma {:induction false} UpIs(w: nat, n: nat)
    ensures Up(w, n) == w * Pow2(n)
  {
    if n > 0 {
      UpIs(w, n - 1);
      DoubleProduct(w, Pow2(n - 1));
    }
  }

  /** Above the low bits stand those of the number moved up. */
  lemma {:induction false} UpBits(high: nat, low: nat, n: nat, k: nat)
    requires low < Pow2(n)
    ensures Bit(Up(high, n) + low, k) == if k >= n then Bit(high, k - n) else Bit(low, k)
    decreases n
  {
    if n > 0 {
      var w := Up(high, n) + low;
      assert w / 2 == Up(high, n - 1) + low / 2 && w % 2 == low % 2;
      if k > 0 {
        UpBits(high, low / 2, n - 1, k - 1);
      }
    }
  }

  lemma Pow2Of29And31And33()
    ensures Pow2(29) == 0x2000_0000 && Pow2(31) == 0x8000_0000 && Pow2(33) == 0x2_0000_0000
  {
    assert Pow2(14) == 16384 && Pow2(15) == 32768 && Pow2(16) == 65536 && Pow2(17) == 131072;
    Pow2Split(14, 29);
    Pow2Split(15, 31);
    Pow2Split(16, 33);
  }

  lemma RotatedBit(x: Word, k: nat)
    requires k < 64
    ensures Bit(Rotated(x), (k + 31) % 64) == Bit(x, k)
  {
    RotatedParts(x, x % 0x2_0000_0000, x / 0x2_0000_0000);
    SwappedBit(x % 0x2_0000_0000, x / 0x2_0000_0000, x, Rotated(x), 33, 31, k);
    Turned(k);
  }

  lemma RotatedParts(x: Word, low: nat, high: nat)
    requires low == x % 0x2_0000_0000 && high == x / 0x2_0000_0000
    ensures Rotated(x) == Up(low, 31) + high && x == Up(high, 33) + low
    ensures low < Pow2(33) && high < Pow2(31)
  {
    Pow2Of29And31And33();
    UpIs(high, 33);
    UpIs(low, 31);
  }

  lemma SwappedBit(low: nat, high: nat, x: nat, r: nat, m: nat, n: nat, k: nat)
    requires low < Pow2(m) && high < Pow2(n) && x == Up(high, m) + low && r == Up(low, n) + high && k < m + n
    ensures k < m ==> Bit(r, k + n) == Bit(x, k)
    ensures k >= m ==> Bit(r, k - m) == Bit(x, k)
  {
    UpBits(high, low, m, k);
    UpBits(low, high, n, if k < m then k + n else k - m);
  }

  lemma Turned(k: nat)
    requires k < 64
    ensures (k + 31) % 64 == if k < 33 then k + 31 else k - 33
  {
  }

  /**
   The step on bits: the product of the word with the first multiplier is xored in, the state is turned
   left by 31 bits, multiplied by the second multiplier, and xored with itself moved right by 29 bits.
   */
  lemma FpStepBits(h: Word, v: Word) returns (x: Word, r: Word, m: Word)
    ensures forall k :: 0 <= k < 64 ==> Bit(x, k) == (Bit(h, k) != Bit((v * 0x9E3779B97F4A7C15) % 0x1_0000_0000_0000_0000, k))
    ensures forall k :: 0 <= k < 64 ==> Bit(r, (k + 31) % 64) == Bit(x, k)
    ensures m == (r * 0xC2B2AE3D27D4EB4F) % 0x1_0000_0000_0000_0000
    ensures forall k :: 0 <= k < 64 ==> Bit(FpStep(h, v), k) == (Bit(m, k) != Bit(m, k + 29))
  {
    x := Xor(h, Times(v, MULTIPLIER_1));
    r := Rotated(x);
    m := Times(r, MULTIPLIER_2);
    forall k | 0 <= k < 64 ensures Bit(x, k) == (Bit(h, k) != Bit((v * 0x9E3779B97F4A7C15) % 0x1_0000_0000_0000_0000, k)) {
      XorBit(h, Times(v, MULTIPLIER_1), k);
    }
    forall k | 0 <= k < 64 ensures Bit(r, (k + 31) % 64) == Bit(x, k) {
      RotatedBit(x, k);
    }
    forall k | 0 <= k < 64 ensures Bit(FpStep(h, v), k) == (Bit(m, k) != Bit(m, k + 29)) {
      MixedBit(m, k);
    }
  }

  lemma MixedBit(m: Word, k: nat)
    ensures Bit(Mixed(m), k) == (Bit(m, k) != Bit(m, k + 29))
  {
    var high, low := m / 0x2000_0000, m % 0x2000_0000;
    Pow2Of29And31And33();
    UpIs(high, 29);
    assert m == Up(high, 29) + low;
    UpBits(high, low, 29, k + 29);
    XorBit(m, high, k);
  }

  /** The fold starts from the seed and takes the words in order. */
  lemma FoldSteps(words: seq<Word>, v: Word)
    ensures Fold(STACK_FP_SEED, []) == 0x6c6c70666c6c7066
    ensures Fold(STACK_FP_SEED, words + [v]) == FpStep(Fold(STACK_FP_SEED, words), v)
  {
    assert (words + [v])[..|words|] == words;
  }
}
