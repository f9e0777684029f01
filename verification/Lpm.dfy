/**
 Longest-prefix-match decomposition of address ranges (lpm/lpm.go): a greedy cover of [start, end)
 by aligned power-of-two blocks, with the 64-bit sums of the source.
 */
module Lpm {
  import opened Words

  datatype Prefix = Prefix(key: Word, length: nat)

  /** The addresses [key, key + 2^exp). */
  datatype Block = Block(key: Word, exp: nat)

  predicate Aligned(x: int, k: nat) {
    x % Pow2(k) == 0
  }

  ghost predicate Contains(b: Block, a: int) {
    b.key <= a < b.key + Pow2(b.exp)
  }

  // ------------------------------------------------------------------ the rightmost set bit

  function TrailingZeros(x: nat): (k: nat)
    requires x > 0
  {
    if x % 2 == 1 then 0 else 1 + TrailingZeros(x / 2)
  }

  function RightmostSetBit(x: Word): nat {
    if x == 0 then 0 else Pow2(TrailingZeros(x))
  }

  lemma {:induction false} AlignedHalf(x: nat, k: nat)
    requires k > 0
    ensures Aligned(x, k) <==> x % 2 == 0 && Aligned(x / 2, k - 1)
  {
    var p := Pow2(k - 1);
    if x % 2 == 0 {
      var h := x / 2;
      assert h == p * (h / p) + h % p;
      assert x == (2 * p) * (h / p) + 2 * (h % p);
      DivModUnique(x, 2 * p, h / p, 2 * (h % p));
    } else {
      var q := x / Pow2(k);
      assert Pow2(k) * q == 2 * (p * q);
      assert x == Pow2(k) * q + x % Pow2(k);
    }
  }

  /** The rightmost set bit is the largest power of two dividing the value. */
  lemma {:induction false} TrailingZerosLargest(x: nat, k: nat)
    requires x > 0
    ensures Aligned(x, k) <==> k <= TrailingZeros(x)
  {
    if k > 0 {
      AlignedHalf(x, k);
      if x % 2 == 0 {
        TrailingZerosLargest(x / 2, k - 1);
      }
    } else {
      assert Pow2(0) == 1;
    }
  }

  lemma AlignedDown(x: int, j: nat, k: nat)
    requires Aligned(x, k) && j <= k
    ensures Aligned(x, j)
  {
    ModPow2Nested(x, j, k);
    assert 0 % Pow2(j) == 0;
  }

  /** Two multiples of 2^k differ by at least 2^k. */
  lemma AlignedGap(a: int, b: int, k: nat)
    requires Aligned(a, k) && Aligned(b, k) && a < b
    ensures a + Pow2(k) <= b
  {
    var m := Pow2(k);
    var d := b / m - a / m;
    assert b - a == m * d;
    MultipleAtLeast(m, d);
  }

  lemma AlignedPlus(x: int, k: nat)
    requires Aligned(x, k)
    ensures Aligned(x + Pow2(k), k)
  {
    ModShift(x, 1, Pow2(k));
  }

  lemma AlignedPow(j: nat, k: nat)
    requires j <= k
    ensures Aligned(Pow2(k), j)
  {
    Pow2Split(j, k);
    ModShift(0, Pow2(k - j), Pow2(j));
  }

  // ------------------------------------------------------------------ one block

  function StartExp(cur: Word): (e: nat)
    ensures e <= 63 && Aligned(cur, e)
  {
    if cur == 0 then
      assert 0 % Pow2(63) == 0;
      63
    else
      StartExpBound(cur);
      TrailingZerosLargest(cur, TrailingZeros(cur));
      TrailingZeros(cur)
  }

  lemma StartExpBound(cur: Word)
    requires cur > 0
    ensures TrailingZeros(cur) <= 63
  {
    if TrailingZeros(cur) >= 64 {
      TrailingZerosLargest(cur, 64);
      Pow2Word();
      DivModUnique(cur, WORD, 0, cur);
      assert false;
    }
  }

  /** The halving loop: the first exponent from `e` down whose block does not pass `end`, sums wrapping. */
  function Shrunk(cur: Word, end: Word, e: nat): (r: nat)
    requires cur < end && e <= 63
    ensures r <= e && Plus(cur, Size(r)) <= end
    ensures forall f :: r < f <= e ==> Plus(cur, Size(f)) > end
  {
    if Plus(cur, Size(e)) <= end then e
    else
      assert e > 0 by {
        assert Size(0) == 1;
      }
      Shrunk(cur, end, e - 1)
  }

  function Size(e: nat): (s: Word)
    requires e <= 63
    ensures s == Pow2(e) && s > 0
  {
    Pow2Word();
    Pow2Monotone(e, 63);
    Pow2(e)
  }

  function Exp(cur: Word, end: Word): (e: nat)
    requires cur < end
    ensures e <= 63 && Aligned(cur, e)
  {
    var e := Shrunk(cur, end, StartExp(cur));
    AlignedDown(cur, e, StartExp(cur));
    e
  }

  function Next(cur: Word, end: Word): Word
    requires cur < end
  {
    Plus(cur, Size(Exp(cur, end)))
  }

  method CalculateRmb(cur: Word, end: Word) returns (rmb: Word)
    requires cur < end
    ensures rmb == Size(Exp(cur, end))
  {
    ghost var e: nat := StartExp(cur);
    if cur == 0 {
      rmb := 0x8000_0000_0000_0000;
      Pow2Word();
    } else {
      assert RightmostSetBit(cur) == Size(e);
      rmb := RightmostSetBit(cur);
    }
    while Plus(cur, rmb) > end
      invariant e <= StartExp(cur) && rmb == Size(e)
      invariant Shrunk(cur, end, e) == Exp(cur, end)
      decreases e
    {
      assert e > 0 by {
        assert Size(0) == 1;
      }
      rmb := rmb / 2;
      e := e - 1;
    }
  }

  // ------------------------------------------------------------------ when the sums do not wrap

  /** No address 2^64 - 2^j lies in the range: exactly then no sum of the loop wraps to zero. */
  ghost predicate NoWrap(start: int, end: int) {
    forall j: nat :: j <= 63 ==> !(start <= WORD - Pow2(j) < end)
  }

  /** A block either stays in the range, or it is one that reaches exactly 2^64. */
  lemma SumBound(cur: Word, e: nat)
    requires e <= 63 && Aligned(cur, e)
    ensures cur + Pow2(e) <= WORD
    ensures cur + Pow2(e) == WORD <==> cur == WORD - Pow2(e)
  {
    Pow2Word();
    AlignedPow(e, 64);
    AlignedGap(cur, WORD, e);
  }

  lemma StepInRange(cur: Word, end: Word)
    requires cur < end && NoWrap(cur, end)
    ensures cur + Pow2(Exp(cur, end)) <= end
    ensures Next(cur, end) == cur + Pow2(Exp(cur, end))
    ensures NoWrap(Next(cur, end), end)
  {
    SumBound(cur, Exp(cur, end));
  }

  function Blocks(cur: Word, end: Word): seq<Block>
    requires cur <= end && NoWrap(cur, end)
    decreases end - cur
  {
    if cur == end then []
    else
      StepInRange(cur, end);
      [Block(cur, Exp(cur, end))] + Blocks(Next(cur, end), end)
  }

  function BitLength(x: nat): nat {
    if x == 0 then 0 else 1 + BitLength(x / 2)
  }

  function LeadingZeros64(x: Word): int {
    64 - BitLength(x)
  }

  lemma {:induction false} BitLengthPow2(e: nat)
    ensures BitLength(Pow2(e)) == e + 1
  {
    if e > 0 {
      BitLengthPow2(e - 1);
      assert Pow2(e) / 2 == Pow2(e - 1);
    }
  }

  function PrefixOf(b: Block): Prefix
    requires b.exp <= 64
  {
    Prefix(b.key, 64 - b.exp)
  }

  function PrefixesOf(bs: seq<Block>): (ps: seq<Prefix>)
    requires forall i :: 0 <= i < |bs| ==> bs[i].exp <= 63
    ensures |ps| == |bs|
    ensures forall i :: 0 <= i < |bs| ==> ps[i] == PrefixOf(bs[i])
  {
    seq(|bs|, i requires 0 <= i < |bs| => PrefixOf(bs[i]))
  }

  lemma {:induction false} BlockExps(cur: Word, end: Word)
    requires cur <= end && NoWrap(cur, end)
    ensures forall i :: 0 <= i < |Blocks(cur, end)| ==> Blocks(cur, end)[i].exp <= 63
    decreases end - cur
  {
    if cur < end {
      StepInRange(cur, end);
      BlockExps(Next(cur, end), end);
    }
  }

  function PrefixList(start: Word, end: Word): seq<Prefix>
    requires start <= end && NoWrap(start, end)
  {
    BlockExps(start, end);
    PrefixesOf(Blocks(start, end))
  }

  datatype Result = EmptyRange | Prefixes(list: seq<Prefix>)

  /** Both passes of the source: the first sizes the list, the second fills it. */
  method CalculatePrefixList(start: Word, end: Word) returns (r: Result)
    requires NoWrap(start, end)
    ensures end <= start ==> r.EmptyRange?
    ensures start < end ==> r == Prefixes(PrefixList(start, end))
  {
    if end <= start {
      return EmptyRange;
    }
    ghost var all := Blocks(start, end);
    var listSize, cur := 0, start;
    while cur < end
      invariant start <= cur <= end && NoWrap(cur, end)
      invariant listSize + |Blocks(cur, end)| == |all|
      decreases end - cur
    {
      StepInRange(cur, end);
      var rmb := CalculateRmb(cur, end);
      listSize := listSize + 1;
      cur := Plus(cur, rmb);
    }
    var list := new Prefix[listSize](_ => Prefix(0, 0));
    FillPrefixes(list, start, end);
    return Prefixes(list[..]);
  }

  /** The second pass: the same steps, writing the prefixes down. */
  method FillPrefixes(list: array<Prefix>, start: Word, end: Word)
    requires start < end && NoWrap(start, end) && list.Length == |Blocks(start, end)|
    modifies list
    ensures list[..] == PrefixList(start, end)
  {
    ghost var all := Blocks(start, end);
    BlockExps(start, end);
    var idx, cur := 0, start;
    while cur < end
      invariant start <= cur <= end && NoWrap(cur, end)
      invariant 0 <= idx <= list.Length == |all| && all[idx..] == Blocks(cur, end)
      invariant forall i :: 0 <= i < idx ==> list[i] == PrefixOf(all[i])
      decreases end - cur
    {
      StepInRange(cur, end);
      var rmb := CalculateRmb(cur, end);
      BitLengthPow2(Exp(cur, end));
      assert all[idx] == all[idx..][0];
      list[idx] := Prefix(cur, 1 + LeadingZeros64(rmb));
      assert all[idx + 1..] == all[idx..][1..];
      cur := Plus(cur, rmb);
      idx := idx + 1;
    }
    assert list[..] == PrefixList(start, end);
  }

  // ------------------------------------------------------------------ exact cover

  /** Aligned blocks laid end to end from lo to hi. */
  ghost predicate Tiles(bs: seq<Block>, lo: int, hi: int) {
    if bs == [] then lo == hi
    else bs[0].key == lo && Aligned(lo, bs[0].exp) && Tiles(bs[1..], lo + Pow2(bs[0].exp), hi)
  }

  /** The greedy blocks are aligned, disjoint and cover exactly [start, end). */
  lemma {:induction false} BlocksTile(cur: Word, end: Word)
    requires cur <= end && NoWrap(cur, end)
    ensures Tiles(Blocks(cur, end), cur, end)
    decreases end - cur
  {
    if cur < end {
      StepInRange(cur, end);
      BlocksTile(Next(cur, end), end);
      assert Blocks(cur, end)[1..] == Blocks(Next(cur, end), end);
    }
  }

  lemma {:induction false} TilesWithin(bs: seq<Block>, lo: int, hi: int)
    requires Tiles(bs, lo, hi)
    ensures lo <= hi
    ensures forall i :: 0 <= i < |bs| ==> lo <= bs[i].key && bs[i].key + Pow2(bs[i].exp) <= hi
    decreases |bs|
  {
    if bs != [] {
      TilesWithin(bs[1..], lo + Pow2(bs[0].exp), hi);
      forall i | 0 <= i < |bs| ensures lo <= bs[i].key && bs[i].key + Pow2(bs[i].exp) <= hi {
        assert i > 0 ==> bs[i] == bs[1..][i - 1];
      }
    }
  }

  /** Exactly the addresses of the range lie in a tile, and in only one. */
  lemma {:induction false} TilesPartition(bs: seq<Block>, lo: int, hi: int, a: int)
    requires Tiles(bs, lo, hi)
    ensures lo <= a < hi <==> exists i :: 0 <= i < |bs| && Contains(bs[i], a)
    ensures forall i, j :: 0 <= i < |bs| && 0 <= j < |bs| && Contains(bs[i], a) && Contains(bs[j], a) ==> i == j
    decreases |bs|
  {
    TilesWithin(bs, lo, hi);
    if bs != [] {
      var mid := lo + Pow2(bs[0].exp);
      var rest := bs[1..];
      TilesPartition(rest, mid, hi, a);
      TilesWithin(rest, mid, hi);
      assert forall i :: 0 < i < |bs| ==> bs[i] == rest[i - 1];
      if lo <= a < hi {
        if a < mid {
          assert Contains(bs[0], a);
        } else {
          var i :| 0 <= i < |rest| && Contains(rest[i], a);
          assert Contains(bs[i + 1], a);
        }
      }
    }
  }

  // ------------------------------------------------------------------ at most 128 blocks

  lemma {:induction false} DescentLength(cur: Word, end: Word, k: nat)
    requires cur <= end && NoWrap(cur, end) && k <= 63
    requires Aligned(cur, k) && end - cur < Pow2(k)
    ensures |Blocks(cur, end)| <= k
    decreases end - cur
  {
    if cur < end {
      StepInRange(cur, end);
      var e := Exp(cur, end);
      if e >= k {
        Pow2Monotone(k, e);
        assert false;
      }
      GreedyLargest(cur, end, e + 1);
      AlignedPlus(cur, e);
      AlignedDown(cur, e + 1, k);
      DescentLength(Next(cur, end), end, e);
    }
  }

  /** No larger aligned block starting at `cur` fits. */
  lemma GreedyLargest(cur: Word, end: Word, f: nat)
    requires cur < end && NoWrap(cur, end)
    ensures Aligned(cur, f) && cur + Pow2(f) <= end ==> f <= Exp(cur, end)
  {
    if Aligned(cur, f) && cur + Pow2(f) <= end {
      Pow2Word();
      if f >= 64 {
        Pow2Monotone(64, f);
        assert false;
      }
      if cur > 0 {
        TrailingZerosLargest(cur, f);
      }
      ShrunkLargest(cur, end, StartExp(cur), f);
    }
  }

  lemma ShrunkLargest(cur: Word, end: Word, e: nat, f: nat)
    requires cur < end && f <= e <= 63 && cur + Pow2(f) <= end
    ensures f <= Shrunk(cur, end, e)
  {
    assert Plus(cur, Size(f)) == cur + Pow2(f);
  }

  lemma {:induction false} AscentLength(cur: Word, end: Word, k: nat)
    requires cur <= end && NoWrap(cur, end) && k <= 64 && Aligned(cur, k)
    ensures |Blocks(cur, end)| <= (64 - k) + 64
    decreases end - cur
  {
    if cur < end {
      StepInRange(cur, end);
      Pow2Word();
      var s, e := StartExp(cur), Exp(cur, end);
      if cur > 0 {
        TrailingZerosLargest(cur, k);
      }
      if e == s && cur > 0 {
        NextLevel(cur);
        AscentLength(Next(cur, end), end, s + 1);
      } else if e == s {
        AlignedPlus(cur, e);
        assert Pow2(63) == end by {
          LowZero(end);
        }
      } else {
        assert Plus(cur, Size(s)) > end;
        SumBound(cur, s);
        DescentLength(cur, end, s);
      }
    }
  }

  lemma LowZero(end: Word)
    requires 0 < end && NoWrap(0, end)
    ensures end <= Pow2(63)
  {
    Pow2Word();
    assert WORD - Pow2(63) == Pow2(63);
  }

  /** Adding the rightmost set bit carries into a higher one. */
  lemma NextLevel(cur: Word)
    requires cur > 0
    ensures Aligned(cur + Pow2(StartExp(cur)), StartExp(cur) + 1)
  {
    var s := StartExp(cur);
    TrailingZerosLargest(cur, s + 1);
    OddMultiple(cur, Pow2(s));
  }

  lemma OddMultiple(x: int, p: int)
    requires p > 0 && x % p == 0 && x % (2 * p) != 0
    ensures (x + p) % (2 * p) == 0
  {
    var k, r := x / (2 * p), x % (2 * p);
    ModNested(x, p, 2);
    var t := r / p;
    assert r == p * t;
    MultipleAtLeast(p, t - 1);
    MultipleAtLeast(p, t);
    assert p * (t - 1) == p * t - p;
    assert r == p;
    assert x + p == 0 + (2 * p) * (k + 1);
    ModShift(0, k + 1, 2 * p);
  }

  /** The list never has more than 128 entries. */
  lemma AtMost128(start: Word, end: Word)
    requires start <= end && NoWrap(start, end)
    ensures |PrefixList(start, end)| <= 128
  {
    assert Pow2(0) == 1;
    AscentLength(start, end, 0);
  }

  // ------------------------------------------------------------------ minimality

  /** Aligned blocks, possibly overlapping, whose union is exactly [lo, hi). */
  ghost predicate ExactCover(s: set<Block>, lo: int, hi: int) {
    && (forall b :: b in s ==> Aligned(b.key, b.exp) && lo <= b.key && b.key + Pow2(b.exp) <= hi)
    && (forall a :: lo <= a < hi ==> Covered(s, a))
  }

  ghost predicate Covered(s: set<Block>, a: int) {
    exists b :: b in s && Contains(b, a)
  }

  /** A block of another cover lies inside the greedy block or entirely after it. */
  lemma NoStraddle(cur: Word, end: Word, b: Block)
    requires cur < end && NoWrap(cur, end)
    requires Aligned(b.key, b.exp) && cur <= b.key && b.key + Pow2(b.exp) <= end
    ensures b.key + Pow2(b.exp) <= Next(cur, end) || Next(cur, end) <= b.key
  {
    var e := Exp(cur, end);
    StepInRange(cur, end);
    AlignedPlus(cur, e);
    var mid := cur + Pow2(e);
    if b.key < mid {
      if b.exp <= e {
        AlignedDown(mid, b.exp, e);
        AlignedGap(b.key, mid, b.exp);
      } else {
        AlignedDown(b.key, e, b.exp);
        if cur < b.key {
          AlignedGap(cur, b.key, e);
        }
        GreedyLargest(cur, end, b.exp);
      }
    }
  }

  /** No cover of the range by aligned blocks uses fewer blocks than the greedy one. */
  lemma {:induction false} Minimal(cur: Word, end: Word, s: set<Block>)
    requires cur <= end && NoWrap(cur, end) && ExactCover(s, cur, end)
    ensures |Blocks(cur, end)| <= |s|
    decreases end - cur
  {
    if cur < end {
      StepInRange(cur, end);
      var mid := Next(cur, end);
      var first := set b | b in s && b.key < mid;
      var rest := s - first;
      forall a | mid <= a < end ensures Covered(rest, a) {
        assert Covered(s, a);
        var b :| b in s && Contains(b, a);
        NoStraddle(cur, end, b);
        assert b in rest;
      }
      assert ExactCover(rest, mid, end);
      assert Covered(s, cur);
      Minimal(mid, end, rest);
      SizeSplit(s, first);
    }
  }

  lemma SizeSplit(s: set<Block>, part: set<Block>)
    requires part <= s && part != {}
    ensures |s - part| < |s|
  {
    assert s == part + (s - part);
  }

  // ------------------------------------------------------------------ when a sum wraps

  /** The value of `currentVal` after n iterations of either loop. */
  ghost function Iterate(start: Word, end: Word, n: nat): Word
    requires start < end
  {
    if n == 0 then start
    else
      var cur := Iterate(start, end, n - 1);
      if cur < end then Next(cur, end) else cur
  }

  lemma PowerMinus(j: nat)
    requires 0 <= j <= 63
    ensures Aligned(WORD - Pow2(j), j) && 0 < WORD - Pow2(j) < WORD
    ensures StartExp(WORD - Pow2(j)) == j
  {
    Pow2Word();
    Pow2Monotone(j, 63);
    AlignedPow(j, 64);
    ModShift(WORD, -1, Pow2(j));
    var c := WORD - Pow2(j);
    TrailingZerosLargest(c, j);
    if j < 63 {
      if Aligned(c, j + 1) {
        AlignedPow(j + 1, 64);
        AlignedGap(c, WORD, j + 1);
        assert false;
      }
      TrailingZerosLargest(c, j + 1);
    }
  }

  /** From an address 2^64 - 2^j the sum wraps, and the loop starts over from zero. */
  lemma WrapsToZero(end: Word, j: nat)
    requires 0 <= j <= 63 && 0 <= WORD - Pow2(j) < end
    ensures Next(WORD - Pow2(j), end) == 0
  {
    PowerMinus(j);
    WrapsAt(WORD - Pow2(j), end, j);
  }

  lemma WrapsAt(c: Word, end: Word, j: nat)
    requires j <= 63 && c < end && c + Size(j) == WORD && StartExp(c) == j
    ensures Next(c, end) == 0
  {
    assert Shrunk(c, end, j) == j;
  }

  lemma FromZero(end: Word)
    requires 0x8000_0000_0000_0000 < end
    ensures Next(0, end) == 0x8000_0000_0000_0000
  {
    Pow2Word();
  }

  lemma {:induction false} BelowWrapPoint(cur: Word, end: Word, j: nat)
    requires 0 <= j <= 63 && cur < WORD - Pow2(j) < end
    ensures Next(cur, end) == 0 || cur < Next(cur, end) <= WORD - Pow2(j)
  {
    var c, e := WORD - Pow2(j), Exp(cur, end);
    SumBound(cur, e);
    Pow2Word();
    if cur + Pow2(e) < WORD && cur + Pow2(e) > c {
      PowerMinus(j);
      AlignedPlus(cur, e);
      if e <= j {
        AlignedDown(c, e, j);
        AlignedGap(cur, c, e);
      } else {
        AlignedPow(e, 64);
        AlignedGap(cur + Pow2(e), WORD, e);
        Pow2Monotone(j, e);
      }
      assert false;
    }
  }

  lemma StaysBelow(v: Word, w: Word, end: Word, j: nat, c: int)
    requires 0 <= j <= 63 && c == WORD - Pow2(j) < end && v < end && w == Next(v, end)
    requires v <= c || v == 0 || v == 0x8000_0000_0000_0000
    ensures w < end
    ensures w == 0 || w == 0x8000_0000_0000_0000 || (v != 0 && v != 0x8000_0000_0000_0000 && v < w <= c)
  {
    Pow2Word();
    Pow2Monotone(j, 63);
    if v == 0 {
      FromZero(end);
    } else if v == 0x8000_0000_0000_0000 {
      WrapsToZero(end, 63);
    } else if v == c {
      WrapsToZero(end, j);
    } else {
      BelowWrapPoint(v, end, j);
    }
  }

  lemma {:induction false} Trapped(start: Word, end: Word, j: nat, c: int, n: nat)
    requires start <= c < end && 0 <= j <= 63 && c == WORD - Pow2(j)
    ensures var v := Iterate(start, end, n);
            v < end && (start <= v <= c || v == 0 || v == 0x8000_0000_0000_0000)
  {
    if n > 0 {
      Trapped(start, end, j, c, n - 1);
      StaysBelow(Iterate(start, end, n - 1), Iterate(start, end, n), end, j, c);
    }
  }

  /** If the range holds an address 2^64 - 2^j, the loops never reach `end`. */
  lemma NeverReturns(start: Word, end: Word, j: nat, n: nat)
    requires start < end && 0 <= j <= 63 && start <= WORD - Pow2(j) < end
    ensures Iterate(start, end, n) < end
    ensures var v := Iterate(start, end, n);
            start <= v <= WORD - Pow2(j) || v == 0 || v == 0x8000_0000_0000_0000
  {
    Trapped(start, end, j, WORD - Pow2(j), n);
  }
}
