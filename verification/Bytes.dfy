/** Bytes and little-endian numbers. */
module Bytes {
  import opened Words

  type Byte = x: int | 0 <= x < 256

  type Str = seq<Byte>

  /** The number written with the lowest byte first. */
  function LeValue(b: seq<Byte>): nat {
    if b == [] then 0 else b[0] + 256 * LeValue(b[1..])
  }

  /** The n lowest bytes of v. */
  function LeBytes(v: nat, n: nat): (b: seq<Byte>)
    ensures |b| == n
  {
    if n == 0 then [] else [v % 256] + LeBytes(v / 256, n - 1)
  }

  type Word32 = x: int | 0 <= x < 0x1_0000_0000

  /** The 32-bit number stored at a position. */
  function Word32At(b: seq<Byte>, i: nat): Word32
    requires i + 4 <= |b|
  {
    LeBound(b[i..i + 4]);
    Pow256Values();
    LeValue(b[i..i + 4])
  }

  function Zeros(n: nat): (z: seq<Byte>)
    ensures |z| == n
  {
    seq(n, _ => 0)
  }

  /** The leading bytes replaced by those just read, the rest left from before. */
  function Overlaid(got: seq<Byte>, store: seq<Byte>): (r: seq<Byte>)
    requires |got| <= |store|
    ensures |r| == |store|
  {
    got + store[|got|..]
  }

  function Pow256(n: nat): (p: nat)
    ensures p > 0
  {
    if n == 0 then 1 else 256 * Pow256(n - 1)
  }

  /** Writing a number that fits and reading it back. */
  lemma {:induction false} LeRoundTrip(v: nat, n: nat)
    requires v < Pow256(n)
    ensures LeValue(LeBytes(v, n)) == v
  {
    if n > 0 {
      assert v / 256 < Pow256(n - 1);
      LeRoundTrip(v / 256, n - 1);
      assert LeBytes(v, n)[1..] == LeBytes(v / 256, n - 1);
    }
  }

  /** Equally long byte strings with the same value are the same. */
  lemma {:induction false} LeInjective(a: seq<Byte>, b: seq<Byte>)
    requires |a| == |b| && LeValue(a) == LeValue(b)
    ensures a == b
  {
    if a != [] {
      assert a[0] == b[0];
      LeInjective(a[1..], b[1..]);
      assert a == [a[0]] + a[1..] && b == [b[0]] + b[1..];
    }
  }

  lemma {:induction false} LeBound(b: seq<Byte>)
    ensures LeValue(b) < Pow256(|b|)
  {
    if b != [] {
      LeBound(b[1..]);
    }
  }

  lemma Pow256Values()
    ensures Pow256(4) == 0x1_0000_0000 && Pow256(8) == WORD
  {
    assert Pow256(2) == 0x1_0000;
  }
}
