/** The GNU symbol hash (`calcGNUHash` of libpf/pfelf/file.go). */
module ElfHash {
  import opened Words
  import opened Bytes

  const GNU_SEED: nat := 5381

  /** `h += h*32 + c` for the remaining characters, on 32 bits. */
  function GnuHashFrom(s: seq<Byte>, h: nat): nat
    decreases |s|
  {
    if s == [] then h else GnuHashFrom(s[1..], (h + (h * 32 + s[0])) % WORD32)
  }

  function GnuHash(s: seq<Byte>): nat {
    GnuHashFrom(s, GNU_SEED)
  }

  function Pow33(n: nat): nat {
    if n == 0 then 1 else 33 * Pow33(n - 1)
  }

  /** The characters as digits of a number to the base 33, the first one highest. */
  function Base33(s: seq<Byte>): nat {
    if s == [] then 0 else s[0] * Pow33(|s| - 1) + Base33(s[1..])
  }

  lemma Regroup(h: nat, c: nat, q: int, r: int, p: nat, b: nat)
    requires 33 * h + c == WORD32 * q + r
    ensures h * (33 * p) + (c * p + b) == (r * p + b) + WORD32 * (q * p)
  {
    assert (33 * h + c) * p == h * (33 * p) + c * p;
    assert (WORD32 * q + r) * p == WORD32 * (q * p) + r * p;
  }

  /** The wrapping loop computes the plain number modulo 2^32. */
  lemma {:induction false} GnuIsBase33(s: seq<Byte>, h: nat)
    requires h < WORD32
    ensures GnuHashFrom(s, h) == (h * Pow33(|s|) + Base33(s)) % WORD32
    decreases |s|
  {
    if s != [] {
      var t := h + (h * 32 + s[0]);
      var q, r := t / WORD32, t % WORD32;
      GnuIsBase33(s[1..], r);
      Regroup(h, s[0], q, r, Pow33(|s| - 1), Base33(s[1..]));
      ModShift(r * Pow33(|s| - 1) + Base33(s[1..]), q * Pow33(|s| - 1), WORD32);
    }
  }

  method CalcGnuHash(s: seq<Byte>) returns (h: nat)
    ensures h == GnuHash(s) == (GNU_SEED * Pow33(|s|) + Base33(s)) % WORD32
  {
    h := GNU_SEED;
    for i := 0 to |s|
      invariant GnuHashFrom(s[i..], h) == GnuHash(s)
    {
      assert s[i..][1..] == s[i + 1..];
      h := (h + (h * 32 + s[i])) % WORD32;
    }
    GnuIsBase33(s, GNU_SEED);
  }
}
