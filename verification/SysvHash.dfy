/** The System V symbol hash (`calcSysvHash` of libpf/pfelf/file.go) on 32-bit words. */
module SysvHash {
  import opened Words
  import opened Bytes

  const TOP: nat := 0x1000_0000

  /** `h = 16*h + c; h ^= h >> 24 & 0xf0`: the top four bits are folded into bits four to seven and stay. */
  function Step(h: nat, c: Byte): nat {
    var t := (16 * h + c) % WORD32;
    BitXor(t, 16 * (t / TOP))
  }

  function HashFrom(s: seq<Byte>, h: nat): nat
    decreases |s|
  {
    if s == [] then h % TOP else HashFrom(s[1..], Step(h, s[0]))
  }

  /**
   The hash function of the ELF specification, part 2, "Hash Table", on 32 bits: it folds the top
   four bits only if one is set, and then clears them.
   */
  function ReferenceStep(h: nat, c: Byte): nat {
    var t := (16 * h + c) % WORD32;
    var g := TOP * (t / TOP);
    var folded := if g != 0 then BitXor(t, g / 0x100_0000) else t;
    folded % TOP
  }

  function ReferenceHash(s: seq<Byte>, h: nat): nat
    decreases |s|
  {
    if s == [] then h else ReferenceHash(s[1..], ReferenceStep(h, s[0]))
  }

  lemma StepAgrees(h: nat, c: Byte)
    ensures Step(h, c) % TOP == ReferenceStep(h % TOP, c)
  {
    var q, r := h / TOP, h % TOP;
    ModShift(16 * r + c, q, WORD32);
    assert 16 * h + c == 16 * r + c + WORD32 * q;
    var t := (16 * h + c) % WORD32;
    var k := t / TOP;
    assert TOP * k / 0x100_0000 == 16 * k;
    BitXorZero(t);
  }

  /** Clearing the top bits once at the end is as good as clearing them at every character. */
  lemma {:induction false} HashIsReference(s: seq<Byte>, h: nat)
    ensures HashFrom(s, h) == ReferenceHash(s, h % TOP)
    decreases |s|
  {
    if s != [] {
      StepAgrees(h, s[0]);
      HashIsReference(s[1..], Step(h, s[0]));
    }
  }

  method CalcSysvHash(s: seq<Byte>) returns (h: nat)
    ensures h == ReferenceHash(s, 0)
  {
    h := 0;
    for i := 0 to |s|
      invariant HashFrom(s[i..], h) == HashFrom(s, 0)
    {
      assert s[i..][1..] == s[i + 1..];
      h := Step(h, s[i]);
    }
    h := h % TOP;
    HashIsReference(s, 0);
  }
}
