/** 64-bit machine words as integers modulo 2^64, with the ring laws the other modules use. */
module Words {

  const WORD: int := 0x1_0000_0000_0000_0000

  const WORD32: nat := 0x1_0000_0000

  type Word = x: int | 0 <= x < WORD

  function Min(a: int, b: int): int {
    if a < b then a else b
  }

  function Max(a: int, b: int): int {
    if a < b then b else a
  }

  function Pow2(n: nat): (p: nat)
    ensures p >= 1
  {
    if n == 0 then 1 else 2 * Pow2(n - 1)
  }

  function Wrap(x: int): Word {
    x % WORD
  }

  function Plus(a: Word, b: Word): Word {
    if a + b < WORD then a + b else a + b - WORD
  }

  function Minus(a: Word, b: Word): Word {
    if a >= b then a - b else a - b + WORD
  }

  lemma PlusWrap(a: Word, b: Word)
    ensures Plus(a, b) == Wrap(a + b) && Minus(a, b) == Wrap(a - b)
  {
    DivModUnique(a + b, WORD, if a + b < WORD then 0 else 1, Plus(a, b));
    DivModUnique(a - b, WORD, if a >= b then 0 else -1, Minus(a, b));
  }

  function Times(a: Word, b: Word): Word {
    Wrap(a * b)
  }

  /** Adding a multiple of m does not change a remainder modulo m. */
  lemma ModShift(x: int, k: int, m: int)
    requires m > 0
    ensures (x + m * k) % m == x % m
  {
    var q, r := x / m, x % m;
    assert x + m * k == m * (q + k) + r;
    DivModUnique(x + m * k, m, q + k, r);
  }

  lemma MultipleAtLeast(m: int, d: int)
    requires m > 0
    ensures d >= 1 ==> m * d >= m
    ensures d <= -1 ==> m * d <= -m
    ensures d == 0 ==> m * d == 0
  {
  }

  lemma DivModUnique(x: int, m: int, q: int, r: int)
    requires m > 0 && 0 <= r < m
    requires x == m * q + r
    ensures x / m == q && x % m == r
  {
    var q', r' := x / m, x % m;
    assert x == m * q' + r';
    assert m * (q - q') == r' - r;
    MultipleAtLeast(m, q - q');
  }

  lemma WrapTimes(a: int, b: int)
    ensures Wrap(Wrap(a) * b) == Wrap(a * b)
    ensures Wrap(a * Wrap(b)) == Wrap(a * b)
  {
    var qa, qb := a / WORD, b / WORD;
    assert a == WORD * qa + Wrap(a) && b == WORD * qb + Wrap(b);
    assert a * b == Wrap(a) * b + WORD * (qa * b) by {
      assert (WORD * qa + Wrap(a)) * b == WORD * (qa * b) + Wrap(a) * b;
    }
    ModShift(Wrap(a) * b, qa * b, WORD);
    assert a * b == a * Wrap(b) + WORD * (qb * a) by {
      assert a * (WORD * qb + Wrap(b)) == WORD * (qb * a) + a * Wrap(b);
    }
    ModShift(a * Wrap(b), qb * a, WORD);
  }

  lemma WrapPlus(a: int, b: int)
    ensures Wrap(Wrap(a) + b) == Wrap(a + b)
    ensures Wrap(a + Wrap(b)) == Wrap(a + b)
  {
    assert a + b == (Wrap(a) + b) + WORD * (a / WORD);
    ModShift(Wrap(a) + b, a / WORD, WORD);
    assert a + b == (a + Wrap(b)) + WORD * (b / WORD);
    ModShift(a + Wrap(b), b / WORD, WORD);
  }

  lemma TimesAssoc(a: Word, b: Word, c: Word)
    ensures Times(Times(a, b), c) == Times(a, Times(b, c))
  {
    WrapTimes(a * b, c);
    WrapTimes(a, b * c);
    MulAssoc(a, b, c);
  }

  lemma MulAssoc(a: int, b: int, c: int)
    ensures (a * b) * c == a * (b * c)
  {
  }

  lemma TimesOne(a: Word)
    ensures Times(a, 1) == a && Times(1, a) == a
  {
    DivModUnique(a, WORD, 0, a);
  }

  lemma TimesComm(a: Word, b: Word)
    ensures Times(a, b) == Times(b, a)
  {
    assert a * b == b * a;
  }

  lemma TimesPlus(a: Word, b: Word, c: Word)
    ensures Times(Plus(a, b), c) == Plus(Times(a, c), Times(b, c))
  {
    var ac, bc := a * c, b * c;
    calc {
      Times(Plus(a, b), c);
      { PlusWrap(a, b); WrapTimes(a + b, c); }
      Wrap((a + b) * c);
      { assert (a + b) * c == ac + bc; }
      Wrap(ac + bc);
      { ModPlus(ac, bc, WORD); PlusWrap(Wrap(ac), Wrap(bc)); }
      Plus(Wrap(ac), Wrap(bc));
    }
  }

  lemma ModAtMost(x: int, m: int)
    requires x >= 0 && m > 0
    ensures 0 <= x % m <= x
  {
    if x < m {
      DivModUnique(x, m, 0, x);
    }
  }

  /** A power of two divides every larger one. */
  lemma Pow2Split(m: nat, n: nat)
    requires m <= n
    ensures Pow2(n) == Pow2(m) * Pow2(n - m)
  {
    if m < n {
      Pow2Split(m, n - 1);
      DoubleProduct(Pow2(m), Pow2(n - 1 - m));
    }
  }

  lemma DoubleProduct(a: int, b: int)
    ensures 2 * (a * b) == a * (2 * b)
  {
  }

  lemma Pow2Monotone(m: nat, n: nat)
    requires m <= n
    ensures Pow2(m) <= Pow2(n)
    ensures m < n ==> Pow2(m) < Pow2(n)
  {
    if m < n {
      Pow2Monotone(m, n - 1);
    }
  }

  lemma Pow2Word()
    ensures Pow2(64) == WORD && Pow2(63) * 2 == WORD && Pow2(32) == 0x1_0000_0000
  {
    assert Pow2(8) == 256;
    Pow2Split(8, 16);
    Pow2Split(16, 32);
    Pow2Split(32, 64);
  }

  lemma ModNested(x: int, m: int, d: int)
    requires m > 0 && d > 0 && m * d > 0
    ensures (x % (m * d)) % m == x % m
  {
    var n := m * d;
    var q, r := x / n, x % n;
    assert n * q == m * (d * q);
    ModShift(r, d * q, m);
  }

  /** Keeping the low n bits and then the low m bits keeps the low min(m, n) bits. */
  lemma ModPow2Nested(x: int, m: nat, n: nat)
    requires m <= n
    ensures (x % Pow2(n)) % Pow2(m) == x % Pow2(m)
    ensures (x % Pow2(m)) % Pow2(n) == x % Pow2(m)
  {
    Pow2Split(m, n);
    ModNested(x, Pow2(m), Pow2(n - m));
    Pow2Monotone(m, n);
    DivModUnique(x % Pow2(m), Pow2(n), 0, x % Pow2(m));
  }

  lemma WrapLow(x: int, n: nat)
    requires n <= 64
    ensures Wrap(x) % Pow2(n) == x % Pow2(n)
  {
    Pow2Word();
    ModPow2Nested(x, n, 64);
  }

  /** The low n bits of a sum or product depend only on the low n bits of the arguments. */
  lemma ModPlus(a: int, b: int, m: int)
    requires m > 0
    ensures (a % m + b % m) % m == (a + b) % m
  {
    var qa, qb := a / m, b / m;
    assert a + b == (a % m + b % m) + m * (qa + qb);
    ModShift(a % m + b % m, qa + qb, m);
  }

  /** Bit-wise conjunction and exclusive or, bit by bit from the lowest. */
  function BitAnd(a: nat, b: nat): nat {
    if a == 0 || b == 0 then 0 else 2 * BitAnd(a / 2, b / 2) + (a % 2) * (b % 2)
  }

  function BitXor(a: nat, b: nat): nat
    decreases a + b
  {
    if a == 0 && b == 0 then 0
    else 2 * BitXor(a / 2, b / 2) + (if a % 2 == b % 2 then 0 else 1)
  }

  lemma {:induction false} BitXorZero(a: nat)
    ensures BitXor(a, 0) == a && BitXor(0, a) == a
  {
    if a > 0 {
      BitXorZero(a / 2);
    }
  }

  lemma BitAndThree(a: nat)
    ensures BitAnd(a, 3) == a % 4
  {
    if a > 0 {
      var h := a / 2;
      assert BitAnd(h, 1) == h % 2 by {
        if h > 0 {
          assert BitAnd(h / 2, 0) == 0;
        }
      }
      assert a % 4 == 2 * (h % 2) + a % 2;
    }
  }

  lemma {:induction false} BitXorSelf(a: nat)
    ensures BitXor(a, a) == 0
  {
    if a > 0 {
      BitXorSelf(a / 2);
    }
  }
}
