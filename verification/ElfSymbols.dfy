/**
 `LookupSymbol` of libpf/pfelf/file.go over mapped memory: what it finds, when it stops, and that on
 well-formed tables it agrees with looking at every symbol.
 */
module ElfSymbols {
  import opened Words
  import opened Bytes
  import opened ElfHash
  import opened Wrappers
  import opened ElfMemory
  import SysvHash

  const SYMBOL_SIZE := 24
  const GNU_HEADER := 16
  const SYSV_HEADER := 8

  datatype Symbol = Symbol(value: nat, size: nat)

  /** A symbol is read in one piece. */
  function SymbolBytes(f: Elf, n: nat): (r: Option<seq<Byte>>)
    ensures r.Some? ==> |r.value| == SYMBOL_SIZE
  {
    var b := Present(f, f.symbols + SYMBOL_SIZE * n, SYMBOL_SIZE);
    if |b| < SYMBOL_SIZE then None else Some(b)
  }

  function SymbolAt(f: Elf, n: nat): Option<Symbol> {
    match SymbolBytes(f, n)
    case None => None
    case Some(b) => Some(Symbol(LeValue(b[8..16]), LeValue(b[16..24])))
  }

  /** Where the name of a symbol is. */
  function NameAddr(f: Elf, n: nat): Option<int> {
    match SymbolBytes(f, n)
    case None => None
    case Some(b) => Some(f.strings + LeValue(b[..4]))
  }

  /** `readAndMatchSymbol` */
  predicate Matches(f: Elf, n: nat, name: seq<Byte>) {
    NameAddr(f, n).Some? && TextAt(f, NameAddr(f, n).value, name)
  }

  // ------------------------------------------------------------------ names

  function NameOf(f: Elf, n: nat): Option<seq<Byte>> {
    if NameAddr(f, n).None? then None else CString(Tail(f, NameAddr(f, n).value))
  }

  lemma MatchIsName(f: Elf, n: nat, name: seq<Byte>)
    requires 0 !in name
    ensures Matches(f, n, name) <==> NameOf(f, n) == Some(name)
  {
    if NameAddr(f, n).Some? {
      TextIsString(Tail(f, NameAddr(f, n).value), name);
    }
  }

  /** Plain search: the first symbol from `n` on with that name. */
  function Linear(f: Elf, name: seq<Byte>, n: nat, end: nat): (r: Option<nat>)
    ensures r.Some? ==> n <= r.value < end && NameOf(f, r.value) == Some(name)
    decreases end - n
  {
    if n >= end then None else if NameOf(f, n) == Some(name) then Some(n) else Linear(f, name, n + 1, end)
  }

  lemma {:induction false} LinearIsFirst(f: Elf, name: seq<Byte>, n: nat, end: nat, k: nat)
    requires n <= k < end && NameOf(f, k) == Some(name)
    ensures var r := Linear(f, name, n, end); r.Some? && r.value <= k
    decreases end - n
  {
    if n < k {
      LinearIsFirst(f, name, n + 1, end, k);
    }
  }

  // ------------------------------------------------------------------ the GNU table

  datatype GnuHeader = GnuHeader(numBuckets: nat, symbolOffset: nat, bloomSize: nat, bloomShift: nat)

  datatype Outcome = At(n: nat) | Absent | Unreadable | Crash

  predicate Bit(w: nat, k: nat) {
    w / Pow2(k) % 2 == 1
  }

  function Sub32(a: nat, b: nat): nat {
    (a - b) % WORD32
  }

  function BloomAddr(f: Elf, hdr: GnuHeader, h: nat): int
    requires hdr.bloomSize > 0
  {
    f.gnu + GNU_HEADER + 8 * ((h / 64) % hdr.bloomSize)
  }

  predicate BloomAdmits(word: nat, hdr: GnuHeader, h: nat) {
    Bit(word, h % 64) && Bit(word, (h / Pow2(hdr.bloomShift)) % 64)
  }

  function BucketAddr(f: Elf, hdr: GnuHeader, b: nat): int {
    f.gnu + GNU_HEADER + 8 * hdr.bloomSize + 4 * b
  }

  function ChainAddr(f: Elf, hdr: GnuHeader, i: nat): int {
    f.gnu + GNU_HEADER + 8 * hdr.bloomSize + 4 * hdr.numBuckets + 4 * Sub32(i, hdr.symbolOffset)
  }

  /** The search of one bucket. */
  function GnuWalk(f: Elf, name: seq<Byte>, h: nat, i: nat, offs: int): Outcome
    decreases Above(f, offs)
  {
    match Num(f, offs, 4)
    case None => Unreadable
    case Some(h2) =>
      if h / 2 == h2 / 2 && Matches(f, i, name) then At(i)
      else if h2 % 2 == 1 then Absent
      else
        AboveShrinks(f, offs, 4, 4);
        GnuWalk(f, name, h, (i + 1) % WORD32, offs + 4)
  }

  function GnuLookup(f: Elf, hdr: GnuHeader, name: seq<Byte>): Outcome
    requires hdr.numBuckets > 0
  {
    var h := GnuHash(name);
    if hdr.bloomSize == 0 then Crash
    else match Num(f, BloomAddr(f, hdr, h), 8)
      case None => Unreadable
      case Some(word) =>
        if !BloomAdmits(word, hdr, h) then Absent
        else match Num(f, BucketAddr(f, hdr, h % hdr.numBuckets), 4)
          case None => Unreadable
          case Some(i) => if i == 0 then Absent else GnuWalk(f, name, h, i, ChainAddr(f, hdr, i))
  }

  // ------------------------------------------------------------------ GNU tables as they should be

  /** Symbol `n`'s bucket. */
  ghost function HashOf(f: Elf, n: nat): nat {
    match NameOf(f, n)
    case Some(name) => GnuHash(name)
    case None => 0
  }

  ghost function BucketOf(f: Elf, hdr: GnuHeader, n: nat): nat
    requires hdr.numBuckets > 0
  {
    HashOf(f, n) % hdr.numBuckets
  }

  /** The chain word of a symbol: its hash, the lowest bit marking the last of its bucket. */
  ghost predicate GoodChainWord(f: Elf, hdr: GnuHeader, end: nat, n: nat)
    requires hdr.numBuckets > 0
  {
    match Num(f, ChainAddr(f, hdr, n), 4)
    case None => false
    case Some(w) =>
      w / 2 == HashOf(f, n) / 2 && (w % 2 == 1 <==> n + 1 >= end || BucketOf(f, hdr, n + 1) != BucketOf(f, hdr, n))
  }

  ghost predicate GoodChain(f: Elf, hdr: GnuHeader, end: nat) {
    hdr.numBuckets > 0 && forall n :: hdr.symbolOffset <= n < end ==> GoodChainWord(f, hdr, end, n)
  }

  ghost predicate InBloom(f: Elf, hdr: GnuHeader, n: nat)
    requires hdr.bloomSize > 0
  {
    match Num(f, BloomAddr(f, hdr, HashOf(f, n)), 8)
    case None => false
    case Some(word) => BloomAdmits(word, hdr, HashOf(f, n))
  }

  /** A bucket names its first symbol, or zero if it has none. */
  ghost predicate GoodBucket(f: Elf, hdr: GnuHeader, end: nat, b: nat)
    requires hdr.numBuckets > 0
  {
    match Num(f, BucketAddr(f, hdr, b), 4)
    case None => false
    case Some(i) =>
      if i == 0 then forall n :: hdr.symbolOffset <= n < end ==> BucketOf(f, hdr, n) != b
      else hdr.symbolOffset <= i < end && BucketOf(f, hdr, i) == b
           && forall n :: hdr.symbolOffset <= n < i ==> BucketOf(f, hdr, n) != b
  }

  /** Symbols from `symbolOffset` up to `end` are hashed, sorted by bucket. */
  ghost predicate WellFormedGnu(f: Elf, hdr: GnuHeader, end: nat) {
    && hdr.numBuckets > 0 && hdr.bloomSize > 0 && 0 < hdr.symbolOffset <= end < WORD32
    && (forall n :: hdr.symbolOffset <= n < end ==> NameOf(f, n).Some?)
    && (forall m, n :: hdr.symbolOffset <= m <= n < end ==> BucketOf(f, hdr, m) <= BucketOf(f, hdr, n))
    && GoodChain(f, hdr, end)
    && (forall n :: hdr.symbolOffset <= n < end ==> InBloom(f, hdr, n))
    && (forall b :: 0 <= b < hdr.numBuckets ==> GoodBucket(f, hdr, end, b))
    && (forall k :: 0 <= k < hdr.bloomSize ==> Num(f, f.gnu + GNU_HEADER + 8 * k, 8).Some?)
  }

  lemma Named(f: Elf, hdr: GnuHeader, n: nat, name: seq<Byte>)
    requires hdr.numBuckets > 0 && NameOf(f, n) == Some(name)
    ensures HashOf(f, n) == GnuHash(name) && BucketOf(f, hdr, n) == GnuHash(name) % hdr.numBuckets
  {
  }

  lemma ChainNext(f: Elf, hdr: GnuHeader, i: nat)
    requires hdr.symbolOffset <= i && i + 1 < WORD32
    ensures ChainAddr(f, hdr, i + 1) == ChainAddr(f, hdr, i) + 4 && (i + 1) % WORD32 == i + 1
  {
  }

  /** Past the last symbol of its bucket, no symbol has the name. */
  lemma BucketOver(f: Elf, hdr: GnuHeader, end: nat, i: nat, name: seq<Byte>, n: nat)
    requires WellFormedGnu(f, hdr, end) && hdr.symbolOffset <= i < n < end
    requires BucketOf(f, hdr, i) == GnuHash(name) % hdr.numBuckets != BucketOf(f, hdr, i + 1)
    ensures NameOf(f, n) != Some(name)
  {
    assert BucketOf(f, hdr, i) <= BucketOf(f, hdr, i + 1) <= BucketOf(f, hdr, n);
    if NameOf(f, n) == Some(name) {
      Named(f, hdr, n, name);
    }
  }

  ghost function Found(r: Option<nat>): Outcome {
    if r.Some? then At(r.value) else Absent
  }

  ghost predicate Continues(f: Elf, hdr: GnuHeader, end: nat, i: nat)
    requires hdr.numBuckets > 0
  {
    i + 1 < end && BucketOf(f, hdr, i + 1) == BucketOf(f, hdr, i)
  }

  lemma WalkStep(f: Elf, hdr: GnuHeader, end: nat, name: seq<Byte>, i: nat)
    requires hdr.numBuckets > 0 && hdr.symbolOffset <= i < end < WORD32 && 0 !in name && GoodChain(f, hdr, end)
    ensures var h := GnuHash(name); var r := GnuWalk(f, name, h, i, ChainAddr(f, hdr, i));
            if NameOf(f, i) == Some(name) then r == At(i)
            else if Continues(f, hdr, end, i) then r == GnuWalk(f, name, h, i + 1, ChainAddr(f, hdr, i + 1))
            else r == Absent
  {
    assert GoodChainWord(f, hdr, end, i);
    MatchIsName(f, i, name);
    ChainNext(f, hdr, i);
    AboveShrinks(f, ChainAddr(f, hdr, i), 4, 4);
    if NameOf(f, i) == Some(name) {
      Named(f, hdr, i, name);
    }
  }

  lemma NothingLeft(f: Elf, hdr: GnuHeader, end: nat, name: seq<Byte>, i: nat)
    requires WellFormedGnu(f, hdr, end) && hdr.symbolOffset <= i < end
    requires BucketOf(f, hdr, i) == GnuHash(name) % hdr.numBuckets && !Continues(f, hdr, end, i)
    requires NameOf(f, i) != Some(name)
    ensures Linear(f, name, i, end) == None
  {
    var r := Linear(f, name, i, end);
    if r.Some? && r.value > i {
      BucketOver(f, hdr, end, i, name, r.value);
    }
  }

  /** Where the walk of a bucket ends: at the first match, or at the bucket's last symbol. */
  ghost function Settle(f: Elf, hdr: GnuHeader, end: nat, name: seq<Byte>, i: nat): nat
    requires hdr.numBuckets > 0
    decreases end - i
  {
    if NameOf(f, i) == Some(name) || !Continues(f, hdr, end, i) then i else Settle(f, hdr, end, name, i + 1)
  }

  lemma {:induction false} SettleAt(f: Elf, hdr: GnuHeader, end: nat, name: seq<Byte>, i: nat)
    requires hdr.numBuckets > 0 && i < end
    ensures var n := Settle(f, hdr, end, name, i);
            i <= n < end && BucketOf(f, hdr, n) == BucketOf(f, hdr, i) && (NameOf(f, n) == Some(name) || !Continues(f, hdr, end, n))
    decreases end - i
  {
    if NameOf(f, i) != Some(name) && Continues(f, hdr, end, i) {
      SettleAt(f, hdr, end, name, i + 1);
    }
  }

  lemma {:induction false} SettleLinear(f: Elf, hdr: GnuHeader, end: nat, name: seq<Byte>, i: nat)
    requires hdr.numBuckets > 0
    ensures Linear(f, name, Settle(f, hdr, end, name, i), end) == Linear(f, name, i, end)
    decreases end - i
  {
    if NameOf(f, i) != Some(name) && Continues(f, hdr, end, i) {
      SettleLinear(f, hdr, end, name, i + 1);
    }
  }

  /** One step of a walk whose outcome from symbol `i` is `walk(i)`. */
  ghost predicate Steps(f: Elf, hdr: GnuHeader, end: nat, name: seq<Byte>, walk: nat -> Outcome, i: nat)
    requires hdr.numBuckets > 0
  {
    walk(i) == if NameOf(f, i) == Some(name) then At(i) else if Continues(f, hdr, end, i) then walk(i + 1) else Absent
  }

  lemma {:induction false} SettleWalk(f: Elf, hdr: GnuHeader, end: nat, name: seq<Byte>, walk: nat -> Outcome, i: nat)
    requires hdr.numBuckets > 0 && i < end && forall j :: i <= j < end ==> Steps(f, hdr, end, name, walk, j)
    ensures var n := Settle(f, hdr, end, name, i);
            walk(i) == if NameOf(f, n) == Some(name) then At(n) else Absent
    decreases end - i
  {
    assert Steps(f, hdr, end, name, walk, i);
    if NameOf(f, i) != Some(name) && Continues(f, hdr, end, i) {
      SettleWalk(f, hdr, end, name, walk, i + 1);
    }
  }

  ghost function WalkFrom(f: Elf, hdr: GnuHeader, name: seq<Byte>): nat -> Outcome {
    (j: nat) => GnuWalk(f, name, GnuHash(name), j, ChainAddr(f, hdr, j))
  }

  lemma WalkSteps(f: Elf, hdr: GnuHeader, end: nat, name: seq<Byte>, j: nat)
    requires GoodChain(f, hdr, end) && 0 !in name && hdr.symbolOffset <= j < end < WORD32
    ensures Steps(f, hdr, end, name, WalkFrom(f, hdr, name), j)
  {
    WalkStep(f, hdr, end, name, j);
    WalkFromAt(f, hdr, name, j);
    WalkFromAt(f, hdr, name, j + 1);
  }

  lemma WalkFromAt(f: Elf, hdr: GnuHeader, name: seq<Byte>, j: nat)
    ensures WalkFrom(f, hdr, name)(j) == GnuWalk(f, name, GnuHash(name), j, ChainAddr(f, hdr, j))
  {
  }

  lemma WalkSettles(f: Elf, hdr: GnuHeader, end: nat, name: seq<Byte>, start: nat)
    requires GoodChain(f, hdr, end) && 0 !in name && hdr.symbolOffset <= start < end < WORD32
    ensures var n := Settle(f, hdr, end, name, start);
            WalkFrom(f, hdr, name)(start) == if NameOf(f, n) == Some(name) then At(n) else Absent
  {
    forall j | start <= j < end ensures Steps(f, hdr, end, name, WalkFrom(f, hdr, name), j) {
      WalkSteps(f, hdr, end, name, j);
    }
    SettleWalk(f, hdr, end, name, WalkFrom(f, hdr, name), start);
  }

  /** Where it settles, the search from the bucket's first symbol has its result. */
  lemma SettlesLinear(f: Elf, hdr: GnuHeader, end: nat, name: seq<Byte>, start: nat)
    requires WellFormedGnu(f, hdr, end)
    requires hdr.symbolOffset <= start < end && BucketOf(f, hdr, start) == GnuHash(name) % hdr.numBuckets
    ensures var n := Settle(f, hdr, end, name, start);
            Linear(f, name, start, end) == if NameOf(f, n) == Some(name) then Some(n) else None
  {
    var i := Settle(f, hdr, end, name, start);
    SettleAt(f, hdr, end, name, start);
    SettleLinear(f, hdr, end, name, start);
    if NameOf(f, i) != Some(name) {
      NothingLeft(f, hdr, end, name, i);
    }
  }

  lemma WalkIsLinear(f: Elf, hdr: GnuHeader, end: nat, name: seq<Byte>, start: nat)
    requires WellFormedGnu(f, hdr, end) && 0 !in name
    requires hdr.symbolOffset <= start < end && BucketOf(f, hdr, start) == GnuHash(name) % hdr.numBuckets
    ensures GnuWalk(f, name, GnuHash(name), start, ChainAddr(f, hdr, start)) == Found(Linear(f, name, start, end))
  {
    WalkSettles(f, hdr, end, name, start);
    SettlesLinear(f, hdr, end, name, start);
  }

  /** A search from `j` either stops there or gives what the search from the next symbol gives. */
  ghost predicate MovesOn(search: nat -> Option<nat>, j: nat) {
    search(j) == Some(j) || search(j) == search(j + 1)
  }

  lemma {:induction false} SkipIn(search: nat -> Option<nat>, start: nat, i: nat)
    requires start <= i && forall j :: start <= j < i ==> MovesOn(search, j)
    requires search(start).Some? ==> search(start).value >= i
    ensures search(start) == search(i)
    decreases i - start
  {
    if start < i {
      assert MovesOn(search, start);
      SkipIn(search, start + 1, i);
    }
  }

  ghost function LinearFrom(f: Elf, name: seq<Byte>, end: nat): nat -> Option<nat> {
    (j: nat) => Linear(f, name, j, end)
  }

  lemma LinearMovesOn(f: Elf, name: seq<Byte>, end: nat, j: nat)
    ensures MovesOn(LinearFrom(f, name, end), j)
  {
  }

  /** Symbols that do not have the name may be skipped. */
  lemma Skip(f: Elf, name: seq<Byte>, start: nat, i: nat, end: nat)
    requires start <= i <= end && (Linear(f, name, start, end).Some? ==> Linear(f, name, start, end).value >= i)
    ensures Linear(f, name, start, end) == Linear(f, name, i, end)
  {
    forall j | start <= j < i ensures MovesOn(LinearFrom(f, name, end), j) {
      LinearMovesOn(f, name, end, j);
    }
    SkipIn(LinearFrom(f, name, end), start, i);
  }

  /** On a well-formed table the lookup finds exactly what looking at every hashed symbol finds. */
  lemma GnuIsLinear(f: Elf, hdr: GnuHeader, end: nat, name: seq<Byte>)
    requires WellFormedGnu(f, hdr, end) && 0 !in name
    ensures GnuLookup(f, hdr, name) == Found(Linear(f, name, hdr.symbolOffset, end))
  {
    var h := GnuHash(name);
    var b := h % hdr.numBuckets;
    assert GoodBucket(f, hdr, end, b);
    var r := Linear(f, name, hdr.symbolOffset, end);
    assert Num(f, BloomAddr(f, hdr, h), 8).Some? by {
      assert 0 <= (h / 64) % hdr.bloomSize < hdr.bloomSize;
    }
    if r.Some? {
      Named(f, hdr, r.value, name);
      assert InBloom(f, hdr, r.value);
    }
    var i := Num(f, BucketAddr(f, hdr, b), 4).value;
    if i != 0 {
      Skip(f, name, hdr.symbolOffset, i, end);
      WalkIsLinear(f, hdr, end, name, i);
    }
  }

  // ------------------------------------------------------------------ the System V table

  datatype SysvHeader = SysvHeader(numBuckets: nat, numSymbols: nat)

  function SysvHashOf(name: seq<Byte>): nat {
    SysvHash.ReferenceHash(name, 0)
  }

  function SysvBucket(f: Elf, hdr: SysvHeader, name: seq<Byte>): Option<nat>
    requires hdr.numBuckets > 0
  {
    Num(f, f.sysv + SYSV_HEADER + 4 * (SysvHashOf(name) % hdr.numBuckets), 4)
  }

  function SysvNext(f: Elf, hdr: SysvHeader, i: nat): Option<nat> {
    Num(f, f.sysv + SYSV_HEADER + 4 * hdr.numBuckets + 4 * i, 4)
  }

  predicate Stops(f: Elf, hdr: SysvHeader, name: seq<Byte>, i: nat) {
    i == 0 || i >= hdr.numSymbols || Matches(f, i, name) || SysvNext(f, hdr, i).None?
  }

  /** The walk of one chain, in at most `fuel` steps; a chain with a cycle never ends. */
  function SysvWalk(f: Elf, hdr: SysvHeader, name: seq<Byte>, i: nat, fuel: nat): Option<Outcome>
    decreases fuel
  {
    if Stops(f, hdr, name, i) then
      Some(if i == 0 || i >= hdr.numSymbols then Absent else if Matches(f, i, name) then At(i) else Unreadable)
    else if fuel == 0 then None
    else SysvWalk(f, hdr, name, SysvNext(f, hdr, i).value, fuel - 1)
  }

  lemma {:induction false} WalkMore(f: Elf, hdr: SysvHeader, name: seq<Byte>, i: nat, m: nat, n: nat)
    requires m <= n && SysvWalk(f, hdr, name, i, m).Some?
    ensures SysvWalk(f, hdr, name, i, n) == SysvWalk(f, hdr, name, i, m)
    decreases m
  {
    if !Stops(f, hdr, name, i) {
      WalkMore(f, hdr, name, SysvNext(f, hdr, i).value, m - 1, n - 1);
    }
  }

  /** The symbol a walk reaches after `k` steps, if it has not stopped before. */
  function After(f: Elf, hdr: SysvHeader, name: seq<Byte>, i: nat, k: nat): Option<nat>
    decreases k
  {
    if k == 0 then Some(i)
    else if Stops(f, hdr, name, i) then None
    else After(f, hdr, name, SysvNext(f, hdr, i).value, k - 1)
  }

  /** The chain comes back to a symbol before it reaches zero, the end of the table, a match or an unreadable word. */
  ghost predicate Revisits(f: Elf, hdr: SysvHeader, name: seq<Byte>, i: nat) {
    exists a, b :: a < b && After(f, hdr, name, i, a).Some? && After(f, hdr, name, i, a) == After(f, hdr, name, i, b)
  }

  /** A walk that needs more than `k` steps is still under way after `k`. */
  lemma {:induction false} UnderWay(f: Elf, hdr: SysvHeader, name: seq<Byte>, i: nat, k: nat)
    requires SysvWalk(f, hdr, name, i, k).None?
    ensures After(f, hdr, name, i, k).Some? && !Stops(f, hdr, name, After(f, hdr, name, i, k).value)
    decreases k
  {
    if k > 0 {
      UnderWay(f, hdr, name, SysvNext(f, hdr, i).value, k - 1);
    }
  }

  /** A walk of more steps goes on from where it has come to. */
  lemma {:induction false} GoesOn(f: Elf, hdr: SysvHeader, name: seq<Byte>, i: nat, m: nat, k: nat)
    requires After(f, hdr, name, i, m).Some?
    ensures var j := After(f, hdr, name, i, m).value;
            SysvWalk(f, hdr, name, i, k) == if k < m then None else SysvWalk(f, hdr, name, j, k - m)
    decreases m
  {
    if m > 0 && k > 0 {
      GoesOn(f, hdr, name, SysvNext(f, hdr, i).value, m - 1, k - 1);
    }
  }

  lemma {:induction false} AfterMore(f: Elf, hdr: SysvHeader, name: seq<Byte>, i: nat, m: nat, n: nat)
    requires m <= n && After(f, hdr, name, i, m).Some?
    ensures After(f, hdr, name, i, n) == After(f, hdr, name, After(f, hdr, name, i, m).value, n - m)
    decreases m
  {
    if m > 0 {
      var next := SysvNext(f, hdr, i).value;
      AfterMore(f, hdr, name, next, m - 1, n - 1);
      assert After(f, hdr, name, i, n) == After(f, hdr, name, next, n - 1);
    }
  }

  /** A walk that comes back to where it started never ends. */
  lemma {:induction false} Circles(f: Elf, hdr: SysvHeader, name: seq<Byte>, j: nat, d: nat, k: nat)
    requires d > 0 && After(f, hdr, name, j, d) == Some(j)
    ensures SysvWalk(f, hdr, name, j, k).None?
    decreases k
  {
    GoesOn(f, hdr, name, j, d, k);
    if k >= d {
      Circles(f, hdr, name, j, d, k - d);
    }
  }

  lemma {:induction false} FewSymbols(s: set<nat>, n: nat)
    requires n > 0 && forall j :: j in s ==> 0 < j < n
    ensures |s| < n
  {
    if n == 1 {
      assert s == {};
    } else {
      var rest := s - {n - 1};
      FewSymbols(rest, n - 1);
      if n - 1 in s {
        assert s == rest + {n - 1};
      } else {
        assert s == rest;
      }
    }
  }

  /** As many numbers below `n`, none of them zero, as `n` itself: one occurs twice. */
  lemma {:induction false} Pigeonhole(s: seq<nat>, n: nat)
    requires |s| >= n > 0 && forall k :: 0 <= k < |s| ==> 0 < s[k] < n
    ensures exists a, b :: 0 <= a < b < |s| && s[a] == s[b]
  {
    if forall a, b :: 0 <= a < b < |s| ==> s[a] != s[b] {
      DistinctSize(s);
      FewSymbols(set k | 0 <= k < |s| :: s[k], n);
    }
  }

  lemma {:induction false} DistinctSize(s: seq<nat>)
    requires forall a, b :: 0 <= a < b < |s| ==> s[a] != s[b]
    ensures |set k | 0 <= k < |s| :: s[k]| == |s|
  {
    if s != [] {
      var rest := s[..|s| - 1];
      DistinctSize(rest);
      var old', all := set k | 0 <= k < |rest| :: rest[k], set k | 0 <= k < |s| :: s[k];
      assert all == old' + {s[|s| - 1]};
    }
  }

  ghost predicate NeverEnds(f: Elf, hdr: SysvHeader, name: seq<Byte>, i: nat) {
    forall k: nat :: SysvWalk(f, hdr, name, i, k).None?
  }

  /** The loop over a chain never ends exactly if the chain comes back to a symbol. */
  lemma NeverEndsIff(f: Elf, hdr: SysvHeader, name: seq<Byte>, i: nat)
    ensures NeverEnds(f, hdr, name, i) <==> Revisits(f, hdr, name, i)
  {
    if Revisits(f, hdr, name, i) {
      var a: nat, b: nat :| a < b && After(f, hdr, name, i, a).Some? && After(f, hdr, name, i, a) == After(f, hdr, name, i, b);
      var j := After(f, hdr, name, i, a).value;
      AfterMore(f, hdr, name, i, a, b);
      forall k: nat ensures SysvWalk(f, hdr, name, i, k).None? {
        GoesOn(f, hdr, name, i, a, k);
        if k >= a {
          Circles(f, hdr, name, j, b - a, k - a);
        }
      }
    }
    if NeverEnds(f, hdr, name, i) {
      assert SysvWalk(f, hdr, name, i, hdr.numSymbols).None?;
      ComesBack(f, hdr, name, i);
    }
  }

  /** A walk that does not end within as many steps as there are symbols has come back to one. */
  lemma ComesBack(f: Elf, hdr: SysvHeader, name: seq<Byte>, i: nat)
    requires SysvWalk(f, hdr, name, i, hdr.numSymbols).None?
    ensures Revisits(f, hdr, name, i)
  {
    var n := hdr.numSymbols;
    forall k | 0 <= k <= n ensures SysvWalk(f, hdr, name, i, k).None? {
      if SysvWalk(f, hdr, name, i, k).Some? {
        WalkMore(f, hdr, name, i, k, n);
      }
    }
    forall k | 0 <= k <= n
      ensures After(f, hdr, name, i, k).Some? && 0 < After(f, hdr, name, i, k).value < n
    {
      UnderWay(f, hdr, name, i, k);
    }
    var s := seq(n, k requires 0 <= k < n => After(f, hdr, name, i, k).value);
    assert n > 0 && forall k :: 0 <= k < |s| ==> 0 < s[k] < n && Some(s[k]) == After(f, hdr, name, i, k);
    Pigeonhole(s, n);
    var a, b :| 0 <= a < b < |s| && s[a] == s[b];
    assert After(f, hdr, name, i, a) == After(f, hdr, name, i, b);
  }

  /** A walk that ends at all ends within as many steps as there are symbols. */
  lemma EndsSoon(f: Elf, hdr: SysvHeader, name: seq<Byte>, i: nat, k: nat)
    requires SysvWalk(f, hdr, name, i, k).Some?
    ensures SysvWalk(f, hdr, name, i, hdr.numSymbols) == SysvWalk(f, hdr, name, i, k)
  {
    var n := hdr.numSymbols;
    if SysvWalk(f, hdr, name, i, n).None? {
      ComesBack(f, hdr, name, i);
      NeverEndsIff(f, hdr, name, i);
    } else if k <= n {
      WalkMore(f, hdr, name, i, k, n);
    } else {
      WalkMore(f, hdr, name, i, n, k);
    }
  }

  // ------------------------------------------------------------------ a table with a cycle

  const CYCLE_AT := 1000

  /** One bucket, three symbols; the chain goes from symbol 1 to 2 and back. */
  const CYCLIC_WORDS: seq<Word32> := [1, 3, 1, 0, 2, 1]

  function CyclicElf(): Elf {
    Elf([Segment(CYCLE_AT, Words32(CYCLIC_WORDS))], 0, 0, 0, CYCLE_AT)
  }

  lemma CyclicWord(k: nat)
    requires k < 6
    ensures Num(CyclicElf(), CYCLE_AT + 4 * k, 4) == Some(CYCLIC_WORDS[k])
  {
    ReadsWord(CyclicElf(), CYCLE_AT, CYCLIC_WORDS, k, 4 * k);
  }

  lemma CyclicSteps(name: seq<Byte>)
    ensures var f, hdr := CyclicElf(), SysvHeader(1, 3);
            && SysvNext(f, hdr, 1) == Some(2) && SysvNext(f, hdr, 2) == Some(1)
            && !Stops(f, hdr, name, 1) && !Stops(f, hdr, name, 2)
  {
    CyclicWord(4);
    CyclicWord(5);
    NoSymbol(1);
    NoSymbol(2);
  }

  /** No symbols are mapped. */
  lemma NoSymbol(n: nat)
    requires n < 10
    ensures NameAddr(CyclicElf(), n).None?
  {
    TailOfOne(CyclicElf().segments[0], SYMBOL_SIZE * n);
  }

  lemma CyclicBucket(name: seq<Byte>)
    ensures SysvBucket(CyclicElf(), SysvHeader(1, 3), name) == Some(1)
  {
    CyclicWord(2);
    OneBucket(SysvHashOf(name));
  }

  lemma OneBucket(h: nat)
    ensures h % 1 == 0
  {
  }

  /** On this table a lookup of any name walks for ever. */
  lemma CyclicTable(name: seq<Byte>)
    ensures var f, hdr := CyclicElf(), SysvHeader(1, 3);
            && Num(f, f.sysv, 4) == Some(1) && Num(f, f.sysv + 4, 4) == Some(3)
            && SysvBucket(f, hdr, name) == Some(1) && NeverEnds(f, hdr, name, 1)
  {
    CyclicWord(0);
    CyclicWord(1);
    CyclicBucket(name);
    CyclicSteps(name);
    TwoCycle(CyclicElf(), SysvHeader(1, 3), name, 1, 2);
    NeverEndsIff(CyclicElf(), SysvHeader(1, 3), name, 1);
  }

  lemma TwoCycle(f: Elf, hdr: SysvHeader, name: seq<Byte>, i: nat, j: nat)
    requires SysvNext(f, hdr, i) == Some(j) && SysvNext(f, hdr, j) == Some(i)
    requires !Stops(f, hdr, name, i) && !Stops(f, hdr, name, j)
    ensures Revisits(f, hdr, name, i)
  {
    assert After(f, hdr, name, i, 0) == Some(i);
    assert After(f, hdr, name, j, 1) == After(f, hdr, name, i, 0);
    assert After(f, hdr, name, i, 2) == Some(i);
  }

  /** `list` is the chain that starts at `i`. */
  ghost predicate OnChain(f: Elf, hdr: SysvHeader, i: nat, list: seq<nat>)
    decreases |list|
  {
    if list == [] then i == 0
    else
      && i == list[0] && 0 < i < hdr.numSymbols && NameOf(f, i).Some?
      && SysvNext(f, hdr, i).Some? && OnChain(f, hdr, SysvNext(f, hdr, i).value, list[1..])
  }

  function FirstIn(f: Elf, name: seq<Byte>, list: seq<nat>): (r: Option<nat>)
    ensures r.Some? ==> r.value in list && NameOf(f, r.value) == Some(name)
  {
    if list == [] then None else if NameOf(f, list[0]) == Some(name) then Some(list[0]) else FirstIn(f, name, list[1..])
  }

  lemma {:induction false} FirstInFinds(f: Elf, name: seq<Byte>, list: seq<nat>, n: nat)
    requires n in list && NameOf(f, n) == Some(name)
    ensures FirstIn(f, name, list).Some?
  {
    if NameOf(f, list[0]) != Some(name) {
      assert n in list[1..];
      FirstInFinds(f, name, list[1..], n);
    }
  }

  lemma {:induction false} ChainSearched(f: Elf, hdr: SysvHeader, name: seq<Byte>, i: nat, list: seq<nat>)
    requires OnChain(f, hdr, i, list) && 0 !in name
    ensures SysvWalk(f, hdr, name, i, |list|) == Some(Found(FirstIn(f, name, list)))
    decreases |list|
  {
    if list != [] {
      MatchIsName(f, i, name);
      if NameOf(f, i) != Some(name) {
        ChainSearched(f, hdr, name, SysvNext(f, hdr, i).value, list[1..]);
      }
    }
  }

  /** Chain `b` holds symbols of that bucket, and the bucket starts it. */
  ghost predicate GoodSysvBucket(f: Elf, hdr: SysvHeader, b: nat, list: seq<nat>)
    requires hdr.numBuckets > 0
  {
    var first := Num(f, f.sysv + SYSV_HEADER + 4 * b, 4);
    && first.Some? && OnChain(f, hdr, first.value, list)
    && forall k :: 0 <= k < |list| ==> NameOf(f, list[k]).Some? && SysvHashOf(NameOf(f, list[k]).value) % hdr.numBuckets == b
  }

  ghost predicate WellFormedSysv(f: Elf, hdr: SysvHeader, chains: seq<seq<nat>>) {
    && hdr.numBuckets > 0 && |chains| == hdr.numBuckets
    && forall b :: 0 <= b < |chains| ==> GoodSysvBucket(f, hdr, b, chains[b])
  }

  /**
   On a well-formed table the walk ends; it finds a hashed symbol of that name, and one is found
   whenever there is one.
   */
  lemma SysvIsSearch(f: Elf, hdr: SysvHeader, chains: seq<seq<nat>>, name: seq<Byte>)
    requires WellFormedSysv(f, hdr, chains) && 0 !in name
    ensures var start := SysvBucket(f, hdr, name); var chain := chains[SysvHashOf(name) % hdr.numBuckets];
            && start.Some?
            && SysvWalk(f, hdr, name, start.value, hdr.numSymbols) == Some(Found(FirstIn(f, name, chain)))
            && forall b, n :: 0 <= b < |chains| && n in chains[b] && NameOf(f, n) == Some(name) ==> FirstIn(f, name, chain).Some?
  {
    var b := SysvHashOf(name) % hdr.numBuckets;
    assert GoodSysvBucket(f, hdr, b, chains[b]);
    var start := SysvBucket(f, hdr, name).value;
    ChainSearched(f, hdr, name, start, chains[b]);
    EndsSoon(f, hdr, name, start, |chains[b]|);
    forall c, n | 0 <= c < |chains| && n in chains[c] && NameOf(f, n) == Some(name) ensures FirstIn(f, name, chains[b]).Some? {
      assert GoodSysvBucket(f, hdr, c, chains[c]);
      FirstInFinds(f, name, chains[b], n);
    }
  }
}
