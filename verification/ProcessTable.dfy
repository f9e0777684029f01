/**
 The process manager's bookkeeping (processmanager/processinfo.go): executable mappings of each
 process on one side, the longest-prefix-match table read by the unwinder on the other.
 */
module ProcessTable {
  import opened Words
  import opened Lpm

  type Pid = nat
  type KTime = int

  /** An executable mapping: where it is mapped, and the file and file address it shows. */
  datatype Mapping = Mapping(vaddr: Word, length: Word, device: nat, inode: nat, fileID: Word, start: Word)

  /** A line of /proc/PID/maps; `elf` is what opening the file would give, if it is an ELF file. */
  datatype RawMapping = RawMapping(vaddr: Word, length: Word, device: nat, inode: nat,
                                   executable: bool, anonymous: bool, elf: Elf)
  datatype Elf = NotElf | Elf(fileID: Word, start: Word)

  datatype Key = Key(pid: Pid, prefix: Prefix)
  datatype Info = Info(fileID: Word, bias: Word)

  const DUMMY: Prefix := Prefix(0, 64)

  function InfoOf(m: Mapping): Info {
    Info(m.fileID, Minus(m.vaddr, m.start))
  }

  /** What the kernel reports of a mapping: nonempty, below 2^64, decomposable, and not just address 0. */
  ghost predicate GoodRange(vaddr: Word, length: Word) {
    && length > 0 && vaddr + length < WORD && NoWrap(vaddr, vaddr + length)
    && !(vaddr == 0 && length == 1)
  }

  ghost predicate Good(m: Mapping) {
    GoodRange(m.vaddr, m.length)
  }

  predicate InRange(m: Mapping, a: int) {
    m.vaddr <= a < m.vaddr + m.length
  }

  predicate Disjoint(m: Mapping, n: Mapping) {
    m.vaddr + m.length <= n.vaddr || n.vaddr + n.length <= m.vaddr
  }

  ghost predicate Separate(ms: set<Mapping>) {
    && (forall m :: m in ms ==> Good(m))
    && (forall m, n :: m in ms && n in ms && m != n ==> Disjoint(m, n))
  }

  ghost function MappingPrefixes(m: Mapping): seq<Prefix> {
    if Good(m) then PrefixList(m.vaddr, m.vaddr + m.length) else []
  }

  ghost function PrefixSet(m: Mapping): set<Prefix> {
    set p | p in MappingPrefixes(m)
  }

  // ------------------------------------------------------------------ prefixes and addresses

  ghost predicate PrefixMatches(p: Prefix, a: Word) {
    p.length <= 64 && a / Pow2(64 - p.length) == p.key / Pow2(64 - p.length)
  }

  /** A prefix of an aligned block matches exactly the addresses of the block. */
  lemma MatchesBlock(b: Block, a: Word)
    requires b.exp <= 63 && Aligned(b.key, b.exp)
    ensures PrefixMatches(PrefixOf(b), a) <==> Contains(b, a)
  {
    var m := Pow2(b.exp);
    var q := b.key / m;
    assert b.key == m * q;
    assert a == m * (a / m) + a % m;
    if Contains(b, a) {
      DivModUnique(a, m, q, a - b.key);
    }
  }

  lemma {:induction false} TilesAligned(bs: seq<Block>, lo: int, hi: int)
    requires Tiles(bs, lo, hi)
    ensures forall i :: 0 <= i < |bs| ==> Aligned(bs[i].key, bs[i].exp)
    decreases |bs|
  {
    if bs != [] {
      TilesAligned(bs[1..], lo + Pow2(bs[0].exp), hi);
      forall i | 0 <= i < |bs| ensures Aligned(bs[i].key, bs[i].exp) {
        assert i > 0 ==> bs[i] == bs[1..][i - 1];
      }
    }
  }

  predicate GoodBlock(b: Block) {
    b.exp <= 63 && Aligned(b.key, b.exp)
  }

  /** The prefixes of a mapping are those of aligned blocks that tile it; none is the marker. */
  lemma {:induction false} MappingBlocks(m: Mapping) returns (bs: seq<Block>)
    requires Good(m)
    ensures Tiles(bs, m.vaddr, m.vaddr + m.length)
    ensures forall i :: 0 <= i < |bs| ==> bs[i].exp <= 63 && GoodBlock(bs[i]) && bs[i] != Block(0, 0)
    ensures MappingPrefixes(m) == PrefixesOf(bs)
  {
    var end := m.vaddr + m.length;
    bs := Blocks(m.vaddr, end);
    BlockExps(m.vaddr, end);
    BlocksTile(m.vaddr, end);
    TilesAligned(bs, m.vaddr, end);
    forall i | 0 <= i < |bs| ensures bs[i] != Block(0, 0) {
      DummyExcluded(m, bs, i);
    }
  }

  /** The block a prefix of the mapping stands for. */
  lemma BlockOf(m: Mapping, p: Prefix) returns (b: Block)
    requires Good(m) && p in PrefixSet(m)
    ensures GoodBlock(b) && b != Block(0, 0) && p == PrefixOf(b)
    ensures m.vaddr <= b.key && b.key + Pow2(b.exp) <= m.vaddr + m.length
  {
    var bs := MappingBlocks(m);
    var ps := PrefixesOf(bs);
    var i :| 0 <= i < |ps| && ps[i] == p;
    TilesWithin(bs, m.vaddr, m.vaddr + m.length);
    b := bs[i];
  }

  /** The prefix of the block that contains an address of the mapping. */
  lemma PrefixFor(m: Mapping, a: Word) returns (b: Block)
    requires Good(m) && InRange(m, a)
    ensures GoodBlock(b) && Contains(b, a) && PrefixOf(b) in PrefixSet(m)
  {
    var bs := MappingBlocks(m);
    TilesPartition(bs, m.vaddr, m.vaddr + m.length, a);
    var i :| 0 <= i < |bs| && Contains(bs[i], a);
    assert PrefixesOf(bs)[i] in PrefixesOf(bs);
    b := bs[i];
  }

  lemma DummyExcluded(m: Mapping, bs: seq<Block>, i: nat)
    requires Good(m) && bs == Blocks(m.vaddr, m.vaddr + m.length) && i < |bs|
    ensures bs[i] != Block(0, 0)
  {
    var end := m.vaddr + m.length;
    BlocksTile(m.vaddr, end);
    TilesWithin(bs, m.vaddr, end);
    if bs[i] == Block(0, 0) {
      assert m.vaddr == 0;
      TilesPartition(bs, m.vaddr, end, 0);
      assert Contains(bs[0], 0) && Contains(bs[i], 0);
      assert bs[0] == Block(0, Exp(0, end));
      assert Pow2(1) == 2;
      GreedyLargest(0, end, 1);
      assert false;
    }
  }

  /** An address of the mapping is matched by one of its prefixes, and only addresses of the mapping are. */
  lemma PrefixSetMatches(m: Mapping, a: Word)
    requires Good(m)
    ensures InRange(m, a) <==> exists p :: p in PrefixSet(m) && PrefixMatches(p, a)
  {
    if InRange(m, a) {
      var b := PrefixFor(m, a);
      MatchesBlock(b, a);
    }
    if p :| p in PrefixSet(m) && PrefixMatches(p, a) {
      var b := BlockOf(m, p);
      MatchesBlock(b, a);
    }
  }

  /** Each prefix of a mapping matches its own key, which lies in the mapping. */
  lemma {:induction false} PrefixKeyInside(m: Mapping, p: Prefix)
    requires Good(m) && p in PrefixSet(m)
    ensures InRange(m, p.key) && p != DUMMY
  {
    var b := BlockOf(m, p);
  }

  lemma DisjointPrefixes(m: Mapping, n: Mapping, p: Prefix)
    requires Good(m) && Good(n) && Disjoint(m, n) && p in PrefixSet(m)
    ensures p !in PrefixSet(n)
  {
    PrefixKeyInside(m, p);
    if p in PrefixSet(n) {
      PrefixKeyInside(n, p);
    }
  }

  // ------------------------------------------------------------------ the table

  /** Each mapping with the prefixes it decomposes into. */
  type Layout = map<Mapping, set<Prefix>>

  ghost function LayoutOf(ms: set<Mapping>): (layout: Layout)
    ensures layout.Keys == ms
  {
    map m | m in ms :: PrefixSet(m)
  }

  ghost predicate Apart(layout: Layout, m: Mapping, n: Mapping) {
    m in layout && n in layout ==> layout[m] !! layout[n]
  }

  /** Different mappings share no prefix, and none uses the marker. */
  ghost predicate Unshared(layout: Layout) {
    && (forall m, n {:trigger Apart(layout, m, n)} :: m != n ==> Apart(layout, m, n))
    && (forall m :: m in layout ==> DUMMY !in layout[m])
  }

  lemma SeparateUnshared(ms: set<Mapping>)
    requires Separate(ms)
    ensures Unshared(LayoutOf(ms))
  {
    forall m, n | m != n ensures Apart(LayoutOf(ms), m, n) {
      if m in ms && n in ms {
        forall p | p in PrefixSet(m) ensures p !in PrefixSet(n) {
          DisjointPrefixes(m, n, p);
        }
      }
    }
    forall m | m in ms ensures DUMMY !in PrefixSet(m) {
      if DUMMY in PrefixSet(m) {
        PrefixKeyInside(m, DUMMY);
      }
    }
  }

  ghost predicate PrefixOfSome(layout: Layout, p: Prefix) {
    exists m :: m in layout && p in layout[m]
  }

  /** Apart from the marker, the entries of `pid` are the prefixes of the layout with their file and bias. */
  ghost predicate Installed(table: map<Key, Info>, pid: Pid, layout: Layout) {
    && (forall p :: p != DUMMY ==> (Key(pid, p) in table <==> PrefixOfSome(layout, p)))
    && (forall m, p :: m in layout && p in layout[m] ==> Key(pid, p) in table && table[Key(pid, p)] == InfoOf(m))
  }

  function KeysOf(pid: Pid, ps: set<Prefix>): set<Key> {
    set p | p in ps :: Key(pid, p)
  }

  /** Installing the prefixes of one more mapping. */
  lemma InstalledAdd(table: map<Key, Info>, pid: Pid, layout: Layout, m: Mapping, ps: set<Prefix>, table': map<Key, Info>)
    requires Installed(table, pid, layout) && m !in layout && Unshared(layout[m := ps])
    requires table' == table + map k | k in KeysOf(pid, ps) :: InfoOf(m)
    ensures Installed(table', pid, layout[m := ps])
    ensures KeysOf(pid, ps) !! table.Keys
  {
    var more := layout[m := ps];
    forall p | p != DUMMY ensures Key(pid, p) in table' <==> PrefixOfSome(more, p) {
      if PrefixOfSome(layout, p) {
        var n :| n in layout && p in layout[n];
        assert n in more && p in more[n];
      }
      if p in ps {
        assert m in more && p in more[m];
      }
    }
    forall p | p in ps ensures Key(pid, p) !in table {
      forall n | n in layout ensures p !in layout[n] {
        assert Apart(more, n, m);
      }
      assert m in more && p in more[m];
      assert !PrefixOfSome(layout, p);
    }
    forall n, p | n in more && p in more[n]
      ensures Key(pid, p) in table' && table'[Key(pid, p)] == InfoOf(n)
    {
      if n != m {
        assert Apart(more, n, m);
      }
    }
  }

  /** Removing the prefixes of one mapping leaves those of the others. */
  lemma InstalledRemove(table: map<Key, Info>, pid: Pid, layout: Layout, m: Mapping, table': map<Key, Info>)
    requires Installed(table, pid, layout) && Unshared(layout) && m in layout
    requires table' == table - KeysOf(pid, layout[m])
    ensures Installed(table', pid, layout - {m})
  {
    var rest := layout - {m};
    forall n, p | n in rest && p in rest[n]
      ensures Key(pid, p) in table' && table'[Key(pid, p)] == InfoOf(n)
    {
      assert Apart(layout, n, m);
    }
    forall p | p != DUMMY ensures Key(pid, p) in table' <==> PrefixOfSome(rest, p) {
      if Key(pid, p) in table' {
        assert PrefixOfSome(layout, p);
        var n :| n in layout && p in layout[n];
        assert n in rest && p in rest[n];
      }
    }
  }

  // ------------------------------------------------------------------ lookup

  /** The result of a longest-prefix-match lookup. */
  datatype Hit = Miss | Hit(info: Info)

  ghost predicate IsLookup(table: map<Key, Info>, pid: Pid, a: Word, r: Hit) {
    match r
    case Miss => forall p :: Key(pid, p) in table ==> !PrefixMatches(p, a)
    case Hit(info) => exists p :: (
      && Key(pid, p) in table && PrefixMatches(p, a) && table[Key(pid, p)] == info
      && forall q :: Key(pid, q) in table && PrefixMatches(q, a) ==> q.length <= p.length)
  }

  ghost predicate IsMappingAt(ms: set<Mapping>, a: Word, r: Hit) {
    match r
    case Miss => forall m :: m in ms ==> !(m.vaddr <= a < m.vaddr + m.length)
    case Hit(info) => exists m :: m in ms && Translates(info, m, a)
  }

  /** The entry names the file of the mapping, and its bias leads from the address to the one in the file. */
  predicate Translates(info: Info, m: Mapping, a: Word) {
    && m.vaddr <= a < m.vaddr + m.length
    && info.fileID == m.fileID && Minus(a, info.bias) == Wrap(m.start + (a - m.vaddr))
  }

  lemma BiasTranslates(m: Mapping, a: Word)
    requires InRange(m, a)
    ensures Translates(InfoOf(m), m, a)
  {
    var d := a - m.vaddr;
    PlusWrap(m.start, d);
    assert Minus(a, Minus(m.vaddr, m.start)) == Plus(m.start, d);
  }

  lemma DummyOnlyZero(a: Word)
    ensures PrefixMatches(DUMMY, a) <==> a == 0
  {
    assert Pow2(0) == 1;
  }

  /** Looking up a nonzero address gives the file and bias of the mapping that holds it, else nothing. */
  lemma LookupAgrees(table: map<Key, Info>, pid: Pid, ms: set<Mapping>, a: Word, r: Hit)
    requires Installed(table, pid, LayoutOf(ms)) && Separate(ms)
    requires a != 0 && IsLookup(table, pid, a, r)
    ensures IsMappingAt(ms, a, r)
  {
    DummyOnlyZero(a);
    if r.Miss? {
      forall m | m in ms ensures !InRange(m, a) {
        PrefixSetMatches(m, a);
        if p :| p in PrefixSet(m) && PrefixMatches(p, a) {
          assert p in LayoutOf(ms)[m];
        }
      }
    } else {
      var p :| Key(pid, p) in table && PrefixMatches(p, a) && table[Key(pid, p)] == r.info;
      assert PrefixOfSome(LayoutOf(ms), p);
      var m :| m in LayoutOf(ms) && p in LayoutOf(ms)[m];
      PrefixSetMatches(m, a);
      BiasTranslates(m, a);
    }
  }
}
