/**
 Kernel symbol tables (kallsyms/kallsyms.go, kallsyms/bpf.go): sorted tables searched by halving,
 published copy-on-write under generation numbers, and addresses resolved against a snapshot.
 */
module KernelSymbols {
  import opened Words
  import opened Bytes
  import opened Wrappers

  type Text = seq<Byte>

  // ------------------------------------------------------------------ searching by halving

  ghost predicate Ascending(keys: seq<int>) {
    forall i, j :: 0 <= i < j < |keys| ==> keys[i] <= keys[j]
  }

  /** `i` is where `target` is or would be inserted. */
  ghost predicate InsertionPoint(keys: seq<int>, target: int, i: nat) {
    && i <= |keys|
    && (forall k :: 0 <= k < i ==> keys[k] < target)
    && (forall k :: i <= k < |keys| ==> target <= keys[k])
  }

  /** `slices.BinarySearchFunc` and, on negated keys, `sort.Search`. */
  method BinarySearch(keys: seq<int>, target: int) returns (i: nat, found: bool)
    requires Ascending(keys)
    ensures InsertionPoint(keys, target, i)
    ensures found <==> target in keys
    ensures found ==> i < |keys| && keys[i] == target
  {
    var lo, hi := 0, |keys|;
    while lo < hi
      invariant 0 <= lo <= hi <= |keys|
      invariant forall k :: 0 <= k < lo ==> keys[k] < target
      invariant forall k :: hi <= k < |keys| ==> target <= keys[k]
    {
      var mid := (lo + hi) / 2;
      if keys[mid] < target {
        lo := mid + 1;
      } else {
        hi := mid;
      }
    }
    i, found := lo, lo < |keys| && keys[lo] == target;
  }

  // ------------------------------------------------------------------ BPF symbols

  datatype BpfSymbol = BpfSymbol(address: Word, size: nat, name: Text)

  datatype Hit = Hit(name: Text, offset: nat)

  function Addresses(symbols: seq<BpfSymbol>): (a: seq<int>)
    ensures |a| == |symbols| && forall i :: 0 <= i < |a| ==> a[i] == symbols[i].address
  {
    seq(|symbols|, i requires 0 <= i < |symbols| => symbols[i].address)
  }

  predicate Covers(s: BpfSymbol, addr: Word) {
    s.address <= addr < s.address + s.size
  }

  /** Sorted, without overlap, and within the address space. */
  ghost predicate Orderly(symbols: seq<BpfSymbol>) {
    && (forall i :: 0 <= i < |symbols| ==> symbols[i].address + symbols[i].size < WORD)
    && (forall i, j :: 0 <= i < j < |symbols| ==>
          symbols[i].address < symbols[j].address && symbols[i].address + symbols[i].size <= symbols[j].address)
  }

  /** Which symbol covers the address: the plain definition. */
  function Covering(symbols: seq<BpfSymbol>, addr: Word): Option<Hit> {
    if symbols == [] then None
    else
      var s := symbols[|symbols| - 1];
      if Covers(s, addr) then Some(Hit(s.name, addr - s.address)) else Covering(symbols[..|symbols| - 1], addr)
  }

  lemma {:induction false} CoveringIs(symbols: seq<BpfSymbol>, addr: Word, i: nat)
    requires Orderly(symbols) && i < |symbols| && Covers(symbols[i], addr)
    ensures Covering(symbols, addr) == Some(Hit(symbols[i].name, addr - symbols[i].address))
  {
    if i < |symbols| - 1 {
      CoveringIs(symbols[..|symbols| - 1], addr, i);
    }
  }

  lemma {:induction false} CoveringNone(symbols: seq<BpfSymbol>, addr: Word)
    requires forall i :: 0 <= i < |symbols| ==> !Covers(symbols[i], addr)
    ensures Covering(symbols, addr) == None
  {
    if symbols != [] {
      CoveringNone(symbols[..|symbols| - 1], addr);
    }
  }

  /** `lookup`: halving finds the one symbol that covers the address, if there is one. */
  method LookupBpf(symbols: seq<BpfSymbol>, addr: Word) returns (r: Option<Hit>)
    requires Orderly(symbols)
    ensures r == Covering(symbols, addr)
  {
    var idx, found := BinarySearch(Addresses(symbols), addr);
    if !found {
      if idx == 0 {
        CoveringNone(symbols, addr);
        return None;
      }
      idx := idx - 1;
    }
    var sym := symbols[idx];
    OnlyCandidate(symbols, addr, idx);
    if addr >= Plus(sym.address, sym.size) {
      return None;
    }
    return Some(Hit(sym.name, addr - sym.address));
  }

  /** Only the last symbol at or below the address can cover it. */
  lemma OnlyCandidate(symbols: seq<BpfSymbol>, addr: Word, idx: nat)
    requires Orderly(symbols) && idx < |symbols| && symbols[idx].address <= addr
    requires forall k :: idx < k < |symbols| ==> addr < symbols[k].address
    ensures Covering(symbols, addr)
         == if Covers(symbols[idx], addr) then Some(Hit(symbols[idx].name, addr - symbols[idx].address)) else None
  {
    if Covers(symbols[idx], addr) {
      CoveringIs(symbols, addr, idx);
    } else {
      forall i | 0 <= i < |symbols| ensures !Covers(symbols[i], addr) {
        if i < idx {
          assert symbols[i].address + symbols[i].size <= symbols[idx].address;
        }
      }
      CoveringNone(symbols, addr);
    }
  }

  /** The first symbol at an address. */
  ghost predicate FirstAt(symbols: seq<BpfSymbol>, addr: Word, i: nat) {
    InsertionPoint(Addresses(symbols), addr, i) && i < |symbols| && symbols[i].address == addr
  }

  /** `addBPFSymbol`: a copy with the symbol inserted, unless it is already there under that name. */
  method AddBpf(symbols: seq<BpfSymbol>, addr: Word, name: Text, size: nat) returns (r: seq<BpfSymbol>, changed: bool, ghost i: nat)
    requires Ascending(Addresses(symbols))
    ensures InsertionPoint(Addresses(symbols), addr, i)
    ensures changed <==> !(FirstAt(symbols, addr, i) && symbols[i].name == name)
    ensures r == if changed then symbols[..i] + [BpfSymbol(addr, size, name)] + symbols[i..] else symbols
  {
    var idx, found := BinarySearch(Addresses(symbols), addr);
    i := idx;
    if found && symbols[idx].name == name {
      return symbols, false, i;
    }
    r, changed := symbols[..idx] + [BpfSymbol(addr, size, name)] + symbols[idx..], true;
  }

  /** `removeBPFSymbol`: a copy without the first symbol at that address. */
  method RemoveBpf(symbols: seq<BpfSymbol>, addr: Word) returns (r: seq<BpfSymbol>, changed: bool, ghost i: nat)
    requires Ascending(Addresses(symbols))
    ensures changed <==> addr in Addresses(symbols)
    ensures if changed then FirstAt(symbols, addr, i) && r == symbols[..i] + symbols[i + 1..] else r == symbols
  {
    var idx, found := BinarySearch(Addresses(symbols), addr);
    i := idx;
    if !found {
      return symbols, false, i;
    }
    r, changed := symbols[..idx] + symbols[idx + 1..], true;
  }

  ghost predicate Apart(s: BpfSymbol, t: BpfSymbol) {
    s.address + s.size <= t.address || t.address + t.size <= s.address
  }

  /** `s` overlaps no symbol of the table. */
  ghost predicate Free(symbols: seq<BpfSymbol>, s: BpfSymbol) {
    forall k :: 0 <= k < |symbols| ==> Apart(s, symbols[k]) && symbols[k].address != s.address
  }

  lemma {:induction false} CoveringConcat(a: seq<BpfSymbol>, b: seq<BpfSymbol>, addr: Word)
    ensures Covering(a + b, addr) == if Covering(b, addr).Some? then Covering(b, addr) else Covering(a, addr)
  {
    if b == [] {
      assert a + b == a;
    } else {
      assert (a + b)[..|a + b| - 1] == a + b[..|b| - 1];
      CoveringConcat(a, b[..|b| - 1], addr);
    }
  }

  lemma CoveringThree(a: seq<BpfSymbol>, s: BpfSymbol, b: seq<BpfSymbol>, addr: Word)
    ensures Covering(a + [s] + b, addr)
         == if Covering(b, addr).Some? then Covering(b, addr)
            else if Covers(s, addr) then Some(Hit(s.name, addr - s.address)) else Covering(a, addr)
  {
    CoveringConcat(a + [s], b, addr);
    assert (a + [s])[..|a|] == a;
  }

  /** An address that a symbol covers is covered by no symbol apart from it. */
  lemma NoneApart(symbols: seq<BpfSymbol>, s: BpfSymbol, addr: Word)
    requires Covers(s, addr) && forall k :: 0 <= k < |symbols| ==> Apart(s, symbols[k])
    ensures Covering(symbols, addr) == None
  {
    forall k | 0 <= k < |symbols| ensures !Covers(symbols[k], addr) {
      assert Apart(s, symbols[k]);
    }
    CoveringNone(symbols, addr);
  }

  /** Inserting a symbol that overlaps no other adds just its range; removing it again undoes that. */
  lemma Inserted(symbols: seq<BpfSymbol>, s: BpfSymbol, i: nat, addr: Word)
    requires i <= |symbols| && Free(symbols, s)
    ensures var r := symbols[..i] + [s] + symbols[i..];
            && Covering(r, addr) == (if Covers(s, addr) then Some(Hit(s.name, addr - s.address)) else Covering(symbols, addr))
            && r[..i] + r[i + 1..] == symbols
  {
    var a, b := symbols[..i], symbols[i..];
    assert symbols == a + b;
    CoveringThree(a, s, b, addr);
    CoveringConcat(a, b, addr);
    if Covers(s, addr) {
      NoneApart(b, s, addr);
    }
  }

  /** A symbol inserted where the search says, and overlapping no other, leaves the table in order. */
  lemma {:induction false} InsertedOrderly(symbols: seq<BpfSymbol>, s: BpfSymbol, i: nat)
    requires Orderly(symbols) && s.size > 0 && s.address + s.size < WORD
    requires InsertionPoint(Addresses(symbols), s.address, i)
    requires Free(symbols, s)
    ensures Orderly(symbols[..i] + [s] + symbols[i..])
  {
    assert symbols[..i] + symbols[i..] == symbols;
    forall k | 0 <= k < |symbols|
      ensures k < i ==> symbols[k].address < s.address && symbols[k].address + symbols[k].size <= s.address
      ensures k >= i ==> s.address + s.size <= symbols[k].address
    {
      assert Addresses(symbols)[k] == symbols[k].address && Apart(s, symbols[k]);
    }
    InsertedBetween(symbols[..i], s, symbols[i..]);
  }

  lemma InsertedBetween(a: seq<BpfSymbol>, s: BpfSymbol, b: seq<BpfSymbol>)
    requires Orderly(a + b) && s.size > 0 && s.address + s.size < WORD
    requires forall k :: 0 <= k < |a| ==> a[k].address < s.address && a[k].address + a[k].size <= s.address
    requires forall k :: 0 <= k < |b| ==> s.address + s.size <= b[k].address
    ensures Orderly(a + [s] + b)
  {
    var r, old' := a + [s] + b, a + b;
    forall k | 0 <= k < |r| ensures r[k].address + r[k].size < WORD {
      assert k != |a| ==> r[k] == old'[if k < |a| then k else k - 1];
    }
    forall j, k | 0 <= j < k < |r|
      ensures r[j].address < r[k].address && r[j].address + r[j].size <= r[k].address
    {
      assert j != |a| ==> r[j] == old'[if j < |a| then j else j - 1];
      assert k != |a| ==> r[k] == old'[if k < |a| then k else k - 1];
    }
  }

  /** Removing a symbol keeps the table in order, and takes just its range away. */
  lemma Removed(symbols: seq<BpfSymbol>, i: nat, addr: Word)
    requires Orderly(symbols) && i < |symbols|
    ensures var r := symbols[..i] + symbols[i + 1..];
            && Orderly(r)
            && Covering(r, addr) == (if Covers(symbols[i], addr) then None else Covering(symbols, addr))
  {
    var a, s, b := symbols[..i], symbols[i], symbols[i + 1..];
    assert symbols == a + [s] + b;
    CoveringThree(a, s, b, addr);
    CoveringConcat(a, b, addr);
    if Covers(s, addr) {
      forall k | 0 <= k < |a| ensures Apart(s, a[k]) {
        assert a[k] == symbols[k];
      }
      forall k | 0 <= k < |b| ensures Apart(s, b[k]) {
        assert b[k] == symbols[i + 1 + k];
      }
      NoneApart(a, s, addr);
      NoneApart(b, s, addr);
    }
    RemovedOrderly(symbols, i);
  }

  lemma RemovedOrderly(symbols: seq<BpfSymbol>, i: nat)
    requires Orderly(symbols) && i < |symbols|
    ensures Orderly(symbols[..i] + symbols[i + 1..])
  {
    var r := symbols[..i] + symbols[i + 1..];
    forall j, k | 0 <= j < k < |r|
      ensures r[j].address < r[k].address && r[j].address + r[j].size <= r[k].address
    {
      var j', k' := if j < i then j else j + 1, if k < i then k else k + 1;
      assert r[j] == symbols[j'] && r[k] == symbols[k'];
    }
  }
}
