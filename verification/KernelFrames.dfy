/**
 Resolving kernel addresses through snapshots and a frame cache keyed by table generation
 (kallsyms/kallsyms.go, processmanager/kernelsymbolization.go, processmanager/manager.go).
 */
module KernelFrames {
  import opened Words
  import opened Bytes
  import opened KernelSymbols
  import opened Wrappers

  // ------------------------------------------------------------------ names inside a module

  const MAX_NAME := 255

  /** `addName`: a length byte and the text, cut to what the length byte can say. */
  function AddName(names: seq<Byte>, name: Text): (r: seq<Byte>)
    ensures names <= r
  {
    var l := if |name| <= MAX_NAME then |name| else MAX_NAME;
    names + [l] + name[..l]
  }

  predicate NameThere(names: seq<Byte>, index: nat) {
    index < |names| && index + 1 + names[index] <= |names|
  }

  /** `bytesAt` */
  function NameAt(names: seq<Byte>, index: nat): Text
    requires NameThere(names, index)
  {
    names[index + 1..index + 1 + names[index]]
  }

  /** A name is found where it was added, and adding moves none of the others. */
  lemma AddedName(names: seq<Byte>, name: Text, index: nat)
    ensures var r := AddName(names, name);
            && NameThere(r, |names|)
            && NameAt(r, |names|) == (if |name| <= 255 then name else name[..255])
            && (NameThere(names, index) ==> NameThere(r, index) && NameAt(r, index) == NameAt(names, index))
  {
    var r := AddName(names, name);
    var l := if |name| <= MAX_NAME then |name| else MAX_NAME;
    assert r[|names|] == l;
    assert r[|names| + 1..|names| + 1 + l] == name[..l];
    if NameThere(names, index) {
      assert r[index] == names[index];
      assert r[index + 1..index + 1 + names[index]] == names[index + 1..index + 1 + names[index]];
    }
  }

  // ------------------------------------------------------------------ modules

  datatype ModuleSymbol = ModuleSymbol(offset: nat, index: nat)

  /** Symbols are kept by falling offset; `mapping` is absent if it is not valid. */
  datatype Module = Module(start: Word, end: Word, stub: bool, mapping: Option<nat>, names: seq<Byte>, symbols: seq<ModuleSymbol>)

  function Falling<T>(xs: seq<T>, key: T -> int): (r: seq<int>)
    ensures |r| == |xs| && forall i :: 0 <= i < |r| ==> r[i] == -key(xs[i])
  {
    seq(|xs|, i requires 0 <= i < |xs| => -key(xs[i]))
  }

  function StartsOf(ms: seq<Module>): seq<int> {
    Falling(ms, (m: Module) => m.start)
  }

  function OffsetsOf(ss: seq<ModuleSymbol>): seq<int> {
    Falling(ss, (s: ModuleSymbol) => s.offset)
  }

  ghost predicate GoodModule(m: Module) {
    Ascending(OffsetsOf(m.symbols)) && forall i :: 0 <= i < |m.symbols| ==> NameThere(m.names, m.symbols[i].index)
  }

  /** By falling start, one apart from the other. */
  ghost predicate GoodModules(ms: seq<Module>) {
    && Ascending(StartsOf(ms))
    && (forall i :: 0 <= i < |ms| ==> GoodModule(ms[i]))
    && (forall i, j :: 0 <= i < j < |ms| ==> ms[j].end <= ms[i].start)
  }

  predicate Within(m: Module, pc: Word) {
    m.start <= pc < m.end
  }

  /** The module an address lies in: the plain definition. */
  function ModuleOf(ms: seq<Module>, pc: Word): (r: Option<Module>)
    ensures r.Some? ==> r.value in ms && Within(r.value, pc)
  {
    if ms == [] then None else if Within(ms[0], pc) then Some(ms[0]) else ModuleOf(ms[1..], pc)
  }

  lemma {:induction false} ModuleOfAt(ms: seq<Module>, pc: Word, i: nat)
    requires i < |ms| && Within(ms[i], pc) && forall k :: 0 <= k < i ==> !Within(ms[k], pc)
    ensures ModuleOf(ms, pc) == Some(ms[i])
  {
    if i > 0 {
      assert forall k :: 0 <= k < i - 1 ==> ms[1..][k] == ms[k + 1];
      ModuleOfAt(ms[1..], pc, i - 1);
    }
  }

  lemma {:induction false} ModuleOfNone(ms: seq<Module>, pc: Word)
    requires forall k :: 0 <= k < |ms| ==> !Within(ms[k], pc)
    ensures ModuleOf(ms, pc) == None
  {
    if ms != [] {
      ModuleOfNone(ms[1..], pc);
    }
  }

  /** `getModuleByAddress` */
  method GetModuleByAddress(ms: seq<Module>, pc: Word) returns (r: Option<Module>)
    requires GoodModules(ms)
    ensures r == ModuleOf(ms, pc)
  {
    var i, _ := BinarySearch(StartsOf(ms), 0 - pc);
    forall k | 0 <= k < i ensures !Within(ms[k], pc) {
      assert StartsOf(ms)[k] < 0 - pc;
    }
    if i >= |ms| {
      ModuleOfNone(ms, pc);
      return None;
    }
    assert 0 - pc <= StartsOf(ms)[i];
    var m := ms[i];
    if pc < m.start || pc >= m.end {
      forall k | 0 <= k < |ms| ensures !Within(ms[k], pc) {
        if k > i {
          assert ms[k].end <= ms[i].start;
        }
      }
      ModuleOfNone(ms, pc);
      return None;
    }
    ModuleOfAt(ms, pc, i);
    return Some(m);
  }

  /** The symbol with the greatest offset not above `offs`: the first of the falling list. */
  function Nearest(ss: seq<ModuleSymbol>, offs: nat): (r: Option<ModuleSymbol>)
    ensures r.Some? ==> r.value in ss && r.value.offset <= offs
  {
    if ss == [] then None else if ss[0].offset <= offs then Some(ss[0]) else Nearest(ss[1..], offs)
  }

  lemma {:induction false} NearestAt(ss: seq<ModuleSymbol>, offs: nat, i: nat)
    requires i <= |ss| && forall k :: 0 <= k < i ==> ss[k].offset > offs
    requires i < |ss| ==> ss[i].offset <= offs
    ensures Nearest(ss, offs) == if i < |ss| then Some(ss[i]) else None
  {
    if i > 0 {
      assert forall k :: 0 <= k < i - 1 ==> ss[1..][k] == ss[k + 1];
      NearestAt(ss[1..], offs, i - 1);
    }
  }

  lemma NearestFound(ss: seq<ModuleSymbol>, offs: nat, i: nat)
    requires InsertionPoint(OffsetsOf(ss), 0 - offs, i)
    ensures Nearest(ss, offs) == if i < |ss| then Some(ss[i]) else None
  {
    forall k | 0 <= k < i ensures ss[k].offset > offs {
      assert OffsetsOf(ss)[k] < 0 - offs;
    }
    assert i < |ss| ==> 0 - offs <= OffsetsOf(ss)[i];
    NearestAt(ss, offs, i);
  }

  /** The function an address of the module is in, and how far; offsets have 32 bits. */
  function FunctionOf(m: Module, pc: Word): (r: Option<Hit>)
    requires forall i :: 0 <= i < |m.symbols| ==> NameThere(m.names, m.symbols[i].index)
  {
    if m.stub then None
    else
      var offs := Minus(pc, m.start) % WORD32;
      match Nearest(m.symbols, offs)
      case None => None
      case Some(s) => Some(Hit(NameAt(m.names, s.index), offs - s.offset))
  }

  /** `LookupSymbolByAddress` */
  method LookupSymbolByAddress(m: Module, pc: Word) returns (r: Option<Hit>)
    requires GoodModule(m)
    ensures r == FunctionOf(m, pc)
  {
    if m.stub {
      return None;
    }
    var offs := Minus(pc, m.start) % WORD32;
    var i, _ := BinarySearch(OffsetsOf(m.symbols), 0 - offs);
    NearestFound(m.symbols, offs, i);
    if i >= |m.symbols| {
      return None;
    }
    return Some(Hit(NameAt(m.names, m.symbols[i].index), offs - m.symbols[i].offset));
  }

  // ------------------------------------------------------------------ tables, generations, snapshots

  datatype ModuleTable = ModuleTable(generation: nat, modules: seq<Module>)
  datatype BpfTable = BpfTable(generation: nat, symbols: seq<BpfSymbol>)
  datatype Snapshot = Snapshot(modules: Option<ModuleTable>, bpf: Option<BpfTable>)

  /** The low bit tells the two kinds of tables apart. */
  function ModuleGeneration(t: Option<ModuleTable>): nat {
    if t.None? then 0 else t.value.generation
  }

  function BpfGeneration(t: Option<BpfTable>): nat {
    if t.None? then 1 else t.value.generation
  }

  function SymbolsOf(t: Option<BpfTable>): seq<BpfSymbol> {
    if t.None? then [] else t.value.symbols
  }

  function Next(generation: nat): nat {
    generation + 2
  }

  datatype Resolution = FromBpf(generation: nat, hit: Hit) | FromModule(generation: nat, mod: Module) | Unresolved

  ghost predicate GoodSnapshot(s: Snapshot) {
    (s.modules.Some? ==> GoodModules(s.modules.value.modules)) && (s.bpf.Some? ==> Orderly(s.bpf.value.symbols))
  }

  function BpfHit(s: Snapshot, addr: Word): Option<Hit> {
    Covering(SymbolsOf(s.bpf), addr)
  }

  function ModuleHit(s: Snapshot, addr: Word): Option<Module> {
    if s.modules.None? then None else ModuleOf(s.modules.value.modules, addr)
  }

  /** BPF symbols come first. */
  function Resolve(s: Snapshot, addr: Word): Resolution {
    match BpfHit(s, addr)
    case Some(hit) => FromBpf(BpfGeneration(s.bpf), hit)
    case None =>
      match ModuleHit(s, addr)
      case Some(m) => FromModule(ModuleGeneration(s.modules), m)
      case None => Unresolved
  }

  method ResolveAddress(s: Snapshot, addr: Word) returns (r: Resolution)
    requires GoodSnapshot(s)
    ensures r == Resolve(s, addr)
  {
    if s.bpf.Some? {
      var hit := LookupBpf(s.bpf.value.symbols, addr);
      if hit.Some? {
        return FromBpf(s.bpf.value.generation, hit.value);
      }
    }
    if s.modules.Some? {
      var m := GetModuleByAddress(s.modules.value.modules, addr);
      if m.Some? {
        return FromModule(s.modules.value.generation, m.value);
      }
    }
    return Unresolved;
  }

  datatype Frame = Frame(lineno: Word, mapping: Option<nat>, name: Text)

  ghost function BpfFrame(hit: Hit): Frame {
    Frame(Wrap(hit.offset), None, hit.name)
  }

  ghost function ModuleFrame(m: Module, addr: Word): Frame
    requires GoodModule(m)
  {
    var f := FunctionOf(m, addr);
    Frame(Minus(Minus(addr, 1), m.start), m.mapping, if f.Some? then f.value.name else [])
  }

  ghost predicate GoodResolution(r: Resolution) {
    r.FromModule? ==> GoodModule(r.mod)
  }

  /** The frame for a resolved address. */
  ghost function FrameOf(addr: Word, r: Resolution): Frame
    requires GoodResolution(r)
  {
    match r
    case FromBpf(_, hit) => BpfFrame(hit)
    case FromModule(_, m) => ModuleFrame(m, addr)
    case Unresolved => Frame(Minus(addr, 1), None, [])
  }

  /** Frames of modules without a valid mapping are not cached. */
  predicate Cacheable(r: Resolution) {
    r.FromBpf? || (r.FromModule? && r.mod.mapping.Some?)
  }

  method SymbolizeKernelFrame(addr: Word, r: Resolution) returns (f: Frame, cacheable: bool)
    requires GoodResolution(r)
    ensures f == FrameOf(addr, r) && cacheable == Cacheable(r)
    ensures r.FromModule? && r.mod.start <= addr < r.mod.end ==> InModule(r.mod, addr, f)
  {
    if r.FromModule? && r.mod.start <= addr < r.mod.end {
      ModuleFrameMeans(r.mod, addr);
    }
    if r.FromBpf? {
      return Frame(Wrap(r.hit.offset), None, r.hit.name), true;
    }
    f, cacheable := Frame(Minus(addr, 1), None, []), false;
    if r.FromModule? {
      f := f.(mapping := r.mod.mapping, lineno := Minus(f.lineno, r.mod.start));
      cacheable := f.mapping.Some?;
      var hit := LookupSymbolByAddress(r.mod, addr);
      if hit.Some? {
        f := f.(name := hit.value.name);
      }
    }
  }

  lemma ResolutionGood(s: Snapshot, addr: Word)
    requires GoodSnapshot(s)
    ensures GoodResolution(Resolve(s, addr))
  {
  }

  /** The frame an address has in this snapshot. */
  ghost function Fresh(s: Snapshot, addr: Word): Frame
    requires GoodSnapshot(s)
  {
    ResolutionGood(s, addr);
    FrameOf(addr, Resolve(s, addr))
  }

  // ------------------------------------------------------------------ what a frame says

  /** Symbol `k` has the greatest offset not above `offs`. */
  ghost predicate IsNearest(ss: seq<ModuleSymbol>, offs: nat, k: nat) {
    && k < |ss| && ss[k].offset <= offs
    && forall j :: 0 <= j < |ss| && ss[j].offset <= offs ==> ss[j].offset <= ss[k].offset
  }

  /** The text stored for symbol `k`: a length byte, and that many bytes. */
  ghost predicate StoredName(m: Module, k: nat, name: Text) {
    k < |m.symbols|
    && var i := m.symbols[k].index;
       i < |m.names| && i + 1 + m.names[i] <= |m.names| && name == m.names[i + 1..i + 1 + m.names[i]]
  }

  /** A module without symbols, or with none at or below the offset. */
  ghost predicate NoFunction(m: Module, offs: nat) {
    m.stub || forall k :: 0 <= k < |m.symbols| ==> m.symbols[k].offset > offs
  }

  ghost predicate NamesFunction(m: Module, offs: nat, name: Text) {
    exists k: nat :: IsNearest(m.symbols, offs, k) && StoredName(m, k, name)
  }

  /** A frame of module `m`: where in it, and in which function. */
  ghost predicate InModule(m: Module, addr: Word, f: Frame) {
    var offs := (addr - m.start) % WORD32;
    && m.start <= addr < m.end && f.lineno == Wrap(addr - 1 - m.start) && f.mapping == m.mapping
    && if NoFunction(m, offs) then f.name == [] else NamesFunction(m, offs, f.name)
  }

  /** A frame of a BPF program: its name, and how far from its address. */
  ghost predicate InBpf(s: BpfSymbol, addr: Word, f: Frame) {
    s.address <= addr < s.address + s.size && f == Frame(addr - s.address, None, s.name)
  }

  /** BPF programs first, then modules; any other address is shown as it is. */
  ghost predicate FrameIs(s: Snapshot, addr: Word, f: Frame) {
    var bpf := if s.bpf.None? then [] else s.bpf.value.symbols;
    var modules := if s.modules.None? then [] else s.modules.value.modules;
    if exists k :: 0 <= k < |bpf| && bpf[k].address <= addr < bpf[k].address + bpf[k].size then
      exists k :: 0 <= k < |bpf| && InBpf(bpf[k], addr, f)
    else if exists k :: 0 <= k < |modules| && modules[k].start <= addr < modules[k].end then
      exists k :: 0 <= k < |modules| && InModule(modules[k], addr, f)
    else f == Frame(Wrap(addr - 1), None, [])
  }

  lemma FallingOffsets(ss: seq<ModuleSymbol>)
    requires Ascending(OffsetsOf(ss))
    ensures forall i, j :: 0 <= i < j < |ss| ==> ss[j].offset <= ss[i].offset
  {
    forall i, j | 0 <= i < j < |ss| ensures ss[j].offset <= ss[i].offset {
      assert OffsetsOf(ss)[i] <= OffsetsOf(ss)[j];
    }
  }

  lemma {:induction false} NearestIn(ss: seq<ModuleSymbol>, offs: nat) returns (k: nat)
    requires forall i, j :: 0 <= i < j < |ss| ==> ss[j].offset <= ss[i].offset
    ensures Nearest(ss, offs).None? ==> forall j :: 0 <= j < |ss| ==> ss[j].offset > offs
    ensures Nearest(ss, offs).Some? ==> IsNearest(ss, offs, k) && ss[k] == Nearest(ss, offs).value
  {
    k := 0;
    while k < |ss| && ss[k].offset > offs
      invariant 0 <= k <= |ss| && forall j :: 0 <= j < k ==> ss[j].offset > offs
    {
      k := k + 1;
    }
    NearestAt(ss, offs, k);
  }

  /** The function of an address, by its symbols; and how far from its start the address is. */
  lemma FunctionMeans(m: Module, addr: Word) returns (k: nat)
    requires GoodModule(m)
    ensures var offs := Minus(addr, m.start) % WORD32; var r := FunctionOf(m, addr);
            && (r.None? <==> NoFunction(m, offs))
            && (r.Some? ==>
                  && NamesFunction(m, offs, r.value.name)
                  && IsNearest(m.symbols, offs, k) && StoredName(m, k, r.value.name) && m.symbols[k].offset + r.value.offset == offs)
  {
    FallingOffsets(m.symbols);
    k := NearestIn(m.symbols, Minus(addr, m.start) % WORD32);
  }

  lemma ModuleFrameMeans(m: Module, addr: Word)
    requires GoodModule(m) && m.start <= addr < m.end
    ensures InModule(m, addr, ModuleFrame(m, addr))
  {
    var k := FunctionMeans(m, addr);
    DivModUnique(addr - 1 - m.start, WORD, if addr > m.start then 0 else -1, if addr > m.start then addr - 1 - m.start else WORD - 1);
  }

  ghost predicate HitIn(s: BpfSymbol, addr: Word, hit: Hit) {
    s.address <= addr < s.address + s.size && hit == Hit(s.name, addr - s.address)
  }

  lemma {:induction false} CoveringSome(symbols: seq<BpfSymbol>, addr: Word)
    ensures var r := Covering(symbols, addr);
            if r.None? then forall k :: 0 <= k < |symbols| ==> !(symbols[k].address <= addr < symbols[k].address + symbols[k].size)
            else exists k :: 0 <= k < |symbols| && HitIn(symbols[k], addr, r.value)
  {
    if symbols != [] {
      var last := |symbols| - 1;
      if !Covers(symbols[last], addr) {
        CoveringSome(symbols[..last], addr);
      }
    }
  }

  lemma {:induction false} ModuleOfMeans(ms: seq<Module>, addr: Word)
    ensures var r := ModuleOf(ms, addr);
            if r.None? then forall k :: 0 <= k < |ms| ==> !(ms[k].start <= addr < ms[k].end)
            else exists k :: 0 <= k < |ms| && ms[k] == r.value && ms[k].start <= addr < ms[k].end
  {
    if ms != [] && !Within(ms[0], addr) {
      ModuleOfMeans(ms[1..], addr);
    }
  }

  /** The frame of an address, by the tables and their symbols. */
  lemma FreshMeans(s: Snapshot, addr: Word)
    requires GoodSnapshot(s)
    ensures FrameIs(s, addr, Fresh(s, addr))
  {
    CoveringSome(SymbolsOf(s.bpf), addr);
    var hit := BpfHit(s, addr);
    if hit.Some? {
      BpfFrameMeans(hit.value, SymbolsOf(s.bpf), addr);
    } else if s.modules.Some? {
      ModuleOfMeans(s.modules.value.modules, addr);
      if ModuleHit(s, addr).Some? {
        ModuleFrameMeans(ModuleHit(s, addr).value, addr);
      } else {
        BeforeAddress(addr);
      }
    } else {
      BeforeAddress(addr);
    }
  }

  lemma BeforeAddress(addr: Word)
    ensures Minus(addr, 1) == Wrap(addr - 1)
  {
    DivModUnique(addr - 1, WORD, if addr > 0 then 0 else -1, if addr > 0 then addr - 1 else WORD - 1);
  }

  lemma BpfFrameMeans(hit: Hit, symbols: seq<BpfSymbol>, addr: Word)
    requires exists k :: 0 <= k < |symbols| && HitIn(symbols[k], addr, hit)
    ensures exists k :: 0 <= k < |symbols| && InBpf(symbols[k], addr, BpfFrame(hit))
  {
    var k :| 0 <= k < |symbols| && HitIn(symbols[k], addr, hit);
    DivModUnique(hit.offset, WORD, 0, hit.offset);
    assert InBpf(symbols[k], addr, BpfFrame(hit));
  }

  // ------------------------------------------------------------------ publishing tables

  /** Everything that was ever published, by generation. */
  datatype History = History(modules: map<nat, seq<Module>>, bpf: map<nat, seq<BpfSymbol>>)

  ghost predicate Includes<V>(more: map<nat, V>, less: map<nat, V>) {
    forall g :: g in less ==> g in more && more[g] == less[g]
  }

  ghost predicate Extends(more: History, less: History) {
    Includes(more.modules, less.modules) && Includes(more.bpf, less.bpf)
  }

  /** The current tables. Each is replaced, never changed, and every replacement has a new number. */
  class Symbolizer {
    var modules: Option<ModuleTable>
    var bpf: Option<BpfTable>
    ghost var published: History

    ghost predicate Valid()
      reads this
    {
      && GoodSnapshot(Snapshot(modules, bpf))
      && ModuleGeneration(modules) % 2 == 0 && BpfGeneration(bpf) % 2 == 1
      && (forall g :: g in published.modules ==> 0 < g <= ModuleGeneration(modules) && g % 2 == 0 && GoodModules(published.modules[g]))
      && (forall g :: g in published.bpf ==> 1 < g <= BpfGeneration(bpf) && g % 2 == 1 && Orderly(published.bpf[g]))
      && (modules.Some? ==> modules.value.generation in published.modules
                            && published.modules[modules.value.generation] == modules.value.modules)
      && (bpf.Some? ==> bpf.value.generation in published.bpf && published.bpf[bpf.value.generation] == bpf.value.symbols)
    }

    constructor ()
      ensures Valid() && modules == None && bpf == None && published == History(map[], map[])
    {
      modules, bpf, published := None, None, History(map[], map[]);
    }

    /** A reload of the modules or of their symbols. */
    method PublishModules(ms: seq<Module>)
      requires Valid() && GoodModules(ms)
      modifies this`modules, this`published
      ensures Valid() && Extends(published, old(published))
      ensures modules == Some(ModuleTable(Next(ModuleGeneration(old(modules))), ms))
      ensures ModuleGeneration(modules) !in old(published.modules)
    {
      var g := Next(ModuleGeneration(modules));
      modules := Some(ModuleTable(g, ms));
      published := published.(modules := published.modules[g := ms]);
    }

    /** `loadBPFPrograms`, and the last step of adding and removing a symbol. */
    method PublishBpf(symbols: seq<BpfSymbol>)
      requires Valid() && Orderly(symbols)
      modifies this`bpf, this`published
      ensures Valid() && Extends(published, old(published))
      ensures bpf == Some(BpfTable(Next(BpfGeneration(old(bpf))), symbols))
      ensures BpfGeneration(bpf) !in old(published.bpf)
    {
      var g := Next(BpfGeneration(bpf));
      bpf := Some(BpfTable(g, symbols));
      published := published.(bpf := published.bpf[g := symbols]);
    }

    /** A program was loaded. It may be there already; else its range must overlap no other program's. */
    method AddBPFSymbol(addr: Word, name: Text, size: nat)
      requires Valid()
      requires Named(SymbolsOf(bpf), addr, name)
            || (size > 0 && addr + size < WORD && Free(SymbolsOf(bpf), BpfSymbol(addr, size, name)))
      modifies this`bpf, this`published
      ensures Valid() && Extends(published, old(published)) && bpf.Some?
      ensures Named(SymbolsOf(old(bpf)), addr, name) ==> bpf == old(bpf) && published == old(published)
      ensures !Named(SymbolsOf(old(bpf)), addr, name) ==> Adds(SymbolsOf(bpf), SymbolsOf(old(bpf)), addr, size, name)
    {
      var symbols := SymbolsOf(bpf);
      AscendingAddresses(symbols);
      var more, changed, i := AddBpf(symbols, addr, name, size);
      NamedAt(symbols, addr, name, i);
      if !changed {
        return;
      }
      InsertedOrderly(symbols, BpfSymbol(addr, size, name), i);
      InsertedEverywhere(symbols, addr, size, name, i);
      PublishBpf(more);
    }

    /** A program was unloaded. */
    method RemoveBPFSymbol(addr: Word)
      requires Valid()
      modifies this`bpf, this`published
      ensures Valid() && Extends(published, old(published))
      ensures Takes(SymbolsOf(bpf), SymbolsOf(old(bpf)), addr)
    {
      if bpf.None? {
        return;
      }
      var symbols := bpf.value.symbols;
      AscendingAddresses(symbols);
      var fewer, changed, i := RemoveBpf(symbols, addr);
      if !changed {
        return;
      }
      RemovedOrderly(symbols, i);
      RemovedEverywhere(symbols, addr, i);
      PublishBpf(fewer);
    }

    method TakeSnapshot() returns (s: Snapshot)
      requires Valid()
      ensures s == Snapshot(modules, bpf) && GoodSnapshot(s) && Taken(s, published)
    {
      s := Snapshot(modules, bpf);
    }
  }

  /** There is a symbol of that name at the address. */
  ghost predicate Named(symbols: seq<BpfSymbol>, addr: Word, name: Text) {
    exists k :: 0 <= k < |symbols| && symbols[k].address == addr && symbols[k].name == name
  }

  lemma NamedAt(symbols: seq<BpfSymbol>, addr: Word, name: Text, i: nat)
    requires Orderly(symbols) && InsertionPoint(Addresses(symbols), addr, i)
    ensures Named(symbols, addr, name) <==> FirstAt(symbols, addr, i) && symbols[i].name == name
  {
    if Named(symbols, addr, name) {
      var k :| 0 <= k < |symbols| && symbols[k].address == addr && symbols[k].name == name;
      assert Addresses(symbols)[k] == addr;
    }
  }

  /** Lookups find the new range, and elsewhere what they found before. */
  ghost predicate Adds(more: seq<BpfSymbol>, symbols: seq<BpfSymbol>, addr: Word, size: nat, name: Text) {
    forall a: Word :: Covering(more, a) == if addr <= a < addr + size then Some(Hit(name, a - addr)) else Covering(symbols, a)
  }

  /** Lookups find nothing in the range of the symbol at `addr`, and elsewhere what they found before. */
  ghost predicate Takes(fewer: seq<BpfSymbol>, symbols: seq<BpfSymbol>, addr: Word) {
    forall a: Word :: Covering(fewer, a) == if Owned(symbols, addr, a) then None else Covering(symbols, a)
  }

  lemma InsertedEverywhere(symbols: seq<BpfSymbol>, addr: Word, size: nat, name: Text, i: nat)
    requires i <= |symbols| && Free(symbols, BpfSymbol(addr, size, name))
    ensures !FirstAt(symbols, addr, i)
    ensures Adds(symbols[..i] + [BpfSymbol(addr, size, name)] + symbols[i..], symbols, addr, size, name)
  {
    var s := BpfSymbol(addr, size, name);
    forall a: Word ensures Covering(symbols[..i] + [s] + symbols[i..], a)
                        == if addr <= a < addr + size then Some(Hit(name, a - addr)) else Covering(symbols, a)
    {
      Inserted(symbols, s, i, a);
    }
  }

  lemma RemovedEverywhere(symbols: seq<BpfSymbol>, addr: Word, i: nat)
    requires Orderly(symbols) && i < |symbols| && symbols[i].address == addr
    ensures Takes(symbols[..i] + symbols[i + 1..], symbols, addr)
  {
    forall a: Word ensures Covering(symbols[..i] + symbols[i + 1..], a) == if Owned(symbols, addr, a) then None else Covering(symbols, a) {
      Removed(symbols, i, a);
      OwnedBy(symbols, addr, a, i);
    }
  }

  /** The symbol at `addr` covers `a`. */
  ghost predicate Owned(symbols: seq<BpfSymbol>, addr: Word, a: Word) {
    exists k :: 0 <= k < |symbols| && symbols[k].address == addr && Covers(symbols[k], a)
  }

  lemma OwnedBy(symbols: seq<BpfSymbol>, addr: Word, a: Word, i: nat)
    requires Orderly(symbols) && i < |symbols| && symbols[i].address == addr
    ensures Owned(symbols, addr, a) <==> Covers(symbols[i], a)
  {
  }

  lemma AscendingAddresses(symbols: seq<BpfSymbol>)
    requires Orderly(symbols)
    ensures Ascending(Addresses(symbols))
  {
  }

  /** A snapshot of tables that were published. */
  ghost predicate Taken(s: Snapshot, h: History) {
    && (s.modules.Some? ==> s.modules.value.generation in h.modules && h.modules[s.modules.value.generation] == s.modules.value.modules)
    && (s.bpf.Some? ==> s.bpf.value.generation in h.bpf && h.bpf[s.bpf.value.generation] == s.bpf.value.symbols)
    && ModuleGeneration(s.modules) % 2 == 0 && BpfGeneration(s.bpf) % 2 == 1
    && (s.modules.None? ==> 0 !in h.modules) && (s.bpf.None? ==> 1 !in h.bpf)
  }
}
