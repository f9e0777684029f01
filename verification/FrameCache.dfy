/**
 `appendKernelFrames` of processmanager/manager.go: a cache of kernel frames keyed by address and
 table generation, which must not show while tables come and go.
 */
module FrameCache {
  import opened Words
  import opened KernelSymbols
  import opened KernelFrames
  import opened Wrappers

  type Key = (Word, nat)

  /** A cached frame is the one its address has in the table its generation names. */
  ghost predicate EntryOk(h: History, k: Key, f: Frame) {
    if k.1 % 2 == 0 then
      k.1 in h.modules && GoodModules(h.modules[k.1])
      && var m := ModuleOf(h.modules[k.1], k.0); m.Some? && f == ModuleFrame(m.value, k.0) && m.value.mapping.Some?
    else
      k.1 in h.bpf && var hit := Covering(h.bpf[k.1], k.0); hit.Some? && f == BpfFrame(hit.value)
  }

  ghost predicate CacheOk(h: History, cache: map<Key, Frame>) {
    forall k :: k in cache ==> EntryOk(h, k, cache[k])
  }

  /** Publishing tables spoils no cached frame: old generations keep naming the old tables. */
  lemma CacheSurvives(h: History, more: History, cache: map<Key, Frame>)
    requires CacheOk(h, cache) && Extends(more, h)
    ensures CacheOk(more, cache)
  {
    forall k | k in cache ensures EntryOk(more, k, cache[k]) {
      assert EntryOk(h, k, cache[k]);
    }
  }

  /** The two probes, the modules' generation first. */
  function Probe(cache: map<Key, Frame>, s: Snapshot, addr: Word): Option<Frame> {
    var byModule, byBpf := (addr, ModuleGeneration(s.modules)), (addr, BpfGeneration(s.bpf));
    if byModule in cache then Some(cache[byModule]) else if byBpf in cache then Some(cache[byBpf]) else None
  }

  /** BPF programs and modules both claim the address. */
  predicate Disputed(s: Snapshot, addr: Word) {
    BpfHit(s, addr).Some? && ModuleHit(s, addr).Some?
  }

  lemma ProbeEntries(h: History, cache: map<Key, Frame>, s: Snapshot, addr: Word)
    requires CacheOk(h, cache) && Taken(s, h) && GoodSnapshot(s)
    ensures (addr, ModuleGeneration(s.modules)) in cache ==>
              var m := ModuleHit(s, addr);
              m.Some? && m.value.mapping.Some? && cache[(addr, ModuleGeneration(s.modules))] == ModuleFrame(m.value, addr)
    ensures (addr, BpfGeneration(s.bpf)) in cache ==>
              var hit := BpfHit(s, addr); hit.Some? && cache[(addr, BpfGeneration(s.bpf))] == BpfFrame(hit.value)
  {
    var k, k' := (addr, ModuleGeneration(s.modules)), (addr, BpfGeneration(s.bpf));
    if k in cache {
      assert EntryOk(h, k, cache[k]);
    }
    if k' in cache {
      assert EntryOk(h, k', cache[k']);
    }
  }

  /**
   A cached frame is the fresh one exactly unless a module's frame was cached for an address that a
   BPF program now covers.
   */
  lemma ProbeExact(h: History, cache: map<Key, Frame>, s: Snapshot, addr: Word)
    requires CacheOk(h, cache) && Taken(s, h) && GoodSnapshot(s) && Probe(cache, s, addr).Some?
    ensures Probe(cache, s, addr).value == Fresh(s, addr)
       <==> !((addr, ModuleGeneration(s.modules)) in cache && BpfHit(s, addr).Some?)
    ensures !Disputed(s, addr) ==> Probe(cache, s, addr).value == Fresh(s, addr)
  {
    ProbeEntries(h, cache, s, addr);
  }

  /** What is resolved afresh may be cached under the generation it was resolved with. */
  lemma FreshEntry(h: History, s: Snapshot, addr: Word)
    requires Taken(s, h) && GoodSnapshot(s) && Cacheable(Resolve(s, addr))
    ensures EntryOk(h, (addr, Resolve(s, addr).generation), Fresh(s, addr))
  {
  }

  /** The fresh frame, unless the address is disputed. */
  ghost predicate Right(s: Snapshot, addr: Word, f: Frame)
    requires GoodSnapshot(s)
  {
    !Disputed(s, addr) ==> f == Fresh(s, addr)
  }

  class ProcessManager {
    const symbols: Symbolizer
    const capacity: nat
    var cache: map<Key, Frame>

    constructor (symbols: Symbolizer, capacity: nat)
      requires symbols.Valid()
      ensures Valid() && this.symbols == symbols && cache == map[]
    {
      this.symbols, this.capacity, cache := symbols, capacity, map[];
    }

    ghost predicate Valid()
      reads this, symbols
    {
      symbols.Valid() && CacheOk(symbols.published, cache)
    }

    /** Adding to a full cache evicts some entry. */
    method AddFrame(k: Key, f: Frame)
      requires CacheOk(symbols.published, cache) && EntryOk(symbols.published, k, f)
      modifies this`cache
      ensures CacheOk(symbols.published, cache) && Stored(old(cache), cache, k, f)
      ensures |old(cache)| <= capacity && capacity > 0 ==> |cache| <= capacity
    {
      var kept := cache;
      if |cache| >= capacity && |cache| > 0 {
        var victim :| victim in cache;
        kept := cache - {victim};
      }
      StoredIn(symbols.published, cache, kept, k, f);
      cache := kept[k := f];
    }

    /** One frame: from the cache, or resolved in the snapshot and cached. */
    method KernelFrame(s: Snapshot, addr: Word) returns (f: Frame, hit: bool, added: bool)
      requires CacheOk(symbols.published, cache) && Taken(s, symbols.published) && GoodSnapshot(s)
      modifies this`cache
      ensures CacheOk(symbols.published, cache) && CacheStep(old(cache), cache, s, addr)
      ensures Right(s, addr, f)
      ensures hit == Probe(old(cache), s, addr).Some? && (hit ==> f == Probe(old(cache), s, addr).value)
      ensures !hit ==> f == Fresh(s, addr)
      ensures added == (!hit && Cacheable(Resolve(s, addr)))
    {
      hit, added := false, false;
      var cached := Probe(cache, s, addr);
      if cached.Some? {
        ProbeExact(symbols.published, cache, s, addr);
        return cached.value, true, false;
      }
      ResolutionGood(s, addr);
      var r := ResolveAddress(s, addr);
      var cacheable;
      f, cacheable := SymbolizeKernelFrame(addr, r);
      if r != Unresolved && cacheable {
        added := true;
        FreshEntry(symbols.published, s, addr);
        AddFrame((addr, r.generation), f);
      }
    }

    /**
     Appends the frames of kernel addresses, all resolved in one snapshot. Whatever was published or
     evicted before, each frame is the fresh one unless a BPF program and a module share its address.
     The counts are those of the caches the addresses met one after the other.
     */
    method AppendKernelFrames(addrs: seq<Word>, dst: seq<Frame>)
      returns (out: seq<Frame>, hits: nat, misses: nat, ghost caches: seq<map<Key, Frame>>)
      requires Valid()
      modifies this`cache
      ensures Valid() && |out| == |dst| + |addrs| && out[..|dst|] == dst
      ensures var s := Snapshot(symbols.modules, symbols.bpf);
              && Met(caches, old(cache), cache, s, addrs, out[|dst|..])
              && hits == Hits(caches, s, addrs) && misses == Misses(caches, s, addrs)
      ensures var s := Snapshot(symbols.modules, symbols.bpf);
              forall k :: 0 <= k < |addrs| ==> Right(s, addrs[k], out[|dst| + k])
      ensures var s := Snapshot(symbols.modules, symbols.bpf);
              forall k :: 0 <= k < |addrs| && !Disputed(s, addrs[k]) ==> FrameIs(s, addrs[k], out[|dst| + k])
    {
      var s := symbols.TakeSnapshot();
      var frames;
      frames, hits, misses, caches := KernelFrames(s, addrs);
      out := dst + frames;
      assert out[|dst|..] == frames;
      forall k | 0 <= k < |addrs| ensures Right(s, addrs[k], out[|dst| + k]) {
        MetRight(caches, old(cache), cache, s, addrs, frames, k);
      }
      forall k | 0 <= k < |addrs| && !Disputed(s, addrs[k]) ensures FrameIs(s, addrs[k], out[|dst| + k]) {
        assert Right(s, addrs[k], out[|dst| + k]);
        FreshMeans(s, addrs[k]);
      }
    }

    method KernelFrames(s: Snapshot, addrs: seq<Word>)
      returns (frames: seq<Frame>, hits: nat, misses: nat, ghost caches: seq<map<Key, Frame>>)
      requires CacheOk(symbols.published, cache) && Taken(s, symbols.published) && GoodSnapshot(s)
      modifies this`cache
      ensures CacheOk(symbols.published, cache) && Met(caches, old(cache), cache, s, addrs, frames)
      ensures hits == Hits(caches, s, addrs) && misses == Misses(caches, s, addrs)
    {
      frames, hits, misses := [], 0, 0;
      caches := [cache];
      for i := 0 to |addrs|
        invariant CacheOk(symbols.published, cache) && Met(caches, old(cache), cache, s, addrs[..i], frames)
        invariant hits == Hits(caches, s, addrs[..i]) && misses == Misses(caches, s, addrs[..i])
      {
        ghost var before := cache;
        var f, hit, added := KernelFrame(s, addrs[i]);
        MetMore(caches, old(cache), before, cache, s, addrs[..i], frames, addrs[i], f);
        Prefix(addrs, i);
        caches := caches + [cache];
        hits := if hit then hits + 1 else hits;
        misses := if added then misses + 1 else misses;
        frames := frames + [f];
      }
      Prefix(addrs, |addrs|);
    }
  }

  // ------------------------------------------------------------------ what the cache does meanwhile

  lemma StoredIn(h: History, before: map<Key, Frame>, kept: map<Key, Frame>, k: Key, f: Frame)
    requires CacheOk(h, before) && EntryOk(h, k, f)
    requires forall j :: j in kept ==> j in before && kept[j] == before[j]
    ensures CacheOk(h, kept[k := f]) && Stored(before, kept[k := f], k, f)
  {
  }

  /** The entry is there; every other one was there before. */
  ghost predicate Stored(before: map<Key, Frame>, after: map<Key, Frame>, k: Key, f: Frame) {
    k in after && after[k] == f && forall j :: j in after && j != k ==> j in before && after[j] == before[j]
  }

  /** An address leaves the cache alone if it is found or may not be cached, else its frame is stored. */
  ghost predicate CacheStep(before: map<Key, Frame>, after: map<Key, Frame>, s: Snapshot, addr: Word)
    requires GoodSnapshot(s)
  {
    if Missed(before, s, addr) then Stored(before, after, (addr, Resolve(s, addr).generation), Fresh(s, addr)) else after == before
  }

  predicate Missed(cache: map<Key, Frame>, s: Snapshot, addr: Word) {
    Probe(cache, s, addr).None? && Cacheable(Resolve(s, addr))
  }

  /** The caches before each address, and the last; and the frames, each of them right. */
  ghost predicate Met(caches: seq<map<Key, Frame>>, first: map<Key, Frame>, last: map<Key, Frame>,
                      s: Snapshot, addrs: seq<Word>, frames: seq<Frame>)
    requires GoodSnapshot(s)
    decreases |addrs|
  {
    && |caches| == |addrs| + 1 && |frames| == |addrs| && caches[|addrs|] == last
    && if addrs == [] then first == last
       else
         var i := |addrs| - 1;
         && Met(caches[..|addrs|], first, caches[i], s, addrs[..i], frames[..i])
         && CacheStep(caches[i], last, s, addrs[i]) && Right(s, addrs[i], frames[i])
  }

  lemma {:induction false} MetRight(caches: seq<map<Key, Frame>>, first: map<Key, Frame>, last: map<Key, Frame>,
                                    s: Snapshot, addrs: seq<Word>, frames: seq<Frame>, k: nat)
    requires GoodSnapshot(s) && Met(caches, first, last, s, addrs, frames) && k < |addrs|
    ensures Right(s, addrs[k], frames[k])
    decreases |addrs|
  {
    var i := |addrs| - 1;
    if k < i {
      MetRight(caches[..|addrs|], first, caches[i], s, addrs[..i], frames[..i], k);
    }
  }

  function Hits(caches: seq<map<Key, Frame>>, s: Snapshot, addrs: seq<Word>): nat
    requires |caches| > |addrs|
  {
    if addrs == [] then 0
    else
      var i := |addrs| - 1;
      Hits(caches, s, addrs[..i]) + if Probe(caches[i], s, addrs[i]).Some? then 1 else 0
  }

  function Misses(caches: seq<map<Key, Frame>>, s: Snapshot, addrs: seq<Word>): nat
    requires |caches| > |addrs|
  {
    if addrs == [] then 0
    else
      var i := |addrs| - 1;
      Misses(caches, s, addrs[..i]) + if Missed(caches[i], s, addrs[i]) then 1 else 0
  }

  /** Later caches do not matter. */
  lemma {:induction false} CountsSame(caches: seq<map<Key, Frame>>, more: seq<map<Key, Frame>>, s: Snapshot, addrs: seq<Word>)
    requires |caches| > |addrs| && caches <= more
    ensures Hits(more, s, addrs) == Hits(caches, s, addrs) && Misses(more, s, addrs) == Misses(caches, s, addrs)
  {
    if addrs != [] {
      CountsSame(caches, more, s, addrs[..|addrs| - 1]);
    }
  }

  /** There is a frame for the address under the generation of one of the two tables; no table has 0 or 1. */
  predicate Held(cache: map<Key, Frame>, s: Snapshot, addr: Word) {
    || (addr, if s.modules.None? then 0 else s.modules.value.generation) in cache
    || (addr, if s.bpf.None? then 1 else s.bpf.value.generation) in cache
  }

  /** The address is in a BPF program or in a module with a mapping. */
  ghost predicate Keepable(s: Snapshot, addr: Word) {
    || (s.bpf.Some? && exists b :: b in s.bpf.value.symbols && Covers(b, addr))
    || (s.modules.Some? && exists m :: m in s.modules.value.modules && Within(m, addr) && m.mapping.Some?)
  }

  ghost function Trues(flags: seq<bool>): set<nat> {
    set k: nat | k < |flags| && flags[k]
  }

  lemma TruesMore(flags: seq<bool>, last: bool)
    ensures |Trues(flags + [last])| == |Trues(flags)| + if last then 1 else 0
  {
    var before, now := Trues(flags), Trues(flags + [last]);
    assert |flags| !in before;
    if last {
      assert now == before + {|flags|};
    } else {
      assert now == before;
    }
  }

  lemma KeepableIs(s: Snapshot, addr: Word)
    requires GoodSnapshot(s)
    ensures Cacheable(Resolve(s, addr)) <==> Keepable(s, addr)
  {
    var bpf := SymbolsOf(s.bpf);
    CoveringSome(bpf, addr);
    assert BpfHit(s, addr).Some? <==> exists k :: 0 <= k < |bpf| && Covers(bpf[k], addr);
    if s.modules.Some? {
      var ms := s.modules.value.modules;
      ModuleOfMeans(ms, addr);
      forall k | 0 <= k < |ms| && Within(ms[k], addr) ensures ModuleOf(ms, addr) == Some(ms[k]) {
        forall j | 0 <= j < k ensures !Within(ms[j], addr) {
          assert ms[k].end <= ms[j].start;
        }
        ModuleOfAt(ms, addr, k);
      }
    }
  }

  /** The hits are the addresses found in the cache they met under one of the two generations. */
  lemma {:induction false} HitsMean(caches: seq<map<Key, Frame>>, s: Snapshot, addrs: seq<Word>, held: seq<bool>)
    requires |caches| > |addrs| == |held|
    requires forall k :: 0 <= k < |addrs| ==> held[k] == Held(caches[k], s, addrs[k])
    ensures Hits(caches, s, addrs) == |Trues(held)|
  {
    if addrs == [] {
      assert Trues(held) == {};
    } else {
      var i := |addrs| - 1;
      HitsMean(caches, s, addrs[..i], held[..i]);
      TruesMore(held[..i], held[i]);
      assert held[..i] + [held[i]] == held;
    }
  }

  /** The misses are the addresses not found there that have a frame to keep. */
  lemma {:induction false} MissesMean(caches: seq<map<Key, Frame>>, s: Snapshot, addrs: seq<Word>, missed: seq<bool>)
    requires |caches| > |addrs| == |missed| && GoodSnapshot(s)
    requires forall k :: 0 <= k < |addrs| ==> missed[k] == (!Held(caches[k], s, addrs[k]) && Keepable(s, addrs[k]))
    ensures Misses(caches, s, addrs) == |Trues(missed)|
  {
    if addrs == [] {
      assert Trues(missed) == {};
    } else {
      var i := |addrs| - 1;
      MissesMean(caches, s, addrs[..i], missed[..i]);
      KeepableIs(s, addrs[i]);
      TruesMore(missed[..i], missed[i]);
      assert missed[..i] + [missed[i]] == missed;
    }
  }

  lemma MetMore(caches: seq<map<Key, Frame>>, first: map<Key, Frame>, last: map<Key, Frame>, next: map<Key, Frame>,
                s: Snapshot, addrs: seq<Word>, frames: seq<Frame>, addr: Word, f: Frame)
    requires GoodSnapshot(s) && Met(caches, first, last, s, addrs, frames)
    requires CacheStep(last, next, s, addr) && Right(s, addr, f)
    ensures Met(caches + [next], first, next, s, addrs + [addr], frames + [f])
    ensures Hits(caches + [next], s, addrs + [addr])
         == Hits(caches, s, addrs) + if Probe(last, s, addr).Some? then 1 else 0
    ensures Misses(caches + [next], s, addrs + [addr]) == Misses(caches, s, addrs) + if Missed(last, s, addr) then 1 else 0
  {
    assert (addrs + [addr])[..|addrs|] == addrs && (frames + [f])[..|frames|] == frames;
    assert (caches + [next])[..|caches|] == caches;
    CountsSame(caches, caches + [next], s, addrs);
  }

  /**
   Without the assumption: two published tables, one address. The module's frame is cached; when a
   BPF program is published over the same address, the cache still answers with the module's frame.
   */
  lemma DisputedFrame(m: Module, sym: BpfSymbol, addr: Word)
    requires GoodModule(m) && m.mapping.Some? && Within(m, addr) && Covers(sym, addr) && sym.address + sym.size < WORD
    ensures var before := Snapshot(Some(ModuleTable(2, [m])), None);
            var after := Snapshot(Some(ModuleTable(2, [m])), Some(BpfTable(3, [sym])));
            var cache: map<Key, Frame> := map[(addr, 2) := ModuleFrame(m, addr)];
            && GoodSnapshot(before) && GoodSnapshot(after)
            && Fresh(before, addr) == ModuleFrame(m, addr)
            && Probe(cache, after, addr) == Some(Fresh(before, addr)) && Fresh(after, addr) != Fresh(before, addr)
  {
    assert ModuleOf([m], addr) == Some(m);
    assert Covering([sym], addr) == Some(Hit(sym.name, addr - sym.address));
  }
}
