/**
 Stack compression (tracer/events.go, internal/stackcompress, support/ebpf/interpreter_dispatcher.ebpf.c).

 The kernel sends a stack in full the first time it sees its fingerprint and afterwards only a
 40-byte event naming the fingerprint; user space re-expands events from a cache. The kernel's
 dictionary may lose entries at any time.
 */
module Compression {
  import opened Words
  import opened Bytes
  import opened Fingerprint

  // ------------------------------------------------------------------ the wire format of an event

  const STACK_ID_EVENT_MAGIC: Word := 0x5349434b49444556
  const STACK_ID_EVENT_SIZE: nat := 40

  datatype StackIdEvent = StackIdEvent(ktime: Word, fingerprint: Word, pid: Word32, tid: Word32, cpu: Word32, count: Word32)

  function Encode(ev: StackIdEvent): (b: seq<Byte>)
    ensures |b| == STACK_ID_EVENT_SIZE
  {
    LeBytes(STACK_ID_EVENT_MAGIC, 8) + LeBytes(ev.ktime, 8) + LeBytes(ev.fingerprint, 8)
    + LeBytes(ev.pid, 4) + LeBytes(ev.tid, 4) + LeBytes(ev.cpu, 4) + LeBytes(ev.count, 4)
  }

  function Word64At(b: seq<Byte>, i: nat): Word
    requires i + 8 <= |b|
  {
    WordAt(b, i)
  }

  predicate IsEvent(b: seq<Byte>) {
    |b| == STACK_ID_EVENT_SIZE && Word64At(b, 0) == STACK_ID_EVENT_MAGIC
  }

  /** The fields user space reads out of an event. */
  function Parsed(b: seq<Byte>): StackIdEvent
    requires |b| == STACK_ID_EVENT_SIZE
  {
    StackIdEvent(Word64At(b, 8), Word64At(b, 16), Word32At(b, 24), Word32At(b, 28), Word32At(b, 32), Word32At(b, 36))
  }

  lemma EventSlices(m: seq<Byte>, k: seq<Byte>, f: seq<Byte>, p: seq<Byte>, t: seq<Byte>, u: seq<Byte>, c: seq<Byte>)
    requires |m| == |k| == |f| == 8 && |p| == |t| == |u| == |c| == 4
    ensures var b := m + k + f + p + t + u + c;
            && b[0..8] == m && b[8..16] == k && b[16..24] == f
            && b[24..28] == p && b[28..32] == t && b[32..36] == u && b[36..40] == c
  {
  }

  lemma ValueFits(v: nat, n: nat)
    requires n == 8 ==> v < WORD
    requires n == 4 ==> v < 0x1_0000_0000
    ensures n == 8 || n == 4 ==> LeValue(LeBytes(v, n)) == v
  {
    Pow256Values();
    if n == 8 || n == 4 {
      LeRoundTrip(v, n);
    }
  }

  /** User space reads back exactly what the kernel wrote. */
  lemma EventRoundTrip(ev: StackIdEvent)
    ensures IsEvent(Encode(ev)) && Parsed(Encode(ev)) == ev
  {
    EventSlices(LeBytes(STACK_ID_EVENT_MAGIC, 8), LeBytes(ev.ktime, 8), LeBytes(ev.fingerprint, 8),
                LeBytes(ev.pid, 4), LeBytes(ev.tid, 4), LeBytes(ev.cpu, 4), LeBytes(ev.count, 4));
    ValueFits(STACK_ID_EVENT_MAGIC, 8);
    ValueFits(ev.ktime, 8);
    ValueFits(ev.fingerprint, 8);
    ValueFits(ev.pid, 4);
    ValueFits(ev.tid, 4);
    ValueFits(ev.cpu, 4);
    ValueFits(ev.count, 4);
  }

  /** Where the fields lie. */
  lemma EventLayout(ev: StackIdEvent)
    ensures var b := Encode(ev);
            && |b| == 40 && b[0..8] == LeBytes(0x5349434b49444556, 8)
            && b[8..16] == LeBytes(ev.ktime, 8) && b[16..24] == LeBytes(ev.fingerprint, 8)
            && b[24..28] == LeBytes(ev.pid, 4) && b[28..32] == LeBytes(ev.tid, 4)
            && b[32..36] == LeBytes(ev.cpu, 4) && b[36..40] == LeBytes(ev.count, 4)
  {
    EventSlices(LeBytes(STACK_ID_EVENT_MAGIC, 8), LeBytes(ev.ktime, 8), LeBytes(ev.fingerprint, 8),
                LeBytes(ev.pid, 4), LeBytes(ev.tid, 4), LeBytes(ev.cpu, 4), LeBytes(ev.count, 4));
  }

  // ------------------------------------------------------------------ user space

  datatype Trace = Trace(kernel: seq<Word>, user: seq<Word>, ktime: Word, pid: Word32, tid: Word32, value: int)

  function FrameData(t: Trace): seq<Word> {
    t.kernel + t.user
  }

  /** The fingerprint skips the leading kernel frames. */
  function TraceFp(t: Trace): Word {
    Fold(STACK_FP_SEED, FrameData(t)[|t.kernel|..])
  }

  lemma TraceFpUser(t: Trace)
    ensures TraceFp(t) == Fold(STACK_FP_SEED, t.user)
  {
    assert FrameData(t)[|t.kernel|..] == t.user;
  }

  /** A ring buffer record: a full trace, one of an unexpected origin, or a short byte string. */
  datatype Record = Full(trace: Trace) | Foreign | Short(bytes: seq<Byte>)

  const CACHE_LIMIT: nat := 65536

  datatype User = User(cache: map<Word, Trace>, pending: map<Word, int>, out: seq<Trace>, stopped: bool)

  const USER_START: User := User(map[], map[], [], false)

  function Repeated(t: Trace, n: nat): seq<Trace> {
    if n == 0 then [] else Repeated(t, n - 1) + [t]
  }

  function PendingFor(u: User, fp: Word): int {
    if fp in u.pending then u.pending[fp] else 0
  }

  function OnEvent(u: User, ev: StackIdEvent): User {
    if ev.fingerprint in u.cache then
      var clone := u.cache[ev.fingerprint].(ktime := ev.ktime, pid := ev.pid, tid := ev.tid);
      u.(out := u.out + Repeated(clone, ev.count))
    else
      u.(pending := u.pending[ev.fingerprint := PendingFor(u, ev.fingerprint) + ev.count])
  }

  function OnFull(u: User, t: Trace): User {
    var fp, n := TraceFp(t), PendingFor(u, TraceFp(t));
    var t' := if n > 0 then t.(value := t.value + n) else t;
    var pending' := if n > 0 then u.pending - {fp} else u.pending;
    var cache' := if |u.cache| < CACHE_LIMIT then u.cache[fp := t'] else u.cache;
    User(cache', pending', u.out + [t'], u.stopped)
  }

  /** One record read from the ring; a malformed one stops the monitor. */
  function OnRecord(u: User, r: Record): User {
    if u.stopped then u
    else match r
      case Full(t) => OnFull(u, t)
      case Foreign => u
      case Short(b) =>
        if b == [] then u
        else if IsEvent(b) then OnEvent(u, Parsed(b))
        else u.(stopped := true)
  }

  function Replay(recs: seq<Record>): User {
    if recs == [] then USER_START else OnRecord(Replay(recs[..|recs| - 1]), recs[|recs| - 1])
  }

  /** The reading loop's state, updated in place. */
  class TraceMonitor {
    var stackCache: map<Word, Trace>
    var pendingStackCounts: map<Word, int>
    var traceOut: seq<Trace>
    var stopped: bool

    ghost function View(): User
      reads this
    {
      User(stackCache, pendingStackCounts, traceOut, stopped)
    }

    constructor ()
      ensures View() == USER_START
    {
      stackCache, pendingStackCounts, traceOut, stopped := map[], map[], [], false;
    }

    method HandleRecord(r: Record)
      requires !stopped
      modifies this
      ensures View() == OnRecord(old(View()), r)
    {
      match r {
        case Short(b) =>
          if |b| == 0 {
            return;
          }
          if |b| == STACK_ID_EVENT_SIZE && Word64At(b, 0) == STACK_ID_EVENT_MAGIC {
            HandleEvent(Parsed(b));
            return;
          }
          stopped := true;
        case Foreign =>
          return;
        case Full(t) =>
          HandleFull(t);
      }
    }

    /** Re-expands an event from the cache, or counts it until its stack arrives. */
    method HandleEvent(ev: StackIdEvent)
      modifies this`traceOut, this`pendingStackCounts
      ensures View() == OnEvent(old(View()), ev)
    {
      var fp := ev.fingerprint;
      if fp in stackCache {
        var clone := stackCache[fp].(ktime := ev.ktime, pid := ev.pid, tid := ev.tid);
        var before := traceOut;
        assert before + Repeated(clone, 0) == before;
        for j := 0 to ev.count
          invariant traceOut == before + Repeated(clone, j) && pendingStackCounts == old(pendingStackCounts)
        {
          traceOut := traceOut + [clone];
        }
        return;
      }
      var n := if fp in pendingStackCounts then pendingStackCounts[fp] else 0;
      pendingStackCounts := pendingStackCounts[fp := n + ev.count];
    }

    method HandleFull(t: Trace)
      modifies this`traceOut, this`pendingStackCounts, this`stackCache
      ensures View() == OnFull(old(View()), t)
    {
      var trace := t;
      var fp := Fingerprint.Fingerprint(FrameData(trace), |trace.kernel|);
      var n := if fp in pendingStackCounts then pendingStackCounts[fp] else 0;
      if n > 0 {
        trace := trace.(value := trace.value + n);
        pendingStackCounts := pendingStackCounts - {fp};
      }
      if |stackCache| < CACHE_LIMIT {
        stackCache := stackCache[fp := trace];
      }
      traceOut := traceOut + [trace];
    }
  }

  // ------------------------------------------------------------------ weights on arbitrary record sequences

  /** What the reporter counts for an on-CPU trace. */
  function Weight(t: Trace): int {
    1 + t.value
  }

  /** What one emitted trace adds for a fingerprint. */
  function WeightFor(t: Trace, fp: Word): int {
    if TraceFp(t) == fp then Weight(t) else 0
  }

  function WeightOf(out: seq<Trace>, fp: Word): int {
    if out == [] then 0
    else
      var last := out[|out| - 1];
      WeightOf(out[..|out| - 1], fp) + WeightFor(last, fp)
  }

  /** Samples with the given fingerprint that a record stands for. */
  function SamplesIn(u: User, r: Record, fp: Word): int {
    if u.stopped then 0
    else match r
      case Full(t) => WeightFor(t, fp)
      case Foreign => 0
      case Short(b) => if IsEvent(b) && Parsed(b).fingerprint == fp then Parsed(b).count else 0
  }

  /** What a re-expanded event counts too much: the cached trace may carry a folded count. */
  function ExcessIn(u: User, r: Record, fp: Word): int {
    if !u.stopped && r.Short? && IsEvent(r.bytes) && Parsed(r.bytes).fingerprint == fp && fp in u.cache
    then Parsed(r.bytes).count * u.cache[fp].value else 0
  }

  function SamplesSent(recs: seq<Record>, fp: Word): int {
    if recs == [] then 0
    else
      var rest := recs[..|recs| - 1];
      SamplesSent(rest, fp) + SamplesIn(Replay(rest), recs[|recs| - 1], fp)
  }

  function Excess(recs: seq<Record>, fp: Word): int {
    if recs == [] then 0
    else
      var rest := recs[..|recs| - 1];
      Excess(rest, fp) + ExcessIn(Replay(rest), recs[|recs| - 1], fp)
  }

  lemma OneMoreTime(n: int, w: int)
    ensures n * w == (n - 1) * w + w
  {
  }

  lemma {:induction false} WeightOfRepeated(out: seq<Trace>, t: Trace, n: nat, fp: Word, w: int)
    requires w == WeightFor(t, fp)
    ensures WeightOf(out + Repeated(t, n), fp) == WeightOf(out, fp) + n * w
  {
    if n == 0 {
      assert out + Repeated(t, 0) == out;
    } else {
      WeightOfRepeated(out, t, n - 1, fp, w);
      OneRepeated(out, t, n, fp);
      OneMoreTime(n, w);
    }
  }

  lemma OneRepeated(out: seq<Trace>, t: Trace, n: nat, fp: Word)
    requires n > 0
    ensures WeightOf(out + Repeated(t, n), fp) == WeightOf(out + Repeated(t, n - 1), fp) + WeightFor(t, fp)
  {
    assert out + Repeated(t, n) == out + Repeated(t, n - 1) + [t];
    WeightOfOne(out + Repeated(t, n - 1), t, fp);
  }

  lemma WeightOfOne(out: seq<Trace>, t: Trace, fp: Word)
    ensures WeightOf(out + [t], fp) == WeightOf(out, fp) + WeightFor(t, fp)
  {
    assert (out + [t])[..|out|] == out;
  }

  /** Cached traces sit under their own fingerprint and pending counts are never negative. */
  ghost predicate Indexed(u: User) {
    && (forall fp :: fp in u.cache ==> TraceFp(u.cache[fp]) == fp)
    && (forall fp :: fp in u.pending ==> u.pending[fp] >= 0)
  }

  lemma RevaluedFp(t: Trace, ktime: Word, pid: Word32, tid: Word32, value: int)
    ensures TraceFp(t.(ktime := ktime, pid := pid, tid := tid, value := value)) == TraceFp(t)
  {
  }

  lemma ClonesWeigh(out: seq<Trace>, t: Trace, n: nat, fp: Word)
    ensures WeightOf(out + Repeated(t, n), fp) == WeightOf(out, fp) + if TraceFp(t) == fp then n + n * t.value else 0
  {
    var w := WeightFor(t, fp);
    WeightOfRepeated(out, t, n, fp, w);
    if TraceFp(t) == fp {
      CloneWeights(n, t.value);
    }
  }

  lemma {:induction false} EventCached(u: User, ev: StackIdEvent, fp: Word)
    requires Indexed(u) && ev.fingerprint in u.cache
    ensures WeightOf(OnEvent(u, ev).out, fp)
         == WeightOf(u.out, fp) + if ev.fingerprint == fp then ev.count + ev.count * u.cache[fp].value else 0
  {
    var cached := u.cache[ev.fingerprint];
    var clone := cached.(ktime := ev.ktime, pid := ev.pid, tid := ev.tid);
    RevaluedFp(cached, ev.ktime, ev.pid, ev.tid, cached.value);
    ClonesWeigh(u.out, clone, ev.count, fp);
  }

  lemma {:induction false} EventAccounts(u: User, ev: StackIdEvent, fp: Word)
    requires Indexed(u)
    ensures Indexed(OnEvent(u, ev))
    ensures WeightOf(OnEvent(u, ev).out, fp) + PendingFor(OnEvent(u, ev), fp)
         == WeightOf(u.out, fp) + PendingFor(u, fp)
            + (if ev.fingerprint == fp then ev.count else 0)
            + (if ev.fingerprint == fp && fp in u.cache then ev.count * u.cache[fp].value else 0)
  {
    if ev.fingerprint in u.cache {
      EventCached(u, ev, fp);
    } else {
      var u' := OnEvent(u, ev);
      assert u'.out == u.out && u'.cache == u.cache;
    }
  }

  lemma CloneWeights(n: int, value: int)
    ensures n * (1 + value) == n + n * value
  {
  }

  lemma FullAccounts(u: User, t: Trace, fp: Word)
    requires Indexed(u)
    ensures Indexed(OnFull(u, t))
    ensures WeightOf(OnFull(u, t).out, fp) + PendingFor(OnFull(u, t), fp)
         == WeightOf(u.out, fp) + PendingFor(u, fp) + if TraceFp(t) == fp then Weight(t) else 0
  {
    var n := PendingFor(u, TraceFp(t));
    var t' := if n > 0 then t.(value := t.value + n) else t;
    RevaluedFp(t, t.ktime, t.pid, t.tid, t.value + n);
    assert (u.out + [t'])[..|u.out|] == u.out;
  }

  lemma RecordAccounts(u: User, r: Record, fp: Word)
    requires Indexed(u)
    ensures Indexed(OnRecord(u, r))
    ensures WeightOf(OnRecord(u, r).out, fp) + PendingFor(OnRecord(u, r), fp)
         == WeightOf(u.out, fp) + PendingFor(u, fp) + SamplesIn(u, r, fp) + ExcessIn(u, r, fp)
  {
    if !u.stopped {
      match r {
        case Full(t) => FullAccounts(u, t, fp);
        case Foreign =>
        case Short(b) =>
          if IsEvent(b) {
            EventAccounts(u, Parsed(b), fp);
          }
      }
    }
  }

  /**
   For every sequence of records and every fingerprint: what was emitted and what is pending add up
   to what was sent plus the excess.
   */
  lemma {:induction false} Accounting(recs: seq<Record>, fp: Word)
    ensures Indexed(Replay(recs))
    ensures WeightOf(Replay(recs).out, fp) + PendingFor(Replay(recs), fp) == SamplesSent(recs, fp) + Excess(recs, fp)
  {
    if recs != [] {
      Accounting(recs[..|recs| - 1], fp);
      RecordAccounts(Replay(recs[..|recs| - 1]), recs[|recs| - 1], fp);
    }
  }
}
