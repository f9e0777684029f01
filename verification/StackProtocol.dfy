/**
 The kernel side of stack compression as the unwinder runs it on several CPUs (stack_compress_try_send
 and unwind_stop in support/ebpf/interpreter_dispatcher.ebpf.c), the ring, and user space: which runs
 give every sample its own trace.
 */
module StackProtocol {
  import opened Words
  import opened Bytes
  import opened Fingerprint
  import opened Compression

  // ------------------------------------------------------------------ the kernel and the ring

  /** One on-CPU sample as the unwinder took it. */
  datatype Sample = Sample(kernel: seq<Word>, user: seq<Word>, ktime: Word, pid: Word32, tid: Word32)

  function SampleFp(s: Sample): Word {
    Fold(STACK_FP_SEED, s.user)
  }

  function FullTrace(s: Sample): Trace {
    Trace(s.kernel, s.user, s.ktime, s.pid, s.tid, 0)
  }

  /** A record in the ring together with the sample it stands for. */
  datatype Slot = Slot(rec: Record, sample: Sample)

  /** A CPU that has looked its sample up without success and has yet to send it. */
  datatype Flight = Flight(cpu: Word32, sample: Sample)

  /**
   The kernel's dictionary, the samples between lookup and sending, every record ever sent, how many
   of them user space has read, its state, and the samples taken.
   */
  datatype State = State(dict: set<Word>, flying: seq<Flight>, sent: seq<Slot>, nread: nat, user: User, taken: multiset<Sample>)

  ghost predicate Init(s: State) {
    s == State({}, [], [], 0, USER_START, multiset{})
  }

  function EventOf(x: Sample, cpu: Word32): StackIdEvent {
    StackIdEvent(x.ktime, SampleFp(x), x.pid, x.tid, cpu, 1)
  }

  function EventSlot(x: Sample, cpu: Word32): Slot {
    Slot(Short(Encode(EventOf(x, cpu))), x)
  }

  function FullSlot(x: Sample): Slot {
    Slot(Full(FullTrace(x)), x)
  }

  /** A CPU takes one sample at a time. */
  ghost predicate Free(s: State, cpu: Word32) {
    forall i :: 0 <= i < |s.flying| ==> s.flying[i].cpu != cpu
  }

  /** A sample whose fingerprint is in the dictionary becomes an event. */
  ghost predicate Hit(s: State, s': State, x: Sample, cpu: Word32) {
    && Free(s, cpu) && SampleFp(x) in s.dict
    && s' == s.(sent := s.sent + [EventSlot(x, cpu)], taken := s.taken + multiset{x})
  }

  /** Otherwise its fingerprint is registered, which may evict any entries or fail; the sample is not sent yet. */
  ghost predicate Register(s: State, s': State, x: Sample, cpu: Word32) {
    && Free(s, cpu) && SampleFp(x) !in s.dict
    && s'.dict <= s.dict + {SampleFp(x)}
    && s' == s.(dict := s'.dict, flying := s.flying + [Flight(cpu, x)], taken := s.taken + multiset{x})
  }

  /** The full record of a registered sample is sent, whatever other CPUs did meanwhile. */
  ghost predicate Send(s: State, s': State, i: nat) {
    && i < |s.flying|
    && s' == s.(flying := s.flying[..i] + s.flying[i + 1..], sent := s.sent + [FullSlot(s.flying[i].sample)])
  }

  ghost predicate Evict(s: State, s': State) {
    s'.dict <= s.dict && s' == s.(dict := s'.dict)
  }

  ghost predicate ReadOne(s: State, s': State) {
    && s.nread < |s.sent|
    && s' == s.(nread := s.nread + 1, user := OnRecord(s.user, s.sent[s.nread].rec))
  }

  ghost predicate Step(s: State, s': State) {
    || (exists x, cpu :: Hit(s, s', x, cpu))
    || (exists x, cpu :: Register(s, s', x, cpu))
    || (exists i :: Send(s, s', i))
    || Evict(s, s')
    || ReadOne(s, s')
  }

  function SamplesOf(slots: seq<Slot>): (r: seq<Sample>)
    ensures |r| == |slots|
  {
    if slots == [] then [] else SamplesOf(slots[..|slots| - 1]) + [slots[|slots| - 1].sample]
  }

  function RecordsOf(slots: seq<Slot>): seq<Record> {
    if slots == [] then [] else RecordsOf(slots[..|slots| - 1]) + [slots[|slots| - 1].rec]
  }

  function Flown(flying: seq<Flight>): seq<Sample> {
    if flying == [] then [] else Flown(flying[..|flying| - 1]) + [flying[|flying| - 1].sample]
  }

  /** Same user frames, time and thread; and, if it was sent in full, the same kernel frames. */
  predicate StandsFor(t: Trace, slot: Slot) {
    var x := slot.sample;
    && t.user == x.user && t.ktime == x.ktime && t.pid == x.pid && t.tid == x.tid && t.value == 0
    && (slot.rec.Full? ==> t.kernel == x.kernel)
  }

  predicate AllStandFor(out: seq<Trace>, slots: seq<Slot>) {
    |out| == |slots| && forall i :: 0 <= i < |out| ==> StandsFor(out[i], slots[i])
  }

  function Fps(xs: seq<Sample>): set<Word> {
    set i | 0 <= i < |xs| :: SampleFp(xs[i])
  }

  ghost predicate Collides(x: Sample, y: Sample) {
    SampleFp(x) == SampleFp(y) && x.user != y.user
  }

  /** Distinct user stacks have distinct fingerprints, and there are at most 65536 of them. */
  ghost predicate Benign(xs: seq<Sample>) {
    && (forall i, j :: 0 <= i < |xs| && 0 <= j < |xs| ==> !Collides(xs[i], xs[j]))
    && |Fps(xs)| <= CACHE_LIMIT
  }

  // ------------------------------------------------------------------ when nothing is lost

  /** The fingerprints whose stacks are among these records in full. */
  function Announced(slots: seq<Slot>): set<Word> {
    if slots == [] then {}
    else
      var last := slots[|slots| - 1];
      Announced(slots[..|slots| - 1]) + (if last.rec.Full? then {SampleFp(last.sample)} else {})
  }

  /** A slot carries its sample in full, or as an event. */
  ghost predicate GoodSlot(slot: Slot) {
    slot == FullSlot(slot.sample) || exists cpu :: slot == EventSlot(slot.sample, cpu)
  }

  ghost predicate GoodSlots(slots: seq<Slot>) {
    forall k :: 0 <= k < |slots| ==> GoodSlot(slots[k])
  }

  /** Every event comes after a full record with its fingerprint. */
  predicate Orderly(slots: seq<Slot>) {
    slots == [] ||
    (&& Orderly(slots[..|slots| - 1])
     && (slots[|slots| - 1].rec.Full? || SampleFp(slots[|slots| - 1].sample) in Announced(slots[..|slots| - 1])))
  }

  /** How many events come before every full record with their fingerprint. */
  function Overtaking(slots: seq<Slot>): nat {
    if slots == [] then 0
    else
      var rest, last := slots[..|slots| - 1], slots[|slots| - 1];
      Overtaking(rest) + if last.rec.Full? || SampleFp(last.sample) in Announced(rest) then 0 else 1
  }

  lemma {:induction false} OrderlyIff(slots: seq<Slot>)
    ensures Orderly(slots) <==> Overtaking(slots) == 0
  {
    if slots != [] {
      OrderlyIff(slots[..|slots| - 1]);
    }
  }

  /** User space after reading some records. */
  function UserAfter(slots: seq<Slot>): User {
    Replay(RecordsOf(slots))
  }

  lemma UserMore(slots: seq<Slot>, slot: Slot)
    ensures UserAfter(slots + [slot]) == OnRecord(UserAfter(slots), slot.rec)
    ensures SamplesOf(slots + [slot]) == SamplesOf(slots) + [slot.sample]
  {
    var more := slots + [slot];
    assert more[..|more| - 1] == slots;
    var recs := RecordsOf(more);
    assert recs[..|recs| - 1] == RecordsOf(slots);
  }

  lemma FpsOfPart(xs: seq<Sample>, ys: seq<Sample>)
    requires xs <= ys
    ensures Fps(xs) <= Fps(ys)
  {
    forall fp | fp in Fps(xs) ensures fp in Fps(ys) {
      var i :| 0 <= i < |xs| && SampleFp(xs[i]) == fp;
      assert ys[i] == xs[i];
    }
  }

  lemma SubsetSize<T>(a: set<T>, b: set<T>)
    requires a <= b
    ensures |a| <= |b|
    ensures |a| == |b| ==> a == b
  {
    assert b == a + (b - a);
    if |a| == |b| {
      assert |b - a| == 0;
    }
  }

  lemma BenignPart(xs: seq<Sample>, ys: seq<Sample>)
    requires xs <= ys && Benign(ys)
    ensures Benign(xs)
  {
    FpsOfPart(xs, ys);
    SubsetSize(Fps(xs), Fps(ys));
    forall i, j | 0 <= i < |xs| && 0 <= j < |xs| ensures !Collides(xs[i], xs[j]) {
      assert xs[i] == ys[i] && xs[j] == ys[j];
    }
  }

  /** A cached trace is a stack that was read, under its own fingerprint. */
  ghost predicate GoodEntry(t: Trace, fp: Word, read: seq<Sample>) {
    Fold(STACK_FP_SEED, t.user) == fp && exists i :: 0 <= i < |read| && read[i].user == t.user
  }

  ghost predicate GoodCache(cache: map<Word, Trace>, read: seq<Sample>) {
    forall fp :: fp in cache ==> GoodEntry(cache[fp], fp, read)
  }

  /** What reading keeps, orderly or not: the cache holds exactly the announced stacks. */
  ghost predicate Reading(u: User, slots: seq<Slot>) {
    && !u.stopped
    && u.cache.Keys == Announced(slots)
    && GoodCache(u.cache, SamplesOf(slots))
    && |u.out| + Overtaking(slots) == |slots|
  }

  lemma GoodCacheGrows(cache: map<Word, Trace>, read: seq<Sample>, x: Sample)
    requires GoodCache(cache, read)
    ensures GoodCache(cache, read + [x])
  {
    forall fp | fp in cache ensures GoodEntry(cache[fp], fp, read + [x]) {
      var i :| 0 <= i < |read| && read[i].user == cache[fp].user;
      assert (read + [x])[i] == read[i];
    }
  }

  /** Within the bound on distinct stacks the cache has room for the stack just read, or holds it. */
  lemma RoomInCache(cache: map<Word, Trace>, read: seq<Sample>, x: Sample)
    requires GoodCache(cache, read) && |Fps(read + [x])| <= CACHE_LIMIT
    ensures |cache| >= CACHE_LIMIT ==> SampleFp(x) in cache
  {
    var all := read + [x];
    forall fp | fp in cache.Keys ensures fp in Fps(all) {
      var i :| 0 <= i < |read| && read[i].user == cache[fp].user;
      assert all[i] == read[i];
    }
    SubsetSize(cache.Keys, Fps(all));
    assert all[|read|] == x;
    assert SampleFp(x) in Fps(all);
  }

  lemma AnnouncedMore(slots: seq<Slot>, slot: Slot)
    ensures Announced(slots + [slot]) == Announced(slots) + if slot.rec.Full? then {SampleFp(slot.sample)} else {}
    ensures Orderly(slots + [slot]) <==> Orderly(slots) && (slot.rec.Full? || SampleFp(slot.sample) in Announced(slots))
    ensures Overtaking(slots + [slot])
         == Overtaking(slots) + if slot.rec.Full? || SampleFp(slot.sample) in Announced(slots) then 0 else 1
  {
    var more := slots + [slot];
    assert more[..|more| - 1] == slots && more[|more| - 1] == slot;
  }

  lemma CacheStep(cache: map<Word, Trace>, cache': map<Word, Trace>, read: seq<Sample>, fp: Word, t: Trace, i: nat)
    requires GoodCache(cache, read) && i < |read| && read[i].user == t.user && Fold(STACK_FP_SEED, t.user) == fp
    requires cache' == if |cache| < CACHE_LIMIT then cache[fp := t] else cache
    requires |cache| >= CACHE_LIMIT ==> fp in cache
    ensures cache'.Keys == cache.Keys + {fp} && GoodCache(cache', read)
  {
    assert GoodEntry(t, fp, read);
  }

  /** The trace a full record leaves in the cache, if there is room. */
  lemma FullCached(u: User, t: Trace) returns (t': Trace)
    ensures t'.user == t.user
    ensures OnFull(u, t).cache == if |u.cache| < CACHE_LIMIT then u.cache[TraceFp(t) := t'] else u.cache
  {
    var n := PendingFor(u, TraceFp(t));
    t' := if n > 0 then t.(value := t.value + n) else t;
  }

  /** Caching the stack just read. */
  lemma CacheFull(u: User, read: seq<Sample>, x: Sample)
    requires GoodCache(u.cache, read) && |Fps(read + [x])| <= CACHE_LIMIT
    ensures var u' := OnFull(u, FullTrace(x));
            u'.cache.Keys == u.cache.Keys + {SampleFp(x)} && GoodCache(u'.cache, read + [x])
  {
    TraceFpUser(FullTrace(x));
    var t' := FullCached(u, FullTrace(x));
    GoodCacheGrows(u.cache, read, x);
    RoomInCache(u.cache, read, x);
    CacheStep(u.cache, OnFull(u, FullTrace(x)).cache, read + [x], SampleFp(x), t', |read|);
  }

  /** Reading a full record. */
  lemma ReadFull(u: User, slots: seq<Slot>, x: Sample)
    requires Reading(u, slots) && Benign(SamplesOf(slots) + [x])
    ensures Reading(OnRecord(u, FullSlot(x).rec), slots + [FullSlot(x)])
  {
    UserMore(slots, FullSlot(x));
    AnnouncedMore(slots, FullSlot(x));
    CacheFull(u, SamplesOf(slots), x);
  }

  lemma OneClone(out: seq<Trace>, t: Trace)
    ensures out + Repeated(t, 1) == out + [t]
  {
    assert Repeated(t, 0) == [] && Repeated(t, 1) == [t];
  }

  /** What an event does to user space. */
  lemma EventRead(u: User, x: Sample, cpu: Word32)
    requires !u.stopped
    ensures OnRecord(u, EventSlot(x, cpu).rec) == OnEvent(u, EventOf(x, cpu))
    ensures SampleFp(x) in u.cache ==>
              var t := u.cache[SampleFp(x)].(ktime := x.ktime, pid := x.pid, tid := x.tid);
              OnEvent(u, EventOf(x, cpu)) == u.(out := u.out + [t])
    ensures SampleFp(x) !in u.cache ==>
              OnEvent(u, EventOf(x, cpu)).out == u.out && OnEvent(u, EventOf(x, cpu)).cache == u.cache
  {
    EventRoundTrip(EventOf(x, cpu));
    if SampleFp(x) in u.cache {
      OneClone(u.out, u.cache[SampleFp(x)].(ktime := x.ktime, pid := x.pid, tid := x.tid));
    }
  }

  lemma ReadEvent(u: User, slots: seq<Slot>, x: Sample, cpu: Word32)
    requires Reading(u, slots)
    ensures Reading(OnRecord(u, EventSlot(x, cpu).rec), slots + [EventSlot(x, cpu)])
  {
    UserMore(slots, EventSlot(x, cpu));
    AnnouncedMore(slots, EventSlot(x, cpu));
    EventRead(u, x, cpu);
    GoodCacheGrows(u.cache, SamplesOf(slots), x);
  }

  /**
   Within the bound, user space caches exactly the stacks it has read in full, and emits one trace for
   every record but the events that came before the full record of their stack.
   */
  lemma {:induction false} CacheIsAnnounced(slots: seq<Slot>)
    requires GoodSlots(slots) && Benign(SamplesOf(slots))
    ensures Reading(UserAfter(slots), slots)
  {
    if slots != [] {
      var rest, last := slots[..|slots| - 1], slots[|slots| - 1];
      assert slots == rest + [last];
      BenignPart(SamplesOf(rest), SamplesOf(slots));
      CacheIsAnnounced(rest);
      UserMore(rest, last);
      assert GoodSlot(last);
      if last == FullSlot(last.sample) {
        ReadFull(UserAfter(rest), rest, last.sample);
      } else {
        var cpu :| last == EventSlot(last.sample, cpu);
        ReadEvent(UserAfter(rest), rest, last.sample, cpu);
      }
    }
  }

  /** While everything was orderly: nothing pends, no count was folded, each trace is its sample's. */
  ghost predicate Exact(u: User, slots: seq<Slot>) {
    && u.pending == map[] && AllStandFor(u.out, slots)
    && forall fp :: fp in u.cache ==> u.cache[fp].value == 0
  }

  lemma AllStandForGrows(out: seq<Trace>, slots: seq<Slot>, t: Trace, slot: Slot)
    requires AllStandFor(out, slots) && StandsFor(t, slot)
    ensures AllStandFor(out + [t], slots + [slot])
  {
  }

  lemma ExactFull(u: User, slots: seq<Slot>, x: Sample)
    requires !u.stopped && Exact(u, slots)
    ensures Exact(OnRecord(u, FullSlot(x).rec), slots + [FullSlot(x)])
  {
    TraceFpUser(FullTrace(x));
    AllStandForGrows(u.out, slots, FullTrace(x), FullSlot(x));
  }

  lemma ExactEvent(u: User, slots: seq<Slot>, read: seq<Sample>, x: Sample, cpu: Word32)
    requires !u.stopped && Exact(u, slots) && GoodCache(u.cache, read)
    requires SampleFp(x) in u.cache && Benign(read + [x])
    ensures Exact(OnRecord(u, EventSlot(x, cpu).rec), slots + [EventSlot(x, cpu)])
  {
    EventRead(u, x, cpu);
    var cached, all := u.cache[SampleFp(x)], read + [x];
    assert GoodEntry(cached, SampleFp(x), read);
    var i :| 0 <= i < |read| && read[i].user == cached.user;
    assert all[i] == read[i] && all[|read|] == x && !Collides(all[i], all[|read|]);
    AllStandForGrows(u.out, slots, cached.(ktime := x.ktime, pid := x.pid, tid := x.tid), EventSlot(x, cpu));
  }

  lemma {:induction false} OrderlyIsExact(slots: seq<Slot>)
    requires GoodSlots(slots) && Benign(SamplesOf(slots)) && Orderly(slots)
    ensures Exact(UserAfter(slots), slots)
  {
    if slots != [] {
      var rest, last := slots[..|slots| - 1], slots[|slots| - 1];
      assert slots == rest + [last];
      BenignPart(SamplesOf(rest), SamplesOf(slots));
      OrderlyIsExact(rest);
      CacheIsAnnounced(rest);
      UserMore(rest, last);
      assert GoodSlot(last);
      if last == FullSlot(last.sample) {
        ExactFull(UserAfter(rest), rest, last.sample);
      } else {
        var cpu :| last == EventSlot(last.sample, cpu);
        ExactEvent(UserAfter(rest), rest, SamplesOf(rest), last.sample, cpu);
      }
    }
  }

  /** Every sample gets its own trace exactly if every event comes after a full record of its stack. */
  lemma ExactIffOrderly(slots: seq<Slot>)
    requires GoodSlots(slots) && Benign(SamplesOf(slots))
    ensures AllStandFor(UserAfter(slots).out, slots) && UserAfter(slots).pending == map[] <==> Orderly(slots)
  {
    CacheIsAnnounced(slots);
    OrderlyIff(slots);
    if Orderly(slots) {
      OrderlyIsExact(slots);
    }
  }

  // ------------------------------------------------------------------ counts

  /** How many samples have the fingerprint. */
  function Count(slots: seq<Slot>, fp: Word): nat {
    if slots == [] then 0
    else Count(slots[..|slots| - 1], fp) + if SampleFp(slots[|slots| - 1].sample) == fp then 1 else 0
  }

  /** How many of them come as events before the first full record. */
  function Early(slots: seq<Slot>, fp: Word): nat {
    if slots == [] then 0
    else
      var rest, last := slots[..|slots| - 1], slots[|slots| - 1];
      Early(rest, fp) + if SampleFp(last.sample) == fp && !last.rec.Full? && fp !in Announced(rest) then 1 else 0
  }

  /** There is another full record behind the first, and it still finds room in the cache. */
  predicate Renewed(slots: seq<Slot>, fp: Word) {
    if slots == [] then false
    else
      var rest, last := slots[..|slots| - 1], slots[|slots| - 1];
      || Renewed(rest, fp)
      || (SampleFp(last.sample) == fp && last.rec.Full? && fp in Announced(rest) && |Announced(rest)| < CACHE_LIMIT)
  }

  /** How many come as events between those two. */
  function Between(slots: seq<Slot>, fp: Word): nat {
    if slots == [] then 0
    else
      var rest, last := slots[..|slots| - 1], slots[|slots| - 1];
      Between(rest, fp)
      + if SampleFp(last.sample) == fp && !last.rec.Full? && fp in Announced(rest) && !Renewed(rest, fp) then 1 else 0
  }

  /** The early events wait; the first full record takes their number into the cache, the next one wipes it out. */
  ghost predicate Folding(u: User, slots: seq<Slot>, fp: Word) {
    && PendingFor(u, fp) == (if fp in Announced(slots) then 0 else Early(slots, fp))
    && (fp in Announced(slots) <==> fp in u.cache)
    && (fp in u.cache ==> u.cache[fp].value == if Renewed(slots, fp) then 0 else Early(slots, fp))
    && (fp !in Announced(slots) ==> Between(slots, fp) == 0 && !Renewed(slots, fp))
  }

  lemma CountsMore(slots: seq<Slot>, slot: Slot, fp: Word)
    ensures var more := slots + [slot]; var mine, known := SampleFp(slot.sample) == fp, fp in Announced(slots);
            && Count(more, fp) == Count(slots, fp) + (if mine then 1 else 0)
            && Early(more, fp) == Early(slots, fp) + (if mine && !slot.rec.Full? && !known then 1 else 0)
            && (Renewed(more, fp) <==>
                  Renewed(slots, fp) || (mine && slot.rec.Full? && known && |Announced(slots)| < CACHE_LIMIT))
            && Between(more, fp)
            == Between(slots, fp) + if mine && !slot.rec.Full? && known && !Renewed(slots, fp) then 1 else 0
  {
    var more := slots + [slot];
    assert more[..|more| - 1] == slots && more[|more| - 1] == slot;
  }

  lemma FoldingFull(u: User, slots: seq<Slot>, x: Sample, fp: Word)
    requires !u.stopped && Folding(u, slots, fp) && u.cache.Keys == Announced(slots)
    requires |u.cache| >= CACHE_LIMIT ==> SampleFp(x) in u.cache
    ensures Folding(OnRecord(u, FullSlot(x).rec), slots + [FullSlot(x)], fp)
  {
    var t := FullTrace(x);
    TraceFpUser(t);
    CountsMore(slots, FullSlot(x), fp);
    AnnouncedMore(slots, FullSlot(x));
    assert |u.cache| == |Announced(slots)|;
  }

  lemma FoldingEvent(u: User, slots: seq<Slot>, x: Sample, cpu: Word32, fp: Word)
    requires !u.stopped && Folding(u, slots, fp) && u.cache.Keys == Announced(slots)
    ensures Folding(OnRecord(u, EventSlot(x, cpu).rec), slots + [EventSlot(x, cpu)], fp)
  {
    CountsMore(slots, EventSlot(x, cpu), fp);
    AnnouncedMore(slots, EventSlot(x, cpu));
    EventRead(u, x, cpu);
  }

  /** One sample for each record of it, and for an event what was folded into the trace it is expanded from. */
  lemma RecordWeighs(u: User, slot: Slot, fp: Word)
    requires GoodSlot(slot) && !u.stopped
    ensures SamplesIn(u, slot.rec, fp) == if SampleFp(slot.sample) == fp then 1 else 0
    ensures ExcessIn(u, slot.rec, fp)
         == if SampleFp(slot.sample) == fp && !slot.rec.Full? && fp in u.cache then u.cache[fp].value else 0
  {
    var x := slot.sample;
    if slot == FullSlot(x) {
      TraceFpUser(FullTrace(x));
    } else {
      var cpu :| slot == EventSlot(x, cpu);
      EventRoundTrip(EventOf(x, cpu));
    }
  }

  lemma Weighed(u: User, slots: seq<Slot>, slot: Slot, fp: Word)
    requires GoodSlot(slot) && !u.stopped && Indexed(u) && Folding(u, slots, fp)
    ensures WeightOf(OnRecord(u, slot.rec).out, fp) + PendingFor(OnRecord(u, slot.rec), fp)
         == WeightOf(u.out, fp) + PendingFor(u, fp) + (if SampleFp(slot.sample) == fp then 1 else 0)
            + (if Between(slots + [slot], fp) > Between(slots, fp) then Early(slots, fp) else 0)
  {
    RecordAccounts(u, slot.rec, fp);
    RecordWeighs(u, slot, fp);
    CountsMore(slots, slot, fp);
  }

  /**
   Within the bound: the samples of a fingerprint count as many as they are, and as much again as the
   early events times the events that were expanded from the trace that had taken them in.
   */
  lemma {:induction false} CountsExact(slots: seq<Slot>, fp: Word)
    requires GoodSlots(slots) && Benign(SamplesOf(slots))
    ensures Folding(UserAfter(slots), slots, fp)
    ensures WeightOf(UserAfter(slots).out, fp) + PendingFor(UserAfter(slots), fp)
         == Count(slots, fp) + Early(slots, fp) * Between(slots, fp)
  {
    if slots != [] {
      var rest, last := slots[..|slots| - 1], slots[|slots| - 1];
      assert slots == rest + [last];
      BenignPart(SamplesOf(rest), SamplesOf(slots));
      CountsExact(rest, fp);
      UserMore(rest, last);
      CountsOneMore(rest, last, fp);
    }
  }

  lemma CountsOneMore(rest: seq<Slot>, last: Slot, fp: Word)
    requires GoodSlots(rest) && GoodSlot(last) && Benign(SamplesOf(rest)) && Benign(SamplesOf(rest) + [last.sample])
    requires Folding(UserAfter(rest), rest, fp)
    requires WeightOf(UserAfter(rest).out, fp) + PendingFor(UserAfter(rest), fp)
          == Count(rest, fp) + Early(rest, fp) * Between(rest, fp)
    ensures Folding(UserAfter(rest + [last]), rest + [last], fp)
    ensures WeightOf(UserAfter(rest + [last]).out, fp) + PendingFor(UserAfter(rest + [last]), fp)
         == Count(rest + [last], fp) + Early(rest + [last], fp) * Between(rest + [last], fp)
  {
    CacheIsAnnounced(rest);
    UserMore(rest, last);
    Accounting(RecordsOf(rest), fp);
    Weighed(UserAfter(rest), rest, last, fp);
    FoldingMore(UserAfter(rest), rest, last, fp);
    ProductMore(UserAfter(rest), rest, last, fp);
  }

  lemma ProductMore(u: User, rest: seq<Slot>, last: Slot, fp: Word)
    requires Folding(u, rest, fp)
    ensures Count(rest + [last], fp) == Count(rest, fp) + if SampleFp(last.sample) == fp then 1 else 0
    ensures Early(rest + [last], fp) * Between(rest + [last], fp)
         == Early(rest, fp) * Between(rest, fp) + if Between(rest + [last], fp) > Between(rest, fp) then Early(rest, fp) else 0
  {
    CountsMore(rest, last, fp);
    GrownProduct(Early(rest, fp), Between(rest, fp), Early(rest + [last], fp), Between(rest + [last], fp));
  }

  lemma GrownProduct(a: nat, b: nat, a': nat, b': nat)
    requires (a' == a && (b' == b || b' == b + 1)) || b == b' == 0
    ensures a' * b' == a * b + if b' > b then a else 0
  {
  }

  lemma FoldingMore(u: User, rest: seq<Slot>, last: Slot, fp: Word)
    requires Reading(u, rest) && Folding(u, rest, fp) && GoodSlot(last) && Benign(SamplesOf(rest) + [last.sample])
    ensures Folding(OnRecord(u, last.rec), rest + [last], fp)
  {
    if last == FullSlot(last.sample) {
      RoomInCache(u.cache, SamplesOf(rest), last.sample);
      FoldingFull(u, rest, last.sample, fp);
    } else {
      var cpu :| last == EventSlot(last.sample, cpu);
      FoldingEvent(u, rest, last.sample, cpu, fp);
    }
  }

  /**
   The counts of a fingerprint are right exactly if no event comes before its first full record, or
   none between that and the next one that finds room in the cache.
   */
  lemma CountsIff(slots: seq<Slot>, fp: Word)
    requires GoodSlots(slots) && Benign(SamplesOf(slots))
    ensures WeightOf(UserAfter(slots).out, fp) + PendingFor(UserAfter(slots), fp) == Count(slots, fp)
       <==> Early(slots, fp) == 0 || Between(slots, fp) == 0
  {
    CountsExact(slots, fp);
    ZeroProduct(Early(slots, fp), Between(slots, fp));
  }

  lemma ZeroProduct(a: nat, b: nat)
    ensures a * b == 0 <==> a == 0 || b == 0
  {
  }

  // ------------------------------------------------------------------ runs

  /** What every step keeps, whatever the CPUs do: all samples are accounted for, and user space has read a prefix. */
  ghost predicate Inv(s: State) {
    && GoodSlots(s.sent) && s.nread <= |s.sent|
    && s.user == UserAfter(s.sent[..s.nread])
    && s.taken == multiset(SamplesOf(s.sent)) + multiset(Flown(s.flying))
  }

  lemma {:induction false} FlownConcat(a: seq<Flight>, b: seq<Flight>)
    ensures Flown(a + b) == Flown(a) + Flown(b)
  {
    if b == [] {
      assert a + b == a;
    } else {
      assert (a + b)[..|a + b| - 1] == a + b[..|b| - 1];
      FlownConcat(a, b[..|b| - 1]);
    }
  }

  lemma FlownAdded(flying: seq<Flight>, f: Flight)
    ensures Flown(flying + [f]) == Flown(flying) + [f.sample]
  {
    assert (flying + [f])[..|flying|] == flying;
  }

  lemma SplitAt<T>(s: seq<T>, i: nat)
    requires i < |s|
    ensures s[..i] + [s[i]] + s[i + 1..] == s
  {
  }

  lemma FlownRemoved(flying: seq<Flight>, i: nat)
    requires i < |flying|
    ensures multiset(Flown(flying)) == multiset(Flown(flying[..i] + flying[i + 1..])) + multiset{flying[i].sample}
  {
    var a, b := flying[..i], flying[i + 1..];
    SplitAt(flying, i);
    FlownConcat(a + [flying[i]], b);
    FlownAdded(a, flying[i]);
    FlownConcat(a, b);
  }

  lemma SentMore(s: State, slot: Slot)
    requires Inv(s) && GoodSlot(slot)
    ensures GoodSlots(s.sent + [slot]) && (s.sent + [slot])[..s.nread] == s.sent[..s.nread]
    ensures multiset(SamplesOf(s.sent + [slot])) == multiset(SamplesOf(s.sent)) + multiset{slot.sample}
  {
    UserMore(s.sent, slot);
  }

  lemma NextRead(slots: seq<Slot>, n: nat)
    requires n < |slots|
    ensures UserAfter(slots[..n + 1]) == OnRecord(UserAfter(slots[..n]), slots[n].rec)
  {
    UserMore(slots[..n], slots[n]);
    assert slots[..n + 1] == slots[..n] + [slots[n]];
  }

  lemma InvRead(s: State, s': State)
    requires Inv(s) && ReadOne(s, s')
    ensures Inv(s')
  {
    NextRead(s.sent, s.nread);
  }

  lemma InvHit(s: State, s': State, x: Sample, cpu: Word32)
    requires Inv(s) && Hit(s, s', x, cpu)
    ensures Inv(s')
  {
    SentMore(s, EventSlot(x, cpu));
  }

  lemma InvSend(s: State, s': State, i: nat)
    requires Inv(s) && Send(s, s', i)
    ensures Inv(s')
  {
    SentMore(s, FullSlot(s.flying[i].sample));
    FlownRemoved(s.flying, i);
  }

  lemma InvRegister(s: State, s': State, x: Sample, cpu: Word32)
    requires Inv(s) && Register(s, s', x, cpu)
    ensures Inv(s')
  {
    FlownAdded(s.flying, Flight(cpu, x));
  }

  lemma InvStep(s: State, s': State)
    requires Inv(s) && Step(s, s')
    ensures Inv(s')
  {
    if ReadOne(s, s') {
      InvRead(s, s');
    } else if x, cpu :| Hit(s, s', x, cpu) {
      InvHit(s, s', x, cpu);
    } else if i :| Send(s, s', i) {
      InvSend(s, s', i);
    } else if x, cpu :| Register(s, s', x, cpu) {
      InvRegister(s, s', x, cpu);
    }
  }

  ghost predicate IsRun(run: seq<State>) {
    && run != [] && Init(run[0])
    && forall k :: 0 <= k < |run| - 1 ==> Step(run[k], run[k + 1])
  }

  lemma {:induction false} RunInv(run: seq<State>)
    requires IsRun(run)
    ensures Inv(run[|run| - 1])
  {
    var last := |run| - 1;
    if last > 0 {
      assert Step(run[last - 1], run[last]);
      RunInv(run[..last]);
      InvStep(run[last - 1], run[last]);
    }
  }

  /** The records user space has read. */
  function ReadSlots(s: State): seq<Slot>
    requires s.nread <= |s.sent|
  {
    s.sent[..s.nread]
  }

  /**
   In every run, whatever the CPUs sample, register, send and evict in whatever order: every sample
   taken is sent or about to be, and the traces emitted are the samples read, in order and with no
   count pending, exactly if every event read came after a full record of its stack.
   */
  lemma Lossless(run: seq<State>)
    requires IsRun(run)
    requires var s := run[|run| - 1]; s.nread <= |s.sent| ==> Benign(SamplesOf(ReadSlots(s)))
    ensures var s := run[|run| - 1];
            && s.nread <= |s.sent|
            && s.taken == multiset(SamplesOf(s.sent)) + multiset(Flown(s.flying))
            && (AllStandFor(s.user.out, ReadSlots(s)) && s.user.pending == map[] <==> Orderly(ReadSlots(s)))
            && |s.user.out| + Overtaking(ReadSlots(s)) == s.nread
  {
    RunInv(run);
    var slots := ReadSlots(run[|run| - 1]);
    ExactIffOrderly(slots);
    CacheIsAnnounced(slots);
  }

  /** So in every run, for what user space has read so far. */
  lemma RunCounts(run: seq<State>, fp: Word)
    requires IsRun(run)
    requires var s := run[|run| - 1]; s.nread <= |s.sent| ==> Benign(SamplesOf(ReadSlots(s)))
    ensures var s := run[|run| - 1];
            && s.nread <= |s.sent|
            && (WeightOf(s.user.out, fp) + PendingFor(s.user, fp) == Count(ReadSlots(s), fp)
                <==> Early(ReadSlots(s), fp) == 0 || Between(ReadSlots(s), fp) == 0)
  {
    RunInv(run);
    CountsIff(ReadSlots(run[|run| - 1]), fp);
  }

  // ------------------------------------------------------------------ when events do not overtake

  /** No sample is turned into an event while another CPU has yet to send the same stack. */
  ghost predicate Prompt(s: State, s': State) {
    forall x, cpu :: Hit(s, s', x, cpu) ==> SampleFp(x) !in Fps(Flown(s.flying))
  }

  ghost predicate InvPrompt(s: State) {
    Orderly(s.sent) && s.dict <= Announced(s.sent) + Fps(Flown(s.flying))
  }

  lemma {:induction false} FpsRemoved(flying: seq<Flight>, i: nat, fp: Word)
    requires i < |flying| && fp in Fps(Flown(flying)) && fp != SampleFp(flying[i].sample)
    ensures fp in Fps(Flown(flying[..i] + flying[i + 1..]))
  {
    FlownRemoved(flying, i);
    var xs, ys := Flown(flying), Flown(flying[..i] + flying[i + 1..]);
    var k :| 0 <= k < |xs| && SampleFp(xs[k]) == fp;
    assert xs[k] in multiset(xs);
    assert xs[k] in multiset(ys);
    var j :| 0 <= j < |ys| && ys[j] == xs[k];
  }

  lemma PromptHit(s: State, s': State, x: Sample, cpu: Word32)
    requires InvPrompt(s) && Hit(s, s', x, cpu) && SampleFp(x) !in Fps(Flown(s.flying))
    ensures InvPrompt(s')
  {
    AnnouncedMore(s.sent, EventSlot(x, cpu));
  }

  lemma PromptSend(s: State, s': State, i: nat)
    requires InvPrompt(s) && Send(s, s', i)
    ensures InvPrompt(s')
  {
    AnnouncedMore(s.sent, FullSlot(s.flying[i].sample));
    forall fp | fp in s'.dict ensures fp in Announced(s'.sent) + Fps(Flown(s'.flying)) {
      if fp !in Announced(s'.sent) {
        FpsRemoved(s.flying, i, fp);
      }
    }
  }

  lemma PromptRegister(s: State, s': State, x: Sample, cpu: Word32)
    requires InvPrompt(s) && Register(s, s', x, cpu)
    ensures InvPrompt(s')
  {
    FlownAdded(s.flying, Flight(cpu, x));
    FpsOfPart(Flown(s.flying), Flown(s'.flying));
    assert Flown(s'.flying)[|Flown(s.flying)|] == x;
    assert SampleFp(x) in Fps(Flown(s'.flying));
  }

  lemma PromptStep(s: State, s': State)
    requires InvPrompt(s) && Step(s, s') && Prompt(s, s')
    ensures InvPrompt(s')
  {
    if x, cpu :| Hit(s, s', x, cpu) {
      PromptHit(s, s', x, cpu);
    } else if i :| Send(s, s', i) {
      PromptSend(s, s', i);
    } else if x, cpu :| Register(s, s', x, cpu) {
      PromptRegister(s, s', x, cpu);
    }
  }

  lemma {:induction false} RunPrompt(run: seq<State>)
    requires IsRun(run) && forall k :: 0 <= k < |run| - 1 ==> Prompt(run[k], run[k + 1])
    ensures InvPrompt(run[|run| - 1])
  {
    var last := |run| - 1;
    if last > 0 {
      assert Step(run[last - 1], run[last]) && Prompt(run[last - 1], run[last]);
      RunPrompt(run[..last]);
      PromptStep(run[last - 1], run[last]);
    }
  }

  lemma {:induction false} OrderlyPart(slots: seq<Slot>, n: nat)
    requires Orderly(slots) && n <= |slots|
    ensures Orderly(slots[..n])
  {
    if n < |slots| {
      OrderlyPart(slots[..|slots| - 1], n);
      assert slots[..|slots| - 1][..n] == slots[..n];
    } else {
      assert slots[..n] == slots;
    }
  }

  /** If no CPU is ever overtaken between registering a stack and sending it, nothing is lost. */
  lemma PromptIsLossless(run: seq<State>)
    requires IsRun(run) && forall k :: 0 <= k < |run| - 1 ==> Prompt(run[k], run[k + 1])
    requires var s := run[|run| - 1]; s.nread <= |s.sent| ==> Benign(SamplesOf(ReadSlots(s)))
    ensures var s := run[|run| - 1];
            s.nread <= |s.sent| && AllStandFor(s.user.out, ReadSlots(s)) && s.user.pending == map[]
  {
    Lossless(run);
    RunPrompt(run);
    var s := run[|run| - 1];
    OrderlyPart(s.sent, s.nread);
  }

  // ------------------------------------------------------------------ an event that overtakes

  lemma RunMore(run: seq<State>, s: State)
    requires IsRun(run) && Step(run[|run| - 1], s)
    ensures IsRun(run + [s])
  {
    forall k | 0 <= k < |run| ensures Step((run + [s])[k], (run + [s])[k + 1]) {
      if k < |run| - 1 {
        assert Step(run[k], run[k + 1]);
      }
    }
  }

  lemma RunHit(run: seq<State>, x: Sample, cpu: Word32) returns (more: seq<State>)
    requires IsRun(run) && Free(run[|run| - 1], cpu) && SampleFp(x) in run[|run| - 1].dict
    ensures IsRun(more)
    ensures var s := run[|run| - 1];
            more[|more| - 1] == s.(sent := s.sent + [EventSlot(x, cpu)], taken := s.taken + multiset{x})
  {
    var s := run[|run| - 1];
    var s' := s.(sent := s.sent + [EventSlot(x, cpu)], taken := s.taken + multiset{x});
    assert Hit(s, s', x, cpu);
    RunMore(run, s');
    more := run + [s'];
  }

  lemma RunRead(run: seq<State>) returns (more: seq<State>)
    requires IsRun(run) && run[|run| - 1].nread < |run[|run| - 1].sent|
    ensures IsRun(more)
    ensures var s := run[|run| - 1];
            more[|more| - 1] == s.(nread := s.nread + 1, user := OnRecord(s.user, s.sent[s.nread].rec))
  {
    var s := run[|run| - 1];
    var s' := s.(nread := s.nread + 1, user := OnRecord(s.user, s.sent[s.nread].rec));
    assert ReadOne(s, s');
    RunMore(run, s');
    more := run + [s'];
  }

  /** One CPU registers a stack; before it sends it, another CPU takes a sample of the same stack. */
  lemma RunOvertaken(x: Sample, y: Sample) returns (run: seq<State>)
    requires x.user == y.user
    ensures IsRun(run)
    ensures run[|run| - 1] == State({SampleFp(x)}, [], [EventSlot(y, 1), FullSlot(x)], 0, USER_START, multiset{x, y})
  {
    var s0 := State({}, [], [], 0, USER_START, multiset{});
    var s1 := State({SampleFp(x)}, [Flight(0, x)], [], 0, USER_START, multiset{x});
    assert Register(s0, s1, x, 0);
    RunMore([s0], s1);
    run := RunHit([s0] + [s1], y, 1);
    var s2 := run[|run| - 1];
    var s3 := State({SampleFp(x)}, [], [EventSlot(y, 1), FullSlot(x)], 0, USER_START, multiset{x, y});
    assert s2.flying[..0] + s2.flying[1..] == [];
    assert Send(s2, s3, 0);
    RunMore(run, s3);
    run := run + [s3];
  }

  /** Event, full record, event: three samples, counted as four. */
  lemma OvertakenCount(x: Sample, y: Sample, z: Sample)
    requires x.user == y.user == z.user
    ensures var slots, fp := [EventSlot(y, 1)] + [FullSlot(x)] + [EventSlot(z, 1)], SampleFp(x);
            && GoodSlots(slots) && Benign(SamplesOf(slots)) && !Orderly(slots)
            && Count(slots, fp) == 3 && Early(slots, fp) == 1 && Between(slots, fp) == 1 && fp in Announced(slots)
  {
    var fp, r0: seq<Slot> := SampleFp(x), [];
    var r1 := [EventSlot(y, 1)];
    var r2 := r1 + [FullSlot(x)];
    assert r0 + r1 == r1;
    AnnouncedMore(r0, EventSlot(y, 1));
    AnnouncedMore(r1, FullSlot(x));
    AnnouncedMore(r2, EventSlot(z, 1));
    CountsMore(r0, EventSlot(y, 1), fp);
    CountsMore(r1, FullSlot(x), fp);
    CountsMore(r2, EventSlot(z, 1), fp);
    OneStack(x, y, z);
  }

  lemma OneStack(x: Sample, y: Sample, z: Sample)
    requires x.user == y.user == z.user
    ensures Benign(SamplesOf([EventSlot(y, 1)] + [FullSlot(x)] + [EventSlot(z, 1)]))
  {
    ThreeSamples(EventSlot(y, 1), FullSlot(x), EventSlot(z, 1));
    OneFingerprint([y] + [x] + [z], SampleFp(x));
  }

  lemma ThreeSamples(a: Slot, b: Slot, c: Slot)
    ensures SamplesOf([a] + [b] + [c]) == [a.sample] + [b.sample] + [c.sample]
  {
    assert [] + [a] == [a] && SamplesOf([]) == [];
    UserMore([], a);
    UserMore([a], b);
    UserMore([a] + [b], c);
  }

  lemma OneFingerprint(xs: seq<Sample>, fp: Word)
    requires xs != [] && forall i :: 0 <= i < |xs| ==> xs[i].user == xs[0].user
    requires SampleFp(xs[0]) == fp
    ensures Benign(xs)
  {
    assert Fps(xs) <= {fp};
    SubsetSize(Fps(xs), {fp});
  }

  lemma RunThree(x: Sample, y: Sample, z: Sample) returns (run: seq<State>)
    requires x.user == y.user == z.user
    ensures IsRun(run)
    ensures var s := run[|run| - 1];
            && s.nread == |s.sent| == 3 && s.flying == [] && s.taken == multiset{x, y, z}
            && ReadSlots(s) == [EventSlot(y, 1)] + [FullSlot(x)] + [EventSlot(z, 1)]
  {
    run := RunOvertaken(x, y);
    run := RunHit(run, z, 1);
    assert [EventSlot(y, 1), FullSlot(x)] == [EventSlot(y, 1)] + [FullSlot(x)];
    run := ReadThree(run);
  }

  lemma ReadThree(run: seq<State>) returns (more: seq<State>)
    requires IsRun(run) && run[|run| - 1].nread == 0 && |run[|run| - 1].sent| == 3
    ensures IsRun(more)
    ensures var s, t := run[|run| - 1], more[|more| - 1];
            t.nread == 3 && t.sent == s.sent && t.flying == s.flying && t.taken == s.taken && ReadSlots(t) == s.sent
  {
    more := RunRead(run);
    more := RunRead(more);
    more := RunRead(more);
  }

  /**
   An event that overtakes the full record of its stack is folded into that record, and the folded
   count stays in the cache: there is a run in which three samples of one stack are counted as four.
   */
  lemma OvertakenEvent(x: Sample, y: Sample, z: Sample) returns (run: seq<State>)
    requires x.user == y.user == z.user
    ensures IsRun(run)
    ensures var s := run[|run| - 1];
            && s.nread == |s.sent| == 3 && s.flying == [] && s.taken == multiset{x, y, z}
            && !Orderly(ReadSlots(s)) && WeightOf(s.user.out, SampleFp(x)) == 4
  {
    run := RunThree(x, y, z);
    RunInv(run);
    OvertakenCount(x, y, z);
    CountsExact([EventSlot(y, 1)] + [FullSlot(x)] + [EventSlot(z, 1)], SampleFp(x));
  }
}
