/**
 What the event monitor (tracer/events.go) emits, for every sequence of records: full traces as they
 came, and for an event clones of the full record that was cached last under its fingerprint.
 */
module TraceOutput {
  import opened Words
  import opened Bytes
  import opened Fingerprint
  import opened Compression

  /** A record that ends the monitor: not empty, and neither a trace nor an event. */
  predicate Malformed(r: Record) {
    r.Short? && r.bytes != [] && !(|r.bytes| == 40 && Word64At(r.bytes, 0) == 0x5349434b49444556)
  }

  predicate Running(recs: seq<Record>) {
    forall i :: 0 <= i < |recs| ==> !Malformed(recs[i])
  }

  /** The fingerprints under which a stack has been cached: 65536 at most. */
  function Cached(recs: seq<Record>): set<Word> {
    if recs == [] then {}
    else
      var rest, last := recs[..|recs| - 1], recs[|recs| - 1];
      if last.Full? && |Cached(rest)| < 65536 then Cached(rest) + {Fold(STACK_FP_SEED, last.trace.user)} else Cached(rest)
  }

  /** Record `k` is a full one with the fingerprint, and there was room for it. */
  predicate Caches(recs: seq<Record>, fp: Word, k: int) {
    0 <= k < |recs| && recs[k].Full? && Fold(STACK_FP_SEED, recs[k].trace.user) == fp && |Cached(recs[..k])| < 65536
  }

  ghost predicate LatestCached(recs: seq<Record>, fp: Word, k: int) {
    Caches(recs, fp, k) && forall j :: k < j ==> !Caches(recs, fp, j)
  }

  /** The same frames at the same time in the same thread; the number folded in may differ. */
  predicate SameTrace(a: Trace, b: Trace) {
    a.kernel == b.kernel && a.user == b.user && a.ktime == b.ktime && a.pid == b.pid && a.tid == b.tid
  }

  /** The frames of `b`, at the time and in the thread of the event. */
  predicate CloneOf(a: Trace, b: Trace, ev: StackIdEvent) {
    a.kernel == b.kernel && a.user == b.user && a.ktime == ev.ktime && a.pid == ev.pid && a.tid == ev.tid
  }

  /** What a record adds to the output of those before it. */
  ghost predicate Adds(recs: seq<Record>, r: Record, more: seq<Trace>) {
    match r
    case Full(t) => |more| == 1 && SameTrace(more[0], t)
    case Foreign => more == []
    case Short(b) =>
      if |b| != 40 then more == []
      else
        var ev := Parsed(b);
        if forall k :: !Caches(recs, ev.fingerprint, k) then more == []
        else
          && |more| == ev.count
          && exists k :: LatestCached(recs, ev.fingerprint, k) && forall i :: 0 <= i < |more| ==> CloneOf(more[i], recs[k].trace, ev)
  }

  // ------------------------------------------------------------------ the cache

  ghost predicate HoldsLatest(recs: seq<Record>, fp: Word, t: Trace) {
    exists k :: LatestCached(recs, fp, k) && SameTrace(t, recs[k].trace)
  }

  /** The monitor runs, and the cache holds the latest record of each fingerprint. */
  ghost predicate Follows(u: User, recs: seq<Record>) {
    && !u.stopped && u.cache.Keys == Cached(recs)
    && forall fp :: fp in u.cache ==> HoldsLatest(recs, fp, u.cache[fp])
  }

  predicate CachedHere(recs: seq<Record>, r: Record, fp: Word) {
    r.Full? && Fold(STACK_FP_SEED, r.trace.user) == fp && |Cached(recs)| < 65536
  }

  lemma CachesMore(recs: seq<Record>, r: Record, fp: Word, k: int)
    ensures Caches(recs + [r], fp, k)
       <==> Caches(recs, fp, k) || (k == |recs| && CachedHere(recs, r, fp))
  {
    var more := recs + [r];
    if 0 <= k <= |recs| {
      assert more[..k] == recs[..k];
      assert recs[..|recs|] == recs;
    }
  }

  lemma CachedMore(recs: seq<Record>, r: Record)
    ensures Cached(recs + [r])
         == if r.Full? && |Cached(recs)| < 65536 then Cached(recs) + {Fold(STACK_FP_SEED, r.trace.user)} else Cached(recs)
  {
    assert (recs + [r])[..|recs|] == recs;
  }

  /** A fingerprint is cached exactly if some record cached it. */
  lemma {:induction false} CachedBySome(recs: seq<Record>, fp: Word)
    ensures fp in Cached(recs) <==> exists k :: Caches(recs, fp, k)
  {
    if recs != [] {
      var rest, last := recs[..|recs| - 1], recs[|recs| - 1];
      assert recs == rest + [last];
      CachedBySome(rest, fp);
      CachedMore(rest, last);
      if fp in Cached(rest) {
        var k :| Caches(rest, fp, k);
        CachesMore(rest, last, fp, k);
      } else if fp in Cached(recs) {
        CachesMore(rest, last, fp, |rest|);
      }
      if k :| Caches(recs, fp, k) {
        CachesMore(rest, last, fp, k);
      }
    }
  }

  /** Another record leaves the latest one, or is the latest one. */
  lemma LatestMore(recs: seq<Record>, r: Record, fp: Word, t: Trace)
    ensures CachedHere(recs, r, fp) && SameTrace(t, r.trace) ==> HoldsLatest(recs + [r], fp, t)
    ensures !CachedHere(recs, r, fp) && HoldsLatest(recs, fp, t) ==> HoldsLatest(recs + [r], fp, t)
  {
    var more, here := recs + [r], CachedHere(recs, r, fp);
    forall k ensures Caches(more, fp, k) <==> Caches(recs, fp, k) || (k == |recs| && here) {
      CachesMore(recs, r, fp, k);
    }
    if here {
      assert LatestCached(more, fp, |recs|) && more[|recs|] == r;
    } else if HoldsLatest(recs, fp, t) {
      var k :| LatestCached(recs, fp, k) && SameTrace(t, recs[k].trace);
      assert LatestCached(more, fp, k) && more[k] == recs[k];
    }
  }

  // ------------------------------------------------------------------ one record

  /** A full record is emitted as it came, and cached if there is room. */
  lemma FullEmits(u: User, t: Trace) returns (e: Trace)
    ensures OnFull(u, t).out == u.out + [e] && SameTrace(e, t) && OnFull(u, t).stopped == u.stopped
    ensures OnFull(u, t).cache == if |u.cache.Keys| < 65536 then u.cache[Fold(STACK_FP_SEED, t.user) := e] else u.cache
  {
    TraceFpUser(t);
    var n := PendingFor(u, TraceFp(t));
    e := if n > 0 then t.(value := t.value + n) else t;
  }

  lemma FullFollows(u: User, recs: seq<Record>, t: Trace) returns (e: Trace)
    requires Follows(u, recs)
    ensures Follows(OnFull(u, t), recs + [Full(t)])
    ensures OnFull(u, t).out == u.out + [e] && SameTrace(e, t)
  {
    e := FullEmits(u, t);
    CacheFollows(u.cache, recs, t, e, OnFull(u, t).cache);
  }

  lemma CacheFollows(cache: map<Word, Trace>, recs: seq<Record>, t: Trace, e: Trace, cache': map<Word, Trace>)
    requires forall fp :: fp in cache ==> HoldsLatest(recs, fp, cache[fp])
    requires cache.Keys == Cached(recs) && SameTrace(e, t)
    requires cache' == if |cache.Keys| < 65536 then cache[Fold(STACK_FP_SEED, t.user) := e] else cache
    ensures cache'.Keys == Cached(recs + [Full(t)])
    ensures forall fp :: fp in cache' ==> HoldsLatest(recs + [Full(t)], fp, cache'[fp])
  {
    CachedMore(recs, Full(t));
    forall fp | fp in cache' ensures HoldsLatest(recs + [Full(t)], fp, cache'[fp]) {
      LatestMore(recs, Full(t), fp, cache'[fp]);
    }
  }

  lemma OtherFollows(u: User, u': User, recs: seq<Record>, r: Record)
    requires Follows(u, recs) && u'.cache == u.cache && !u'.stopped && !r.Full?
    ensures Follows(u', recs + [r])
  {
    CachedMore(recs, r);
    forall fp | fp in u'.cache ensures HoldsLatest(recs + [r], fp, u'.cache[fp]) {
      LatestMore(recs, r, fp, u'.cache[fp]);
    }
  }

  lemma {:induction false} RepeatedAll(t: Trace, n: nat)
    ensures |Repeated(t, n)| == n && forall i :: 0 <= i < n ==> Repeated(t, n)[i] == t
  {
    if n > 0 {
      RepeatedAll(t, n - 1);
    }
  }

  lemma EventAdds(u: User, recs: seq<Record>, b: seq<Byte>) returns (more: seq<Trace>)
    requires Follows(u, recs) && |b| == 40
    ensures OnEvent(u, Parsed(b)).out == u.out + more && Adds(recs, Short(b), more)
  {
    var ev := Parsed(b);
    var fp := ev.fingerprint;
    CachedBySome(recs, fp);
    if fp in u.cache {
      var t := u.cache[fp];
      var clone := t.(ktime := ev.ktime, pid := ev.pid, tid := ev.tid);
      more := Repeated(clone, ev.count);
      RepeatedAll(clone, ev.count);
      assert HoldsLatest(recs, fp, t);
      var k :| LatestCached(recs, fp, k) && SameTrace(t, recs[k].trace);
      assert forall i :: 0 <= i < |more| ==> CloneOf(more[i], recs[k].trace, ev);
    } else {
      more := [];
      assert u.out + [] == u.out;
    }
  }

  lemma OneRecord(u: User, recs: seq<Record>, r: Record) returns (more: seq<Trace>)
    requires Follows(u, recs) && !Malformed(r)
    ensures Follows(OnRecord(u, r), recs + [r])
    ensures OnRecord(u, r).out == u.out + more && Adds(recs, r, more)
  {
    match r {
      case Full(t) =>
        var e := FullFollows(u, recs, t);
        more := [e];
      case Foreign =>
        more := [];
        OtherFollows(u, u, recs, r);
        assert u.out + [] == u.out;
      case Short(b) =>
        if b == [] {
          more := [];
          OtherFollows(u, u, recs, r);
          assert u.out + [] == u.out;
        } else {
          more := EventAdds(u, recs, b);
          OtherFollows(u, OnEvent(u, Parsed(b)), recs, r);
        }
    }
  }

  // ------------------------------------------------------------------ all records

  lemma {:induction false} ReplayFollows(recs: seq<Record>)
    requires Running(recs)
    ensures Follows(Replay(recs), recs)
  {
    if recs != [] {
      var rest, last := recs[..|recs| - 1], recs[|recs| - 1];
      assert recs == rest + [last];
      ReplayFollows(rest);
      var more := OneRecord(Replay(rest), rest, last);
    }
  }

  lemma ReplayMore(recs: seq<Record>, r: Record)
    ensures Replay(recs + [r]) == OnRecord(Replay(recs), r)
  {
    assert (recs + [r])[..|recs|] == recs;
  }

  /**
   For every sequence of records and every further record: what is emitted before stays, and what is
   added is the full trace with its frames, time and thread, or as many clones as the event counts of
   the full record cached last under its fingerprint. From a malformed record on nothing is added.
   */
  lemma Emitted(recs: seq<Record>, r: Record) returns (more: seq<Trace>)
    ensures Replay(recs + [r]).out == Replay(recs).out + more
    ensures if Running(recs + [r]) then Adds(recs, r, more) else more == []
  {
    ReplayMore(recs, r);
    assert (recs + [r])[|recs|] == r && forall i :: 0 <= i < |recs| ==> (recs + [r])[i] == recs[i];
    if Running(recs) {
      ReplayFollows(recs);
      if Malformed(r) {
        more := [];
        assert Replay(recs).out + [] == Replay(recs).out;
      } else {
        more := OneRecord(Replay(recs), recs, r);
      }
    } else {
      Halted(recs);
      more := [];
      assert Replay(recs).out + [] == Replay(recs).out;
    }
  }

  lemma {:induction false} Halted(recs: seq<Record>)
    requires !Running(recs)
    ensures Replay(recs).stopped
  {
    var rest, last := recs[..|recs| - 1], recs[|recs| - 1];
    if Running(rest) {
      ReplayFollows(rest);
      assert Malformed(last);
    } else {
      Halted(rest);
    }
  }
}
