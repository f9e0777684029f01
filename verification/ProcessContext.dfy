/**
 The process-context reader (processcontext/processcontext.go): a seqlock read of another process's
 memory, which changes while it is read.
 */
module ProcessContext {
  import opened Bytes
  import opened Wrappers

  /** The byte at an address at a moment. */
  type History = (nat, nat) -> Byte

  const HEADER_SIZE := 32
  const VERSION_AT := 8
  const SIZE_AT := 12
  const TIMESTAMP_AT := 16
  const POINTER_AT := 24
  const SUPPORTED_VERSION := 2
  const MAX_PAYLOAD := 65536
  const DEFAULT_ATTEMPTS := 3

  /** "OTEL_CTX" */
  const SIGNATURE: seq<Byte> := [79, 84, 69, 76, 95, 67, 84, 88]

  datatype Error = InvalidContext | ConcurrentUpdate | NoUpdate

  /** What was read; the context is absent only in the empty result. */
  datatype Info<+C> = Info(context: Option<C>, publishedAt: nat)

  datatype Result<+T> = Ok(value: T) | Err(error: Error)

  // ------------------------------------------------------------------ copies of memory

  /** A copy of `n` bytes, byte k being taken at the moment `at(k)`. */
  function Copy(h: History, addr: nat, n: nat, at: nat -> nat): (b: seq<Byte>)
    ensures |b| == n && forall k :: 0 <= k < n ==> b[k] == h(at(k), addr + k)
  {
    seq(n, k requires 0 <= k < n => h(at(k), addr + k))
  }

  /** The memory as it was at one moment. */
  function Snapshot(h: History, addr: nat, n: nat, t: nat): (b: seq<Byte>)
    ensures |b| == n && forall k :: 0 <= k < n ==> b[k] == h(t, addr + k)
  {
    seq(n, k requires 0 <= k < n => h(t, addr + k))
  }

  function Timestamp(h: History, base: nat, t: nat): nat {
    LeValue(Snapshot(h, base + TIMESTAMP_AT, 8, t))
  }

  function PayloadSize(hdr: seq<Byte>): nat
    requires |hdr| == HEADER_SIZE
  {
    LeValue(hdr[SIZE_AT..SIZE_AT + 4])
  }

  function PayloadPointer(hdr: seq<Byte>): nat
    requires |hdr| == HEADER_SIZE
  {
    LeValue(hdr[POINTER_AT..POINTER_AT + 8])
  }

  function PublishedAt(hdr: seq<Byte>): nat
    requires |hdr| == HEADER_SIZE
  {
    LeValue(hdr[TIMESTAMP_AT..TIMESTAMP_AT + 8])
  }

  /** The checks of `readHeader`. */
  predicate ValidHeader(hdr: seq<Byte>)
    requires |hdr| == HEADER_SIZE
  {
    && hdr[..8] == SIGNATURE
    && LeValue(hdr[VERSION_AT..VERSION_AT + 4]) == SUPPORTED_VERSION
    && 0 < PayloadSize(hdr) <= MAX_PAYLOAD
  }

  /** The layout of a header: signature, version, payload size, time of publication, payload address. */
  function HeaderBytes(signature: seq<Byte>, version: Word32, size: Word32, publishedAt: nat, address: nat): (b: seq<Byte>)
    requires |signature| == 8
    ensures |b| == HEADER_SIZE
  {
    signature + LeBytes(version, 4) + LeBytes(size, 4) + LeBytes(publishedAt, 8) + LeBytes(address, 8)
  }

  lemma HeaderSlices(s: seq<Byte>, v: seq<Byte>, n: seq<Byte>, t: seq<Byte>, a: seq<Byte>)
    requires |s| == |t| == |a| == 8 && |v| == |n| == 4
    ensures var b := s + v + n + t + a;
            |b| == 32 && b[..8] == s && b[8..12] == v && b[12..16] == n && b[16..24] == t && b[24..32] == a
  {
  }

  /** A header is read field by field, and is valid for "OTEL_CTX", version 2 and a payload of 1 to 65536 bytes. */
  lemma HeaderRoundTrip(signature: seq<Byte>, version: Word32, size: Word32, publishedAt: nat, address: nat)
    requires |signature| == 8 && publishedAt < 0x1_0000_0000_0000_0000 && address < 0x1_0000_0000_0000_0000
    ensures var b := HeaderBytes(signature, version, size, publishedAt, address);
            && PayloadSize(b) == size && PublishedAt(b) == publishedAt && PayloadPointer(b) == address
            && (ValidHeader(b) <==> signature == [79, 84, 69, 76, 95, 67, 84, 88] && version == 2 && 1 <= size <= 65536)
  {
    HeaderSlices(signature, LeBytes(version, 4), LeBytes(size, 4), LeBytes(publishedAt, 8), LeBytes(address, 8));
    Pow256Values();
    LeRoundTrip(version, 4);
    LeRoundTrip(size, 4);
    LeRoundTrip(publishedAt, 8);
    LeRoundTrip(address, 8);
  }

  // ------------------------------------------------------------------ one attempt

  /**
   When the four reads of an attempt touched memory; a read that failed has no moments. The eight
   aligned bytes of a timestamp are read at one moment, the other copies byte by byte.
   */
  datatype Schedule = Schedule(first: Option<nat>, header: Option<nat -> nat>, payload: Option<nat -> nat>, second: Option<nat>)

  function ReadPayload<C>(h: History, unmarshal: seq<Byte> -> Option<C>, hdr: seq<Byte>, at: Option<nat -> nat>): Option<C>
    requires |hdr| == HEADER_SIZE
  {
    if at.None? then None else unmarshal(Copy(h, PayloadPointer(hdr), PayloadSize(hdr), at.value))
  }

  /** `readOnce`. */
  function Once<C>(h: History, base: nat, last: nat, unmarshal: seq<Byte> -> Option<C>, s: Schedule): Result<Info<C>> {
    if s.first.None? then Err(InvalidContext)
    else
      var ts := Timestamp(h, base, s.first.value);
      if ts == 0 then Err(ConcurrentUpdate)
      else if ts <= last then Err(NoUpdate)
      else if s.header.None? then Err(InvalidContext)
      else
        var hdr := Copy(h, base, HEADER_SIZE, s.header.value);
        if !ValidHeader(hdr) then Err(InvalidContext)
        else
          var ctx := ReadPayload(h, unmarshal, hdr, s.payload);
          if s.second.None? then Err(InvalidContext)
          else if Timestamp(h, base, s.second.value) != ts then Err(ConcurrentUpdate)
          else if ctx.None? then Err(InvalidContext)
          else Ok(Info(ctx, PublishedAt(hdr)))
  }

  ghost predicate During(at: nat -> nat, a: nat, b: nat) {
    forall k :: a <= at(k) <= b
  }

  /** The reads happened in program order between the moments `a` and `b`. */
  ghost predicate Timely(s: Schedule, a: nat, b: nat) {
    a <= b
    && (s.first.Some? ==>
          && a <= s.first.value <= b
          && (s.second.Some? ==>
                && s.first.value <= s.second.value <= b
                && (s.header.Some? ==> During(s.header.value, s.first.value, s.second.value))
                && (s.payload.Some? ==> During(s.payload.value, s.first.value, s.second.value))))
  }

  // ------------------------------------------------------------------ the publisher

  /** The last timestamp that was not zero, up to a moment. */
  function Latest(h: History, base: nat, t: nat): nat {
    var ts := Timestamp(h, base, t);
    if ts != 0 then ts else if t == 0 then 0 else Latest(h, base, t - 1)
  }

  /** The header apart from its timestamp, and the payload it points to, are the same at `u` as at `t`. */
  ghost predicate SameContent(h: History, base: nat, t: nat, u: nat) {
    var hdr := Snapshot(h, base, HEADER_SIZE, t);
    && Snapshot(h, base, TIMESTAMP_AT, u) == hdr[..TIMESTAMP_AT]
    && Snapshot(h, base + POINTER_AT, 8, u) == hdr[POINTER_AT..]
    && Snapshot(h, PayloadPointer(hdr), PayloadSize(hdr), u) == Snapshot(h, PayloadPointer(hdr), PayloadSize(hdr), t)
  }

  /** While a timestamp stands, nothing changes but that it is zeroed; after zero comes a larger one. */
  ghost predicate PublisherStep(h: History, base: nat, t: nat) {
    var ts, next := Timestamp(h, base, t), Timestamp(h, base, t + 1);
    && (ts != 0 ==> (next == ts || next == 0) && SameContent(h, base, t, t + 1))
    && (ts == 0 ==> next == 0 || next > Latest(h, base, t))
  }

  ghost predicate Disciplined(h: History, base: nat) {
    forall t: nat :: PublisherStep(h, base, t)
  }

  /** What is published at a moment: a valid header with a timestamp, and the payload it points to. */
  ghost predicate Publishes<C(!new)>(h: History, base: nat, unmarshal: seq<Byte> -> Option<C>, t: nat, info: Info<C>) {
    var hdr := Snapshot(h, base, HEADER_SIZE, t);
    && info.publishedAt == Timestamp(h, base, t) != 0
    && ValidHeader(hdr)
    && info.context.Some?
    && unmarshal(Snapshot(h, PayloadPointer(hdr), PayloadSize(hdr), t)) == info.context
  }

  // ------------------------------------------------------------------ a timestamp seen twice

  lemma LatestGrows(h: History, base: nat, t: nat)
    requires PublisherStep(h, base, t)
    ensures Latest(h, base, t) <= Latest(h, base, t + 1)
  {
  }

  lemma SameContentTrans(h: History, base: nat, t: nat, u: nat, v: nat)
    requires SameContent(h, base, t, u) && SameContent(h, base, u, v)
    requires Timestamp(h, base, t) == Timestamp(h, base, u)
    ensures SameContent(h, base, t, v)
  {
    HeaderParts(h, base, t);
    HeaderParts(h, base, u);
  }

  lemma HeaderParts(h: History, base: nat, t: nat)
    ensures var hdr := Snapshot(h, base, HEADER_SIZE, t);
            && hdr[..TIMESTAMP_AT] == Snapshot(h, base, TIMESTAMP_AT, t)
            && hdr[TIMESTAMP_AT..POINTER_AT] == Snapshot(h, base + TIMESTAMP_AT, 8, t)
            && hdr[POINTER_AT..] == Snapshot(h, base + POINTER_AT, 8, t)
            && PayloadSize(hdr) == LeValue(Snapshot(h, base, TIMESTAMP_AT, t)[SIZE_AT..SIZE_AT + 4])
            && PayloadPointer(hdr) == LeValue(Snapshot(h, base + POINTER_AT, 8, t))
            && PublishedAt(hdr) == Timestamp(h, base, t)
  {
    var hdr := Snapshot(h, base, HEADER_SIZE, t);
    assert hdr[SIZE_AT..SIZE_AT + 4] == Snapshot(h, base, TIMESTAMP_AT, t)[SIZE_AT..SIZE_AT + 4];
    assert hdr[POINTER_AT..POINTER_AT + 8] == Snapshot(h, base + POINTER_AT, 8, t);
    assert hdr[TIMESTAMP_AT..TIMESTAMP_AT + 8] == Snapshot(h, base + TIMESTAMP_AT, 8, t);
  }

  /** A timestamp that is still there was there all along, and so was the content. */
  lemma {:induction false} Unchanged(h: History, base: nat, a: nat, b: nat)
    requires Disciplined(h, base) && a <= b && Timestamp(h, base, a) != 0
    ensures Timestamp(h, base, a) <= Latest(h, base, b)
    ensures Timestamp(h, base, b) == Timestamp(h, base, a) ==> SameContent(h, base, a, b)
    decreases b - a
  {
    if a == b {
      HeaderParts(h, base, a);
    } else {
      assert PublisherStep(h, base, b - 1);
      Unchanged(h, base, a, b - 1);
      LatestGrows(h, base, b - 1);
      if Timestamp(h, base, b) == Timestamp(h, base, a) {
        SameContentTrans(h, base, a, b - 1, b);
      }
    }
  }

  /** Between two sightings of one timestamp, it stands at every moment. */
  lemma {:induction false} Stands(h: History, base: nat, a: nat, t: nat, b: nat)
    requires Disciplined(h, base) && a <= t <= b && Timestamp(h, base, a) == Timestamp(h, base, b) != 0
    ensures Timestamp(h, base, t) == Timestamp(h, base, a)
    decreases b - t
  {
    if t < b {
      Stands(h, base, a, t + 1, b);
      assert PublisherStep(h, base, t);
      Unchanged(h, base, a, t);
    }
  }

  lemma HeaderSeen(h: History, base: nat, a: nat, b: nat, at: nat -> nat)
    requires Disciplined(h, base) && a <= b && Timestamp(h, base, a) == Timestamp(h, base, b) != 0
    requires During(at, a, b)
    ensures Copy(h, base, HEADER_SIZE, at) == Snapshot(h, base, HEADER_SIZE, a)
  {
    forall k | 0 <= k < HEADER_SIZE ensures h(at(k), base + k) == h(a, base + k) {
      HeaderStands(h, base, a, at(k), b, k);
    }
  }

  lemma HeaderStands(h: History, base: nat, a: nat, t: nat, b: nat, k: nat)
    requires Disciplined(h, base) && a <= t <= b && Timestamp(h, base, a) == Timestamp(h, base, b) != 0
    requires k < HEADER_SIZE
    ensures h(t, base + k) == h(a, base + k)
  {
    Stands(h, base, a, t, b);
    Unchanged(h, base, a, t);
    var hdr := Snapshot(h, base, HEADER_SIZE, a);
    if k < TIMESTAMP_AT {
      assert Snapshot(h, base, TIMESTAMP_AT, t)[k] == hdr[..TIMESTAMP_AT][k];
    } else if k < POINTER_AT {
      LeInjective(Snapshot(h, base + TIMESTAMP_AT, 8, t), Snapshot(h, base + TIMESTAMP_AT, 8, a));
      assert Snapshot(h, base + TIMESTAMP_AT, 8, t)[k - TIMESTAMP_AT] == Snapshot(h, base + TIMESTAMP_AT, 8, a)[k - TIMESTAMP_AT];
    } else {
      assert Snapshot(h, base + POINTER_AT, 8, t)[k - POINTER_AT] == hdr[POINTER_AT..][k - POINTER_AT];
    }
  }

  lemma PayloadSeen(h: History, base: nat, a: nat, b: nat, at: nat -> nat)
    requires Disciplined(h, base) && a <= b && Timestamp(h, base, a) == Timestamp(h, base, b) != 0
    requires During(at, a, b)
    ensures var hdr := Snapshot(h, base, HEADER_SIZE, a);
            Copy(h, PayloadPointer(hdr), PayloadSize(hdr), at) == Snapshot(h, PayloadPointer(hdr), PayloadSize(hdr), a)
  {
    var hdr := Snapshot(h, base, HEADER_SIZE, a);
    var addr, n := PayloadPointer(hdr), PayloadSize(hdr);
    forall k | 0 <= k < n ensures h(at(k), addr + k) == h(a, addr + k) {
      Stands(h, base, a, at(k), b);
      Unchanged(h, base, a, at(k));
      assert Snapshot(h, addr, n, at(k))[k] == Snapshot(h, addr, n, a)[k];
    }
  }

  // ------------------------------------------------------------------ what an attempt returns

  /**
   If the timestamp is the same at both ends, the attempt judges one publication, however its reads
   are spread over the time between: it succeeds exactly on a newer, valid, readable context.
   */
  lemma OnceExact<C(!new)>(h: History, base: nat, last: nat, unmarshal: seq<Byte> -> Option<C>, s: Schedule, a: nat, b: nat)
    requires Disciplined(h, base) && Timely(s, a, b)
    requires s.first.Some? && s.header.Some? && s.payload.Some? && s.second.Some?
    requires Timestamp(h, base, s.first.value) == Timestamp(h, base, s.second.value) != 0
    ensures var t := s.first.value; var ts := Timestamp(h, base, t); var r := Once(h, base, last, unmarshal, s);
            && (r == Err(NoUpdate) <==> ts <= last)
            && r != Err(ConcurrentUpdate)
            && (r.Ok? <==> ts > last && exists info :: Publishes(h, base, unmarshal, t, info))
            && (r.Ok? ==> Publishes(h, base, unmarshal, t, r.value))
  {
    var t := s.first.value;
    HeaderSeen(h, base, t, s.second.value, s.header.value);
    PayloadSeen(h, base, t, s.second.value, s.payload.value);
    HeaderParts(h, base, t);
    var r := Once(h, base, last, unmarshal, s);
    if r.Ok? {
      assert Publishes(h, base, unmarshal, t, r.value);
    }
  }

  /** An attempt that goes no further than the first timestamp: it failed, an update is under way, or nothing is new. */
  lemma FirstJudged<C(!new)>(h: History, base: nat, last: nat, unmarshal: seq<Byte> -> Option<C>, s: Schedule)
    ensures var r := Once(h, base, last, unmarshal, s);
            && (s.first.None? ==> r == Err(InvalidContext))
            && (s.first.Some? && Timestamp(h, base, s.first.value) == 0 ==> r == Err(ConcurrentUpdate))
            && (r == Err(NoUpdate) <==> s.first.Some? && 0 < Timestamp(h, base, s.first.value) <= last)
  {
  }

  /** A successful attempt returns one publication, newer than the last one known. */
  lemma OnceSound<C(!new)>(h: History, base: nat, last: nat, unmarshal: seq<Byte> -> Option<C>, s: Schedule, a: nat, b: nat)
    requires Disciplined(h, base) && Timely(s, a, b)
    ensures var r := Once(h, base, last, unmarshal, s);
            r.Ok? ==> Publishes(h, base, unmarshal, s.first.value, r.value) && r.value.publishedAt > last
  {
    var r := Once(h, base, last, unmarshal, s);
    if r.Ok? {
      OnceExact(h, base, last, unmarshal, s, a, b);
    }
  }

  /** A header copied while the timestamp stood at every byte is the published one. */
  lemma CopiedWhole(h: History, base: nat, t: nat, at: nat -> nat)
    requires Disciplined(h, base) && Timestamp(h, base, t) != 0
    requires forall k :: 0 <= k < HEADER_SIZE ==> at(k) >= t && Timestamp(h, base, at(k)) == Timestamp(h, base, t)
    ensures Copy(h, base, HEADER_SIZE, at) == Snapshot(h, base, HEADER_SIZE, t)
  {
    forall k | 0 <= k < HEADER_SIZE ensures h(at(k), base + k) == h(t, base + k) {
      HeaderStands(h, base, t, at(k), at(k), k);
    }
  }

  /** The header of an attempt was copied, and the copy passes the checks. */
  predicate HeaderPasses(h: History, base: nat, s: Schedule) {
    s.header.Some? && ValidHeader(Copy(h, base, HEADER_SIZE, s.header.value))
  }

  /**
   A newer and valid publication found by the first read is called invalid exactly if its header could
   not be copied or was copied wrong, the timestamp could not be read again, or the payload could not
   be read and nothing had changed by then. It is returned exactly if all was read and it was still
   there at the end, and a concurrent update is reported in what remains.
   */
  lemma NewerJudged<C(!new)>(h: History, base: nat, last: nat, unmarshal: seq<Byte> -> Option<C>, s: Schedule, a: nat, b: nat, info: Info<C>)
    requires Disciplined(h, base) && Timely(s, a, b) && s.first.Some?
    requires Publishes(h, base, unmarshal, s.first.value, info) && info.publishedAt > last
    ensures var r := Once(h, base, last, unmarshal, s);
            var stands := s.second.Some? && Timestamp(h, base, s.second.value) == info.publishedAt;
            && (r == Err(InvalidContext) <==>
                  !HeaderPasses(h, base, s) || s.second.None? || (stands && s.payload.None?))
            && (r == Ok(info) <==> stands && s.header.Some? && s.payload.Some?)
            && (r == Err(ConcurrentUpdate) <==> HeaderPasses(h, base, s) && s.second.Some? && !stands)
  {
    var t := s.first.value;
    if s.header.Some? && s.second.Some? && Timestamp(h, base, s.second.value) == info.publishedAt {
      HeaderSeen(h, base, t, s.second.value, s.header.value);
      HeaderParts(h, base, t);
      if s.payload.Some? {
        PayloadSeen(h, base, t, s.second.value, s.payload.value);
      }
    }
  }

  /** A valid header is copied wrong only if the publication was withdrawn before its last byte was copied. */
  lemma CopiedWrong<C(!new)>(h: History, base: nat, unmarshal: seq<Byte> -> Option<C>, s: Schedule, a: nat, b: nat, info: Info<C>)
    requires Disciplined(h, base) && Timely(s, a, b)
    requires s.first.Some? && s.header.Some? && s.second.Some?
    requires Publishes(h, base, unmarshal, s.first.value, info)
    requires !ValidHeader(Copy(h, base, HEADER_SIZE, s.header.value))
    ensures exists k :: 0 <= k < HEADER_SIZE && Timestamp(h, base, s.header.value(k)) != info.publishedAt
    ensures Timestamp(h, base, s.second.value) != info.publishedAt
  {
    if forall k :: 0 <= k < HEADER_SIZE ==> Timestamp(h, base, s.header.value(k)) == info.publishedAt {
      CopiedWhole(h, base, s.first.value, s.header.value);
    }
    if Timestamp(h, base, s.second.value) == info.publishedAt {
      HeaderSeen(h, base, s.first.value, s.second.value, s.header.value);
    }
  }

  /** When every read worked, an attempt reports an invalid context in two cases only. */
  lemma InvalidMeansInvalid<C(!new)>(h: History, base: nat, last: nat, unmarshal: seq<Byte> -> Option<C>, s: Schedule, a: nat, b: nat)
    requires Disciplined(h, base) && Timely(s, a, b)
    requires s.first.Some? && s.header.Some? && s.payload.Some? && s.second.Some?
    requires Once(h, base, last, unmarshal, s) == Err(InvalidContext)
    ensures (forall info :: !Publishes(h, base, unmarshal, s.first.value, info))
         || (Timestamp(h, base, s.second.value) != Timestamp(h, base, s.first.value)
             && !ValidHeader(Copy(h, base, HEADER_SIZE, s.header.value)))
  {
    if Timestamp(h, base, s.second.value) == Timestamp(h, base, s.first.value) {
      OnceExact(h, base, last, unmarshal, s, a, b);
    }
  }

  // ------------------------------------------------------------------ the reader

  /** Another process's memory. When each copy happens, and whether it fails, is not up to the reader. */
  class RemoteMemory {
    const history: History
    const span: nat -> nat
    const offset: (nat, nat) -> nat
    const fails: nat -> bool
    var calls: nat
    var now: nat

    constructor (history: History, span: nat -> nat, offset: (nat, nat) -> nat, fails: nat -> bool)
      ensures this.history == history && now == 0
    {
      this.history, this.span, this.offset, this.fails := history, span, offset, fails;
      calls, now := 0, 0;
    }

    method Read(addr: nat, n: nat) returns (r: Option<seq<Byte>>, ghost at: nat -> nat)
      modifies this
      ensures old(now) <= now && During(at, old(now), now)
      ensures r.Some? ==> r.value == Copy(history, addr, n, at)
    {
      var call, start, d := calls, now, span(calls);
      calls, now := calls + 1, now + d;
      var moments: nat -> nat := k => start + offset(call, k) % (d + 1);
      at := moments;
      r := if fails(call) then None else Some(Copy(history, addr, n, moments));
    }

    /** Eight aligned bytes, read in one access. */
    method ReadWord(addr: nat) returns (r: Option<nat>, ghost t: nat)
      modifies this
      ensures old(now) <= t <= now
      ensures r.Some? ==> r.value == LeValue(Snapshot(history, addr, 8, t))
    {
      var call, d := calls, span(calls);
      var moment := now + offset(call, 0) % (d + 1);
      calls, now := calls + 1, now + d;
      t := moment;
      r := if fails(call) then None else Some(LeValue(Snapshot(history, addr, 8, moment)));
    }
  }

  method ReadTimestamp(rm: RemoteMemory, base: nat) returns (r: Option<nat>, ghost t: nat)
    modifies rm
    ensures old(rm.now) <= t <= rm.now
    ensures r.Some? ==> r.value == Timestamp(rm.history, base, t)
  {
    r, t := rm.ReadWord(base + TIMESTAMP_AT);
  }

  method ReadOnce<C>(rm: RemoteMemory, base: nat, last: nat, unmarshal: seq<Byte> -> Option<C>)
    returns (r: Result<Info<C>>, ghost s: Schedule)
    modifies rm
    ensures old(rm.now) <= rm.now && Timely(s, old(rm.now), rm.now)
    ensures r == Once(rm.history, base, last, unmarshal, s)
  {
    s := Schedule(None, None, None, None);
    var ts, t := ReadTimestamp(rm, base);
    if ts.None? {
      return Err(InvalidContext), s;
    }
    s := s.(first := Some(t));
    if ts.value == 0 {
      return Err(ConcurrentUpdate), s;
    }
    if ts.value <= last {
      return Err(NoUpdate), s;
    }
    var hdr, at := rm.Read(base, HEADER_SIZE);
    if hdr.None? {
      return Err(InvalidContext), s;
    }
    s := s.(header := Some(at));
    if !ValidHeader(hdr.value) {
      return Err(InvalidContext), s;
    }
    var payload;
    payload, at := rm.Read(PayloadPointer(hdr.value), PayloadSize(hdr.value));
    var ctx := None;
    if payload.Some? {
      ctx := unmarshal(payload.value);
      s := s.(payload := Some(at));
    }
    // A payload that could not be read or understood is reported only if nothing changed meanwhile.
    var ts2;
    ts2, t := ReadTimestamp(rm, base);
    if ts2.None? {
      return Err(InvalidContext), s;
    }
    s := s.(second := Some(t));
    if ts.value != ts2.value {
      return Err(ConcurrentUpdate), s;
    }
    if ctx.None? {
      return Err(InvalidContext), s;
    }
    return Ok(Info(ctx, PublishedAt(hdr.value))), s;
  }

  function Attempts(maxAttempts: int): int {
    if maxAttempts == 0 then DEFAULT_ATTEMPTS else maxAttempts
  }

  /** Every attempt but the last ended in a concurrent update; the last one gave the result. */
  ghost predicate Tried<C(!new)>(h: History, base: nat, last: nat, unmarshal: seq<Byte> -> Option<C>,
                                 tries: seq<Schedule>, r: Result<Info<C>>) {
    && tries != []
    && (forall i :: 0 <= i < |tries| - 1 ==> Once(h, base, last, unmarshal, tries[i]) == Err(ConcurrentUpdate))
    && r == Once(h, base, last, unmarshal, tries[|tries| - 1])
  }

  /**
   Reads the context, retrying while updates interfere. A success is one single publication that
   stood at a moment during the call, except that a negative number of attempts makes none and
   returns the empty result.
   */
  method Read<C(!new)>(rm: RemoteMemory, base: nat, last: nat, maxAttempts: int, unmarshal: seq<Byte> -> Option<C>)
    returns (r: Result<Info<C>>, ghost tries: seq<Schedule>)
    modifies rm
    ensures maxAttempts < 0 ==> tries == [] && r == Ok(Info(None, 0))
    ensures maxAttempts >= 0 ==> |tries| <= (if maxAttempts == 0 then 3 else maxAttempts) && Tried(rm.history, base, last, unmarshal, tries, r)
    ensures forall i :: 0 <= i < |tries| ==> Timely(tries[i], old(rm.now), rm.now)
    ensures r == Err(ConcurrentUpdate) ==> |tries| == if maxAttempts == 0 then 3 else maxAttempts
    ensures Disciplined(rm.history, base) && maxAttempts >= 0 && r.Ok? ==>
              exists t :: old(rm.now) <= t <= rm.now && Publishes(rm.history, base, unmarshal, t, r.value) && r.value.publishedAt > last
  {
    var n := Attempts(maxAttempts);
    tries := [];
    r := Ok(Info(None, 0));
    var i := 0;
    while i < n
      invariant 0 <= i && (n >= 0 ==> i <= n) && (n < 0 ==> i == 0) && |tries| == i
      invariant i == 0 ==> r == Ok(Info(None, 0))
      invariant i > 0 ==> r == Err(ConcurrentUpdate)
      invariant forall j :: 0 <= j < i ==> Once(rm.history, base, last, unmarshal, tries[j]) == Err(ConcurrentUpdate)
      invariant old(rm.now) <= rm.now && forall j :: 0 <= j < i ==> Timely(tries[j], old(rm.now), rm.now)
    {
      ghost var start := rm.now;
      ghost var s;
      r, s := ReadOnce(rm, base, last, unmarshal);
      tries := tries + [s];
      assert Timely(s, old(rm.now), rm.now);
      if r.Ok? {
        SuccessIsPublished(rm.history, base, last, unmarshal, s, old(rm.now), rm.now);
        return;
      }
      if r.error != ConcurrentUpdate {
        return;
      }
      i := i + 1;
    }
  }

  lemma SuccessIsPublished<C(!new)>(h: History, base: nat, last: nat, unmarshal: seq<Byte> -> Option<C>, s: Schedule, a: nat, b: nat)
    requires Timely(s, a, b) && Once(h, base, last, unmarshal, s).Ok?
    ensures var info := Once(h, base, last, unmarshal, s).value;
            Disciplined(h, base) ==> exists t :: a <= t <= b && Publishes(h, base, unmarshal, t, info) && info.publishedAt > last
  {
    if Disciplined(h, base) {
      OnceSound(h, base, last, unmarshal, s, a, b);
    }
  }

  // ------------------------------------------------------------------ a header copied across an update

  /** An update that passes through a zero size: published, zeroed, changed twice, published again. */
  function Updating(t: nat, a: nat): Byte {
    if a < 8 then SIGNATURE[a]
    else if a == VERSION_AT then SUPPORTED_VERSION
    else if a == SIZE_AT then (if t == 2 then 0 else 1)
    else if a == TIMESTAMP_AT then (if t == 0 then 1 else if t < 4 then 0 else 2)
    else if a == POINTER_AT then 100
    else 0
  }

  lemma UpdatingTimestamp(t: nat)
    ensures Timestamp(Updating, 0, t) == if t == 0 then 1 else if t < 4 then 0 else 2
  {
    var b := Snapshot(Updating, TIMESTAMP_AT, 8, t);
    assert forall k :: 1 <= k < 8 ==> b[k] == 0;
    ZeroTail(b[1..]);
  }

  lemma {:induction false} ZeroTail(b: seq<Byte>)
    requires forall k :: 0 <= k < |b| ==> b[k] == 0
    ensures LeValue(b) == 0
  {
    if b != [] {
      ZeroTail(b[1..]);
    }
  }

  lemma UpdatingDisciplined()
    ensures Disciplined(Updating, 0)
  {
    forall t: nat ensures PublisherStep(Updating, 0, t) {
      UpdatingTimestamp(t);
      UpdatingTimestamp(t + 1);
      if t == 0 || t >= 4 {
        assert SameContent(Updating, 0, t, t + 1);
      } else {
        UpdatingTimestamp(0);
        UpdatingTimestamp(1);
        UpdatingTimestamp(2);
        UpdatingTimestamp(3);
      }
    }
  }

  /**
   The header is judged before the timestamp is read again, so an update can make a context that is
   valid whenever it is published look invalid, and `Read` then gives up without retrying.
   */
  lemma TornHeader(unmarshal: seq<Byte> -> Option<int>, s: Schedule)
    requires forall b :: unmarshal(b) == Some(0)
    requires s.first == Some(0) && s.second == Some(4)
    requires s.header.Some? && forall k :: s.header.value(k) == 2
    requires s.payload.Some? && forall k :: s.payload.value(k) == 3
    ensures Disciplined(Updating, 0) && Timely(s, 0, 4)
    ensures forall t: nat :: Timestamp(Updating, 0, t) != 0 ==> exists info :: Publishes(Updating, 0, unmarshal, t, info)
    ensures Once(Updating, 0, 0, unmarshal, s) == Err(InvalidContext)
  {
    UpdatingDisciplined();
    UpdatingTimestamp(0);
    var hdr := Copy(Updating, 0, HEADER_SIZE, s.header.value);
    assert PayloadSize(hdr) == 0 by {
      ZeroTail(hdr[SIZE_AT..SIZE_AT + 4]);
    }
    forall t: nat | Timestamp(Updating, 0, t) != 0 ensures exists info :: Publishes(Updating, 0, unmarshal, t, info) {
      UpdatingTimestamp(t);
      UpdatingValid(t);
      assert Publishes(Updating, 0, unmarshal, t, Info(Some(0), Timestamp(Updating, 0, t)));
    }
  }

  lemma UpdatingValid(t: nat)
    requires t != 2
    ensures ValidHeader(Snapshot(Updating, 0, HEADER_SIZE, t))
  {
    var hdr := Snapshot(Updating, 0, HEADER_SIZE, t);
    assert hdr[..8] == SIGNATURE;
    ZeroTail(hdr[VERSION_AT..VERSION_AT + 4][1..]);
    ZeroTail(hdr[SIZE_AT..SIZE_AT + 4][1..]);
  }
}
