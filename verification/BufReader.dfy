/**
 The buffered reader over a random-access source (libpf/pfbufio/reader.go), proved to behave like
 reading from the plain byte sequence of its window.
 */
module BufReader {
  import opened Words
  import opened Bytes

  const BUFFER_SIZE: nat := 65536

  datatype Error = NoError | EndOfFile | BufferTooSmall

  // ------------------------------------------------------------------ occurrences

  predicate OccursAt(s: seq<Byte>, pat: seq<Byte>, i: int) {
    0 <= i && i + |pat| <= |s| && s[i..i + |pat|] == pat
  }

  ghost predicate FirstAt(s: seq<Byte>, pat: seq<Byte>, i: int) {
    OccursAt(s, pat, i) && forall j :: 0 <= j < i ==> !OccursAt(s, pat, j)
  }

  ghost predicate Nowhere(s: seq<Byte>, pat: seq<Byte>) {
    forall j :: 0 <= j ==> !OccursAt(s, pat, j)
  }

  /** The first occurrence of the pattern, or -1. */
  method Index(s: seq<Byte>, pat: seq<Byte>) returns (i: int)
    ensures i >= 0 ==> FirstAt(s, pat, i)
    ensures i < 0 ==> i == -1 && Nowhere(s, pat)
  {
    i := 0;
    while i + |pat| <= |s|
      invariant 0 <= i
      invariant forall j :: 0 <= j < i ==> !OccursAt(s, pat, j)
      decreases |s| - i
    {
      if s[i..i + |pat|] == pat {
        return;
      }
      i := i + 1;
    }
    i := -1;
  }

  method IndexByte(s: seq<Byte>, delim: Byte) returns (i: int)
    ensures i >= 0 ==> i < |s| && s[i] == delim && delim !in s[..i]
    ensures i < 0 ==> delim !in s
  {
    i := 0;
    while i < |s|
      invariant 0 <= i <= |s| && delim !in s[..i]
    {
      if s[i] == delim {
        return;
      }
      i := i + 1;
    }
    i := -1;
  }

  // ------------------------------------------------------------------ the reader's state as a value

  /** Source, window, next source offset, and the bytes buffered but not consumed. */
  datatype View = View(content: seq<Byte>, start: nat, limit: nat, off: nat, bytes: seq<Byte>)

  /** The offset after the last byte the reader can deliver. */
  function WindowEnd(v: View): nat {
    Min(v.limit, Max(v.start, |v.content|))
  }

  function Slice(content: seq<Byte>, from: int, to: int): seq<Byte> {
    if 0 <= from <= to <= |content| then content[from..to] else []
  }

  /** The buffered bytes are the content just before `off`. */
  predicate ValidView(v: View) {
    && v.start + |v.bytes| <= v.off <= WindowEnd(v)
    && (v.off <= |v.content| || v.bytes == [])
    && v.bytes == Slice(v.content, v.off - |v.bytes|, v.off)
  }

  function TellOf(v: View): int {
    v.off - v.start - |v.bytes|
  }

  /** How many bytes are still to be delivered. */
  function Left(v: View): int {
    WindowEnd(v) - v.off + |v.bytes|
  }

  /** What a reader of the plain sequence would have left. */
  function RestOf(v: View): seq<Byte> {
    Slice(v.content, v.off - |v.bytes|, WindowEnd(v))
  }

  lemma RestSplits(v: View)
    requires ValidView(v)
    ensures |RestOf(v)| == Left(v) && v.bytes <= RestOf(v)
  {
  }

  /** The stream moved on by n bytes; the window is the same. */
  predicate Advanced(v: View, w: View, n: int) {
    && 0 <= n <= Left(v) && TellOf(w) == TellOf(v) + n
    && w.content == v.content && w.start == v.start && w.limit == v.limit
  }

  /** That is: the first n bytes of the rest are gone. */
  lemma AdvancedRest(v: View, w: View, n: int)
    requires ValidView(v) && ValidView(w) && Advanced(v, w, n)
    ensures |RestOf(v)| == Left(v) && RestOf(w) == RestOf(v)[n..]
  {
  }

  /** The next n bytes of the stream. */
  function Head(v: View, n: int): seq<Byte> {
    if 0 <= n <= |RestOf(v)| then RestOf(v)[..n] else []
  }

  lemma AdvancedHead(v: View, w: View, n: int, m: int)
    requires ValidView(v) && ValidView(w) && Advanced(v, w, n) && 0 <= m <= Left(w)
    ensures Head(v, n) + Head(w, m) == Head(v, n + m)
    ensures |Head(v, n)| == n && |Head(w, m)| == m
  {
    AdvancedPart(v, w, n, m);
  }

  lemma AdvancedPart(v: View, w: View, n: int, m: int)
    requires ValidView(v) && ValidView(w) && Advanced(v, w, n) && 0 <= m <= Left(w)
    ensures |RestOf(v)| == Left(v) && |RestOf(w)| == Left(w) && n + m <= Left(v)
    ensures RestOf(v)[..n] + RestOf(w)[..m] == RestOf(v)[..n + m]
  {
    AdvancedRest(v, w, n);
  }

  predicate Covered(v: View) {
    v.limit <= |v.content|
  }

  /** A short read is reported only if it is empty or the source itself ended. */
  function ReadError(len: nat, n: nat, covered: bool): Error {
    if n < len && !(covered && n > 0) then EndOfFile else NoError
  }

  /** Buffering n more bytes of the source. */
  lemma Buffer(v: View, n: nat, v': View)
    requires ValidView(v) && v.off + n <= WindowEnd(v)
    requires v' == v.(off := v.off + n, bytes := v.bytes + Slice(v.content, v.off, v.off + n))
    ensures ValidView(v') && Advanced(v, v', 0) && |v'.bytes| == |v.bytes| + n
  {
    if n > 0 {
      assert v.content[v.off - |v.bytes|..v.off + n] == v.bytes + v.content[v.off..v.off + n];
    }
  }

  /** Consuming n buffered bytes. */
  lemma Consume(v: View, n: nat, v': View)
    requires ValidView(v) && n <= |v.bytes| && v' == v.(bytes := v.bytes[n..])
    ensures ValidView(v') && Advanced(v, v', n)
    ensures |RestOf(v)| == Left(v) && RestOf(v)[..n] == v.bytes[..n]
  {
    RestSplits(v);
  }

  /** What is buffered comes next in the stream. */
  lemma Buffered(v: View, w: View, n: nat)
    requires ValidView(v) && ValidView(w) && Advanced(v, w, 0) && n <= |w.bytes|
    ensures n <= Left(v) && w.bytes[..n] == Head(v, n)
  {
    RestSplits(v);
    RestSplits(w);
    AdvancedRest(v, w, 0);
  }

  /** Reading n bytes past an empty buffer. */
  lemma Skip(v: View, n: nat, v': View)
    requires ValidView(v) && v.bytes == [] && v.off + n <= WindowEnd(v) && v' == v.(off := v.off + n)
    ensures ValidView(v') && Advanced(v, v', n)
    ensures |RestOf(v)| == Left(v) && RestOf(v)[..n] == Slice(v.content, v.off, v.off + n)
  {
  }

  /** The outcome of a refill. */
  predicate Refilled(v: View, w: View, err: Error) {
    && Advanced(v, w, 0)
    && (err == NoError || err == EndOfFile)
    && (err == NoError <==> |v.bytes| < BUFFER_SIZE && v.off < WindowEnd(v))
    && (err == NoError ==> w.off > v.off && |w.bytes| == Min(BUFFER_SIZE, Left(v)))
    && (err != NoError ==> w.off == v.off && |w.bytes| == |v.bytes|)
  }

  /** How much one refill adds. */
  lemma FillAmount(v: View, toRead: nat, n: nat)
    requires ValidView(v) && |v.bytes| <= BUFFER_SIZE && v.off < v.limit
    requires toRead == Min(BUFFER_SIZE - |v.bytes|, v.limit - v.off)
    requires n == Max(0, Min(toRead, |v.content| - v.off))
    ensures v.off + n <= WindowEnd(v)
    ensures n > 0 <==> |v.bytes| < BUFFER_SIZE && v.off < WindowEnd(v)
    ensures n > 0 ==> |v.bytes| + n == Min(BUFFER_SIZE, Left(v))
  {
  }

  lemma FillOver(v: View)
    requires ValidView(v) && v.off >= v.limit
    ensures Refilled(v, v, EndOfFile)
  {
  }

  lemma FillDone(v: View, toRead: nat, n: nat, w: View)
    requires ValidView(v) && |v.bytes| <= BUFFER_SIZE && v.off < v.limit
    requires toRead == Min(BUFFER_SIZE - |v.bytes|, v.limit - v.off)
    requires n == Max(0, Min(toRead, |v.content| - v.off))
    requires w == v.(off := v.off + n, bytes := v.bytes + Slice(v.content, v.off, v.off + n))
    ensures ValidView(w) && Refilled(v, w, if n > 0 then NoError else EndOfFile)
  {
    FillAmount(v, toRead, n);
    Buffer(v, n, w);
  }

  /** Some buffered bytes dropped, then a refill. */
  predicate Dropped(v: View, w: View, drop: nat, err: Error) {
    && Advanced(v, w, drop)
    && (err == NoError ==> w.off > v.off)
    && (err != NoError ==>
          err == EndOfFile && |w.bytes| == |v.bytes| - drop && (w.off == WindowEnd(w) || |w.bytes| >= BUFFER_SIZE))
  }

  lemma DroppedFilled(v: View, x: View, w: View, drop: nat, err: Error)
    requires ValidView(v) && ValidView(x) && ValidView(w) && drop <= |v.bytes|
    requires x == v.(bytes := v.bytes[drop..]) && Refilled(x, w, err)
    ensures Dropped(v, w, drop, err)
  {
  }

  /** The bytes are the next ones of the stream, which has moved on by as many. */
  predicate Delivered(v: View, w: View, b: seq<Byte>) {
    Advanced(v, w, |b|) && b == Head(v, |b|)
  }

  lemma DeliveredMore(v0: View, v: View, w: View, b: seq<Byte>, part: seq<Byte>)
    requires ValidView(v0) && ValidView(v) && Delivered(v0, v, b) && Delivered(v, w, part)
    ensures Delivered(v0, w, b + part)
  {
    AdvancedHead(v0, v, |b|, |part|);
  }

  // ------------------------------------------------------------------ the reader

  /** Copies n bytes to the front of the same buffer. */
  method CopyDown(buf: array<Byte>, from: nat, n: nat)
    requires from + n <= buf.Length
    modifies buf
    ensures buf[0..n] == old(buf[from..from + n])
  {
    for i := 0 to n
      invariant forall k :: 0 <= k < i ==> buf[k] == old(buf[from + k])
      invariant forall k :: from + i <= k < from + n ==> buf[k] == old(buf[k])
    {
      buf[i] := buf[from + i];
    }
  }

  class Reader {
    const content: seq<Byte>
    const buf: array<Byte>
    var start: nat
    var off: nat
    var limit: nat
    var pos: nat
    var size: nat

    ghost predicate Valid()
      reads this, buf
    {
      buf.Length == BUFFER_SIZE && pos <= size <= BUFFER_SIZE && ValidView(Now())
    }

    ghost function Now(): View
      reads this, buf
      requires pos <= size <= buf.Length
    {
      View(content, start, limit, off, buf[pos..size])
    }

    constructor (content: seq<Byte>, start: nat, maxLen: nat)
      ensures Valid() && fresh(buf) && this.content == content
      ensures Now() == View(content, start, start + maxLen, start, [])
    {
      this.content, this.start, off, limit, pos, size := content, start, start, start + maxLen, 0, 0;
      buf := new Byte[BUFFER_SIZE](_ => 0);
    }

    /** The position in the stream, relative to its start. */
    method Tell() returns (t: int)
      requires Valid()
      ensures t == TellOf(Now())
    {
      t := off - start - (size - pos);
    }

    /** io.ReaderAt: copies what the source has, EOF when that is less than asked for. */
    method ReadAt(dst: array<Byte>, at: nat, len: nat, from: nat) returns (n: nat, err: Error)
      requires at + len <= dst.Length
      modifies dst
      ensures n == Max(0, Min(len, |content| - from))
      ensures err == if n < len then EndOfFile else NoError
      ensures dst[..] == old(dst[..at]) + Slice(content, from, from + n) + old(dst[at + n..])
    {
      n := Max(0, Min(len, |content| - from));
      for i := 0 to n
        invariant forall k :: at <= k < at + i ==> dst[k] == content[from + (k - at)]
        invariant forall k :: 0 <= k < dst.Length && !(at <= k < at + i) ==> dst[k] == old(dst[k])
      {
        dst[at + i] := content[from + i];
      }
      err := if n < len then EndOfFile else NoError;
    }

    /** Moves the unconsumed bytes to the front of the buffer. */
    method MoveToFront()
      requires Valid()
      modifies this`pos, this`size, buf
      ensures Valid() && pos == 0 && Now() == old(Now())
    {
      var preserve := size - pos;
      if preserve > 0 && pos > 0 {
        CopyDown(buf, pos, preserve);
      }
      pos, size := 0, preserve;
    }

    /** Reads up to `toRead` bytes of the source behind the buffered ones. */
    method Append(toRead: nat) returns (n: nat)
      requires Valid() && pos == 0 && toRead <= BUFFER_SIZE - size
      modifies this`off, this`size, buf
      ensures n == Max(0, Min(toRead, |content| - old(off)))
      ensures pos <= size <= BUFFER_SIZE && size == old(size) + n && off == old(off) + n
      ensures Now() == old(Now()).(off := off, bytes := old(Now()).bytes + Slice(content, old(off), off))
    {
      var err;
      n, err := ReadAt(buf, size, toRead, off);
      assert buf[0..size + n] == old(buf[0..size]) + Slice(content, off, off + n);
      size := size + n;
      off := off + n;
    }

    method Fill() returns (err: Error)
      requires Valid()
      modifies this`off, this`pos, this`size, buf
      ensures Valid() && Refilled(old(Now()), Now(), err)
      ensures err == NoError ==> pos == 0
    {
      if off >= limit {
        FillOver(Now());
        return EndOfFile;
      }
      MoveToFront();
      var n := Refill();
      if n > 0 {
        return NoError;
      }
      return EndOfFile;
    }

    /** Fills the room behind the buffered bytes, as far as the window goes. */
    method Refill() returns (n: nat)
      requires Valid() && pos == 0 && off < limit
      modifies this`off, this`size, buf
      ensures Valid() && Refilled(old(Now()), Now(), if n > 0 then NoError else EndOfFile)
    {
      ghost var v := Now();
      var toRead := BUFFER_SIZE - size;
      if toRead > limit - off {
        toRead := limit - off;
      }
      n := Append(toRead);
      FillDone(v, toRead, n, Now());
    }

    /** Takes the next n buffered bytes. */
    method Take(n: nat) returns (b: seq<Byte>)
      requires Valid() && n <= size - pos
      modifies this`pos
      ensures Valid() && pos == old(pos) + n
      ensures Now() == old(Now()).(bytes := old(Now()).bytes[n..])
      ensures Advanced(old(Now()), Now(), n) && b == Head(old(Now()), n) == old(Now()).bytes[..n]
    {
      b := buf[pos..pos + n];
      ghost var v := Now();
      Consume(v, n, v.(bytes := v.bytes[n..]));
      pos := pos + n;
      assert buf[pos..size] == v.bytes[n..];
      assert b == v.bytes[..n];
    }

    /** Reads the next bytes into a fresh string of length `len`; fewer only when the window ends. */
    method Read(len: nat) returns (b: seq<Byte>, err: Error)
      requires Valid()
      modifies this`off, this`pos, this`size, buf
      ensures Valid() && |b| == Min(len, Left(old(Now())))
      ensures Advanced(old(Now()), Now(), |b|) && b == Head(old(Now()), |b|)
      ensures err == ReadError(len, |b|, Covered(Now()))
    {
      b := [];
      ghost var v0 := Now();
      while |b| < len
        invariant Valid() && |b| <= len
        invariant Delivered(v0, Now(), b)
        decreases WindowEnd(Now()) - off, len - |b|
      {
        ghost var v := Now();
        if pos < size {
          var part := Take(Min(len - |b|, size - pos));
          DeliveredMore(v0, v, Now(), b, part);
          b := b + part;
          continue;
        }
        if off >= limit {
          return b, if b != [] then NoError else EndOfFile;
        }
        if len - |b| >= BUFFER_SIZE {
          var part;
          part, err := ReadDirect(len - |b|);
          DeliveredMore(v0, v, Now(), b, part);
          b := b + part;
          return;
        }
        var e := Fill();
        if e != NoError {
          return b, e;
        }
      }
      err := NoError;
    }

    /** A large read straight from the source, past the empty buffer. */
    method ReadDirect(len: nat) returns (b: seq<Byte>, err: Error)
      requires Valid() && pos == size && off < limit
      modifies this`off
      ensures Valid() && |b| == Min(len, Left(old(Now())))
      ensures Advanced(old(Now()), Now(), |b|) && b == Head(old(Now()), |b|)
      ensures err == if |b| < len && !Covered(Now()) then EndOfFile else NoError
    {
      ghost var v := Now();
      RestSplits(v);
      var toRead := if len > limit - off then limit - off else len;
      var p := new Byte[toRead];
      var n;
      n, err := ReadAt(p, 0, toRead, off);
      b := p[..n];
      assert b == Slice(content, off, off + n);
      off := off + n;
      Skip(v, n, Now());
    }

    method ReadByte() returns (b: Byte, err: Error)
      requires Valid()
      modifies this`off, this`pos, this`size, buf
      ensures Valid()
      ensures Left(old(Now())) == 0 ==> err == EndOfFile && Advanced(old(Now()), Now(), 0)
      ensures Left(old(Now())) > 0 ==>
                err == NoError && [b] == Head(old(Now()), 1) && Advanced(old(Now()), Now(), 1)
    {
      ghost var v := Now();
      RestSplits(v);
      if pos >= size {
        err := Fill();
        if err != NoError {
          return 0, err;
        }
      }
      ghost var w := Now();
      RestSplits(w);
      AdvancedRest(v, w, 0);
      assert RestOf(v)[0..] == RestOf(v);
      assert w.bytes[0] == buf[pos];
      var one := Take(1);
      assert one == [w.bytes[0]];
      b, err := one[0], NoError;
    }

    method Discard(n: nat) returns (discarded: nat, err: Error)
      requires Valid()
      modifies this`off, this`pos, this`size, buf
      ensures Valid() && discarded == Min(n, Left(old(Now())))
      ensures Advanced(old(Now()), Now(), discarded)
      ensures err == if discarded < n then EndOfFile else NoError
    {
      discarded := 0;
      ghost var v0 := Now();
      while discarded < n
        invariant Valid() && discarded <= n && Advanced(v0, Now(), discarded)
        decreases n - discarded
      {
        ghost var v := Now();
        RestSplits(v);
        if pos >= size {
          err := Fill();
          if err != NoError {
            return;
          }
        }
        ghost var w := Now();
        RestSplits(w);
        var partial := Min(size - pos, n - discarded);
        var skipped := Take(partial);
        discarded := discarded + partial;
      }
      err := NoError;
    }

    /** The next n bytes without consuming them, if they fit the buffer. */
    method Peek(n: nat) returns (b: seq<Byte>, err: Error)
      requires Valid()
      modifies this`off, this`pos, this`size, buf
      ensures Valid() && Advanced(old(Now()), Now(), 0)
      ensures err == if n > BUFFER_SIZE then BufferTooSmall
                     else if n > Left(old(Now())) then EndOfFile else NoError
      ensures err == NoError ==> size - pos >= n && b == Head(old(Now()), n)
    {
      if n > BUFFER_SIZE {
        return [], BufferTooSmall;
      }
      ghost var v := Now();
      if size - pos < n {
        err := Fill();
        if err != NoError {
          return [], err;
        }
      }
      if size - pos >= n {
        b := buf[pos..pos + n];
        Buffered(v, Now(), n);
        assert b == Now().bytes[..n];
        return b, NoError;
      }
      return [], EndOfFile;
    }

    method ReadN(n: nat) returns (b: seq<Byte>, err: Error)
      requires Valid()
      modifies this`off, this`pos, this`size, buf
      ensures Valid()
      ensures err == if n > BUFFER_SIZE then BufferTooSmall
                     else if n > Left(old(Now())) then EndOfFile else NoError
      ensures err == NoError ==> b == Head(old(Now()), n) && Advanced(old(Now()), Now(), n)
      ensures err != NoError ==> Advanced(old(Now()), Now(), 0)
    {
      ghost var v := Now();
      b, err := Peek(n);
      if err == NoError {
        ghost var w := Now();
        var taken := Take(n);
      }
    }

    /** Reads up to the delimiter; a longer stretch is handed out buffer by buffer. */
    method ReadSlice(delim: Byte) returns (res: seq<Byte>, err: Error)
      requires Valid()
      modifies this`off, this`pos, this`size, buf
      ensures Valid() && SliceRead(old(Now()), Now(), delim, res, err)
    {
      ghost var v0 := Now();
      while true
        invariant Valid() && Advanced(v0, Now(), 0)
        decreases WindowEnd(Now()) - off
      {
        ghost var v := Now();
        var i := IndexByte(buf[pos..size], delim);
        if i >= 0 {
          res := Take(i);
          var skipped := Take(1);
          SliceFound(v0, v, Now(), delim, res, i);
          return res, NoError;
        }
        if off >= limit {
          res := Take(size - pos);
          SliceEnds(v0, v, Now(), delim, res);
          return res, EndOfFile;
        }
        if pos == 0 && size == BUFFER_SIZE {
          res := Take(size);
          SliceTooLong(v0, v, Now(), delim, res);
          return res, BufferTooSmall;
        }
        err := Fill();
        if err != NoError {
          SliceStuck(v0, v, Now(), delim);
          return [], err;
        }
      }
    }

    /** Moves behind the first occurrence of the pattern and returns where it starts, relative to `start`. */
    method SearchSlice(pattern: seq<Byte>) returns (at: int, err: Error)
      requires Valid()
      modifies this`off, this`pos, this`size, buf
      ensures Valid() && Searched(old(Now()), Now(), pattern, at, err)
    {
      var plen := |pattern|;
      ghost var v0 := Now();
      if plen == 0 {
        at := Tell();
        SearchEmpty(v0, pattern);
        return at, NoError;
      }
      at, err := SearchPattern(pattern);
    }

    method DropAndFill(drop: nat) returns (err: Error)
      requires Valid() && drop <= size - pos
      modifies this`off, this`pos, this`size, buf
      ensures Valid() && Dropped(old(Now()), Now(), drop, err)
    {
      ghost var v := Now();
      var dropped := Take(drop);
      ghost var x := Now();
      err := Fill();
      DroppedFilled(v, x, Now(), drop, err);
    }

    method SearchPattern(pattern: seq<Byte>) returns (at: int, err: Error)
      requires Valid() && pattern != []
      modifies this`off, this`pos, this`size, buf
      ensures Valid() && Searched(old(Now()), Now(), pattern, at, err)
    {
      var plen := |pattern|;
      ghost var v0, gone: nat := Now(), 0;
      while true
        invariant Valid() && Advanced(v0, Now(), gone)
        invariant NoneBefore(RestOf(v0), pattern, gone)
        decreases WindowEnd(Now()) - off
      {
        var found;
        found, at := TakeIfBuffered(pattern, v0, gone);
        if found {
          return at, NoError;
        }
        var drop := size - pos - Min(size - pos, plen - 1);
        SearchDrops(v0, Now(), pattern, gone, drop);
        var e := DropAndFill(drop);
        gone := gone + drop;
        if e != NoError {
          ghost var x := Now();
          var tail := Take(size - pos);
          SearchFailed(v0, x, Now(), pattern, gone);
          return -1, e;
        }
      }
    }

    /** Looks for the pattern in the buffered bytes only. */
    method TakeIfBuffered(pattern: seq<Byte>, ghost v0: View, ghost gone: nat) returns (found: bool, at: int)
      requires Valid() && pattern != [] && ValidView(v0) && Advanced(v0, Now(), gone)
      requires NoneBefore(RestOf(v0), pattern, gone)
      modifies this`pos
      ensures Valid()
      ensures found ==> Searched(v0, Now(), pattern, at, NoError)
      ensures !found ==> Now() == old(Now()) && Nowhere(Now().bytes, pattern)
    {
      ghost var v := Now();
      var i := Index(buf[pos..size], pattern);
      if i < 0 {
        return false, -1;
      }
      at := Tell();
      at := at + i;
      var taken := Take(i + |pattern|);
      SearchFound(v0, v, Now(), pattern, gone, i);
      return true, at;
    }
  }

  // ------------------------------------------------------------------ delimiters and patterns

  /** Reading to a delimiter, on the plain sequence. */
  ghost predicate SliceRead(v: View, w: View, delim: Byte, res: seq<Byte>, err: Error) {
    var rest := RestOf(v);
    var head := rest[..Min(BUFFER_SIZE, |rest|)];
    match err
    case NoError =>
      |res| < |head| && delim !in res && head[..|res| + 1] == res + [delim] && Advanced(v, w, |res| + 1)
    case BufferTooSmall =>
      |rest| >= BUFFER_SIZE && delim !in head && res == head && Advanced(v, w, BUFFER_SIZE)
    case EndOfFile =>
      && |rest| <= BUFFER_SIZE && delim !in head
      && (if Covered(v) then res == rest && Advanced(v, w, |rest|) else res == [] && Advanced(v, w, 0))
  }

  lemma SliceFound(v0: View, v: View, x: View, delim: Byte, res: seq<Byte>, i: nat)
    requires ValidView(v0) && ValidView(v) && Advanced(v0, v, 0) && Advanced(v, x, i + 1)
    requires i < |v.bytes| <= BUFFER_SIZE && v.bytes[i] == delim && delim !in v.bytes[..i] && res == v.bytes[..i]
    ensures SliceRead(v0, x, delim, res, NoError)
  {
    AdvancedRest(v0, v, 0);
    RestSplits(v);
    assert v.bytes[..i + 1] == res + [delim];
  }

  lemma SliceEnds(v0: View, v: View, x: View, delim: Byte, res: seq<Byte>)
    requires ValidView(v0) && ValidView(v) && Advanced(v0, v, 0) && Advanced(v, x, |v.bytes|)
    requires v.off >= v.limit && |v.bytes| <= BUFFER_SIZE && delim !in v.bytes && res == v.bytes
    ensures SliceRead(v0, x, delim, res, EndOfFile)
  {
    AdvancedRest(v0, v, 0);
    RestSplits(v);
  }

  lemma SliceTooLong(v0: View, v: View, x: View, delim: Byte, res: seq<Byte>)
    requires ValidView(v0) && ValidView(v) && Advanced(v0, v, 0) && Advanced(v, x, |v.bytes|)
    requires |v.bytes| == BUFFER_SIZE && delim !in v.bytes && res == v.bytes
    ensures SliceRead(v0, x, delim, res, BufferTooSmall)
  {
    AdvancedRest(v0, v, 0);
    RestSplits(v);
  }

  lemma SliceStuck(v0: View, v: View, x: View, delim: Byte)
    requires ValidView(v0) && ValidView(v) && Advanced(v0, v, 0) && Refilled(v, x, EndOfFile)
    requires v.off < v.limit && |v.bytes| <= BUFFER_SIZE && delim !in v.bytes
    requires |v.bytes| == BUFFER_SIZE ==> v.off == WindowEnd(v)
    ensures SliceRead(v0, x, delim, [], EndOfFile)
  {
    AdvancedRest(v0, v, 0);
    RestSplits(v);
  }

  ghost predicate NoneBefore(s: seq<Byte>, pattern: seq<Byte>, n: int) {
    forall j :: 0 <= j < n ==> !OccursAt(s, pattern, j)
  }

  /** Searching, on the plain sequence. */
  ghost predicate Searched(v: View, w: View, pattern: seq<Byte>, at: int, err: Error) {
    var i := at - TellOf(v);
    && (err == NoError ==> FirstAt(RestOf(v), pattern, i) && Advanced(v, w, i + |pattern|))
    && (err != NoError ==> err == EndOfFile && at == -1)
    && (err != NoError && |pattern| <= BUFFER_SIZE ==> Nowhere(RestOf(v), pattern) && Advanced(v, w, |RestOf(v)|))
    && (|pattern| > BUFFER_SIZE ==> err != NoError)
  }

  lemma OccursInside(whole: seq<Byte>, gone: nat, bytes: seq<Byte>, pattern: seq<Byte>, j: int)
    requires gone <= |whole| && bytes <= whole[gone..] && gone <= j && j - gone + |pattern| <= |bytes|
    ensures OccursAt(whole, pattern, j) <==> OccursAt(bytes, pattern, j - gone)
  {
    assert bytes[j - gone..j - gone + |pattern|] == whole[j..j + |pattern|];
  }

  lemma FoundInBuffer(whole: seq<Byte>, gone: nat, bytes: seq<Byte>, pattern: seq<Byte>, i: nat)
    requires gone <= |whole| && bytes <= whole[gone..] && FirstAt(bytes, pattern, i)
    requires NoneBefore(whole, pattern, gone)
    ensures FirstAt(whole, pattern, gone + i)
  {
    OccursInside(whole, gone, bytes, pattern, gone + i);
    forall j | 0 <= j < gone + i ensures !OccursAt(whole, pattern, j) {
      if gone <= j {
        OccursInside(whole, gone, bytes, pattern, j);
      }
    }
  }

  /** Dropping all but the last |pattern| - 1 bytes loses no occurrence. */
  lemma NotInBuffer(whole: seq<Byte>, gone: nat, bytes: seq<Byte>, pattern: seq<Byte>, drop: nat)
    requires gone <= |whole| && bytes <= whole[gone..] && Nowhere(bytes, pattern)
    requires drop == 0 || drop + |pattern| - 1 == |bytes|
    requires drop <= |bytes| && |pattern| > 0
    requires NoneBefore(whole, pattern, gone)
    ensures NoneBefore(whole, pattern, gone + drop)
  {
    forall j | 0 <= j < gone + drop ensures !OccursAt(whole, pattern, j) {
      if gone <= j {
        OccursInside(whole, gone, bytes, pattern, j);
      }
    }
  }

  lemma SearchEmpty(v: View, pattern: seq<Byte>)
    requires ValidView(v) && pattern == []
    ensures Searched(v, v, pattern, TellOf(v), NoError)
  {
    RestSplits(v);
    assert OccursAt(RestOf(v), pattern, 0);
  }

  lemma SearchFound(v0: View, v: View, w: View, pattern: seq<Byte>, gone: nat, i: nat)
    requires ValidView(v0) && ValidView(v) && Advanced(v0, v, gone) && Advanced(v, w, i + |pattern|)
    requires NoneBefore(RestOf(v0), pattern, gone) && FirstAt(v.bytes, pattern, i)
    requires 0 < |pattern| && |v.bytes| <= BUFFER_SIZE
    ensures Searched(v0, w, pattern, TellOf(v) + i, NoError)
  {
    AdvancedRest(v0, v, gone);
    RestSplits(v);
    FoundInBuffer(RestOf(v0), gone, v.bytes, pattern, i);
  }

  lemma SearchDrops(v0: View, v: View, pattern: seq<Byte>, gone: nat, drop: nat)
    requires ValidView(v0) && ValidView(v) && Advanced(v0, v, gone)
    requires NoneBefore(RestOf(v0), pattern, gone) && Nowhere(v.bytes, pattern) && |pattern| > 0
    requires drop == |v.bytes| - Min(|v.bytes|, |pattern| - 1)
    ensures NoneBefore(RestOf(v0), pattern, gone + drop)
  {
    AdvancedRest(v0, v, gone);
    RestSplits(v);
    NotInBuffer(RestOf(v0), gone, v.bytes, pattern, drop);
  }

  /** Nothing is left that could hold the pattern. */
  lemma SearchFailed(v0: View, v: View, w: View, pattern: seq<Byte>, gone: nat)
    requires ValidView(v0) && ValidView(v) && Advanced(v0, v, gone) && Advanced(v, w, |v.bytes|)
    requires NoneBefore(RestOf(v0), pattern, gone) && |v.bytes| < |pattern|
    requires v.off == WindowEnd(v) || |v.bytes| >= BUFFER_SIZE
    ensures Searched(v0, w, pattern, -1, EndOfFile)
  {
    AdvancedRest(v0, v, gone);
    RestSplits(v);
  }

  // ------------------------------------------------------------------ where the pattern was found

  /** The offset in the source, not in the window, of the first occurrence at or behind the cursor. */
  ghost predicate Absolute(v: View, pattern: seq<Byte>, a: int) {
    OccursFrom(v, pattern, a) && forall b :: b < a ==> !OccursFrom(v, pattern, b)
  }

  ghost predicate OccursFrom(v: View, pattern: seq<Byte>, a: int) {
    v.off - |v.bytes| <= a && a + |pattern| <= WindowEnd(v) && Slice(v.content, a, a + |pattern|) == pattern
  }

  lemma OccursRelative(v: View, pattern: seq<Byte>, a: int)
    requires ValidView(v)
    ensures OccursFrom(v, pattern, a) <==> OccursAt(RestOf(v), pattern, a - (v.off - |v.bytes|))
  {
    RestSplits(v);
    InSlice(v.content, v.off - |v.bytes|, WindowEnd(v), pattern, a);
  }

  lemma InSlice(content: seq<Byte>, from: nat, to: nat, pattern: seq<Byte>, a: int)
    requires from <= to && |Slice(content, from, to)| == to - from
    ensures OccursAt(Slice(content, from, to), pattern, a - from)
       <==> from <= a && a + |pattern| <= to && Slice(content, a, a + |pattern|) == pattern
  {
    if to <= |content| {
      InPart(content, from, to, pattern, a - from);
    } else {
      assert Slice(content, from, to) == [] && to == from;
    }
  }

  lemma InPart(s: seq<Byte>, from: nat, to: nat, pattern: seq<Byte>, i: int)
    requires from <= to <= |s|
    ensures OccursAt(s[from..to], pattern, i)
       <==> 0 <= i && i + |pattern| <= to - from && s[from + i..from + i + |pattern|] == pattern
  {
    if 0 <= i && i + |pattern| <= to - from {
      PartOfPart(s, from, to, i, |pattern|);
    }
  }

  lemma PartOfPart(s: seq<Byte>, from: nat, to: nat, i: nat, n: nat)
    requires from <= to <= |s| && i + n <= to - from
    ensures s[from..to][i..i + n] == s[from + i..from + i + n]
  {
    var part, whole := s[from..to][i..i + n], s[from + i..from + i + n];
    assert |part| == |whole| == n;
    forall k | 0 <= k < n ensures part[k] == whole[k] {
      assert part[k] == s[from..to][i + k] == s[from + (i + k)];
    }
  }

  /** What is found starts at the window's start plus the result, so the result is its offset only for windows at zero. */
  lemma FoundAbsolute(v: View, w: View, pattern: seq<Byte>, at: int)
    requires ValidView(v) && Searched(v, w, pattern, at, NoError)
    ensures Absolute(v, pattern, v.start + at)
    ensures Absolute(v, pattern, at) <==> v.start == 0
  {
    OccursRelative(v, pattern, v.start + at);
    forall b | b < v.start + at ensures !OccursFrom(v, pattern, b) {
      OccursRelative(v, pattern, b);
    }
  }

  /** A search succeeds exactly if the pattern fits the buffer and occurs. */
  lemma FoundExact(v: View, w: View, pattern: seq<Byte>, at: int, err: Error)
    requires Searched(v, w, pattern, at, err)
    ensures err == NoError <==> |pattern| <= BUFFER_SIZE && !Nowhere(RestOf(v), pattern)
  {
  }

  /** The byte 7 at offset 1 is reported at 0 by a reader that starts there. */
  lemma FoundRelative(w: View, at: int, err: Error)
    requires Searched(View([3, 7], 1, 2, 1, []), w, [7], at, err)
    ensures err == NoError && at == 0 && Absolute(View([3, 7], 1, 2, 1, []), [7], 1)
  {
    var v := View([3, 7], 1, 2, 1, []);
    assert RestOf(v) == [7];
    assert OccursAt(RestOf(v), [7], 0);
    FoundExact(v, w, [7], at, err);
    FoundAbsolute(v, w, [7], at);
  }
}
