/**
 Cached random-access reads (libpf/readatbuf/readatbuf.go): pages are kept in buffers that are
 recycled on eviction, and the reader must still show nothing but the content.
 */
module ReadAtBuf {
  import opened Words
  import opened Bytes
  import opened Wrappers

  datatype Error = EndOfFile | NegativeOffset | Failed | ShortPage | ZeroPageSize | ZeroCacheSize

  /** What the source does with a call: read in full, fail, or return fewer bytes and no error. */
  datatype Outcome = Full(eagerEof: bool) | Fail | Short(n: nat)

  /** Every call is answered in full. */
  ghost predicate Faultless(outcome: nat -> Outcome) {
    forall c :: outcome(c).Full?
  }

  datatype Answer = Answer(n: nat, err: Option<Error>)

  /** How many of `want` bytes there are from `off` on. */
  function Available(content: seq<Byte>, off: nat, want: nat): (n: nat)
    ensures n <= want && (n > 0 ==> off + n <= |content|) && (n < want ==> off + n >= |content|)
  {
    if off >= |content| then 0 else Min(want, |content| - off)
  }

  function Piece(content: seq<Byte>, off: nat, n: nat): (s: seq<Byte>)
    requires n <= Available(content, off, n)
    ensures |s| == n
  {
    if n == 0 then [] else content[off..off + n]
  }

  /** The contract of `io.ReaderAt`: reading to the very end may or may not report it. */
  function Answered(content: seq<Byte>, off: nat, want: nat, outcome: Outcome): Answer {
    var n := Available(content, off, want);
    match outcome
    case Full(eager) =>
      Answer(n, if n < want || (eager && off + n == |content|) then Some(EndOfFile) else None)
    case Fail => Answer(0, Some(Failed))
    case Short(k) => Answer(Min(k, n), None)
  }

  /** The underlying reader over fixed content; how each call turns out is not up to the cache. */
  class Source {
    const content: seq<Byte>
    const outcome: nat -> Outcome
    var calls: nat

    constructor (content: seq<Byte>, outcome: nat -> Outcome)
      ensures this.content == content && this.outcome == outcome
    {
      this.content, this.outcome, calls := content, outcome, 0;
    }

    method ReadAt(p: array<Byte>, off: nat) returns (r: Answer)
      modifies p, this`calls
      ensures r == Answered(content, off, p.Length, outcome(old(calls))) && r.n <= Available(content, off, p.Length)
      ensures p[..r.n] == Piece(content, off, r.n) && p[r.n..] == old(p[r.n..])
      ensures calls == old(calls) + 1
    {
      r := Answered(content, off, p.Length, outcome(calls));
      calls := calls + 1;
      forall k | 0 <= k < r.n {
        p[k] := content[off + k];
      }
    }
  }

  lemma OneFewer<K, V>(m: map<K, V>, k: K)
    requires k in m
    ensures |m - {k}| == |m| - 1
  {
    assert (m - {k}).Keys == m.Keys - {k};
  }

  lemma OneMore<K, V>(m: map<K, V>, k: K, v: V)
    requires k !in m
    ensures |m[k := v]| == |m| + 1
  {
    assert m[k := v].Keys == m.Keys + {k};
  }

  datatype Page = Page(buf: array<Byte>, len: nat, eof: bool)

  class Reader {
    const inner: Source
    const pageSize: nat
    const capacity: nat
    var cache: map<nat, Page>
    var hits: nat
    var misses: nat
    var evictions: nat
    var spare: array?<Byte>
    /** Every buffer that was ever allocated for a page. */
    ghost var buffers: set<array<Byte>>

    /** A cached page holds the content of its place. */
    ghost predicate Holds(i: nat, page: Page)
      reads page.buf
    {
      && page.buf.Length == pageSize && page.len == Available(inner.content, i * pageSize, pageSize)
      && page.buf[..page.len] == Piece(inner.content, i * pageSize, page.len)
      && (page.eof ==> i * pageSize + page.len >= |inner.content|)
      && (!page.eof ==> page.len == pageSize)
    }

    ghost predicate Valid()
      reads this, buffers
    {
      && pageSize > 0 && capacity > 0
      && (forall i :: i in cache ==> cache[i].buf in buffers && Holds(i, cache[i]))
      && (forall i, j :: i in cache && j in cache && i != j ==> cache[i].buf != cache[j].buf)
      && (spare != null ==> spare in buffers && spare.Length == pageSize && forall i :: i in cache ==> cache[i].buf != spare)
      && |cache| <= capacity && evictions + |cache| <= misses
    }

    constructor (inner: Source, pageSize: nat, capacity: nat)
      requires pageSize > 0 && capacity > 0
      ensures Valid() && fresh(buffers) && this.inner == inner && this.pageSize == pageSize && this.capacity == capacity
      ensures cache == map[] && hits == misses == evictions == 0
    {
      this.inner, this.pageSize, this.capacity := inner, pageSize, capacity;
      cache, hits, misses, evictions, spare, buffers := map[], 0, 0, 0, null, {};
    }

    /** The eviction callback: a page leaves the cache and its buffer becomes the spare one. */
    method Evict(i: nat)
      requires Valid() && i in cache
      modifies this`cache, this`evictions, this`spare
      ensures Valid() && cache == old(cache) - {i} && evictions == old(evictions) + 1
      ensures spare == old(cache)[i].buf
    {
      evictions := evictions + 1;
      spare := cache[i].buf;
      cache := cache - {i};
      OneFewer(old(cache), i);
    }

    /** A page whose buffer is used for nothing else. */
    ghost predicate Separate(page: Page)
      reads this
    {
      page.buf in buffers && page.buf != spare && forall j :: j in cache ==> cache[j].buf != page.buf
    }

    method Insert(i: nat, page: Page)
      requires Valid() && i !in cache && Separate(page) && Holds(i, page)
      requires |cache| < capacity && evictions + |cache| < misses
      modifies this`cache
      ensures Valid() && cache == old(cache)[i := page]
    {
      OneMore(cache, i, page);
      cache := cache[i := page];
    }

    /** Adds a page that is not cached, after making room if necessary. */
    method Add(i: nat, page: Page)
      requires Valid() && i !in cache && Separate(page) && Holds(i, page)
      requires evictions + |cache| < misses
      modifies this`cache, this`evictions, this`spare
      ensures Valid() && page.buf != spare
      ensures |old(cache)| < capacity ==> cache == old(cache)[i := page]
      ensures |old(cache)| >= capacity ==> exists v :: v in old(cache) && cache == (old(cache) - {v})[i := page]
      ensures evictions == old(evictions) + if |old(cache)| >= capacity then 1 else 0
    {
      if |cache| >= capacity {
        var victim :| victim in cache;
        OneFewer(cache, victim);
        Evict(victim);
      }
      Insert(i, page);
    }

    /** Flushes the cache; the buffer of the page that leaves last is kept as the spare one. */
    method InvalidateCache()
      requires Valid()
      modifies this`cache, this`hits, this`misses, this`evictions, this`spare
      ensures Valid() && cache == map[] && hits == misses == evictions == 0
    {
      while cache != map[]
        invariant Valid()
        decreases |cache|
      {
        var i :| i in cache;
        OneFewer(cache, i);
        Evict(i);
      }
      hits, misses, evictions := 0, 0, 0;
    }

    /** A buffer for a new page: the spare one if there is one, else a fresh one. */
    method TakeBuffer() returns (buf: array<Byte>)
      requires Valid()
      modifies this`spare, this`buffers
      ensures Valid() && buf.Length == pageSize && Separate(Page(buf, 0, false))
      ensures buffers == old(buffers) + {buf} && (buf == old(spare) || fresh(buf))
    {
      if spare != null {
        buf := spare;
        spare := null;
      } else {
        buf := new Byte[pageSize](_ => 0);
        buffers := buffers + {buf};
      }
    }

    /** Reads a page into a buffer nothing else uses. */
    method Load(i: nat, buf: array<Byte>) returns (page: Page, err: Option<Error>)
      requires Valid() && buf.Length == pageSize && Separate(Page(buf, 0, false))
      modifies buf, inner`calls
      ensures Valid() && page.buf == buf && inner.calls == old(inner.calls) + 1
      ensures err.None? ==> Holds(i, page)
      ensures err.Some? ==> err.value in {Failed, ShortPage} && !inner.outcome(old(inner.calls)).Full?
    {
      var r := inner.ReadAt(buf, i * pageSize);
      page := Page(buf, r.n, r.err == Some(EndOfFile));
      if r.err.Some? && !page.eof {
        return page, r.err;
      }
      if !page.eof && r.n < pageSize {
        return page, Some(ShortPage);
      }
      err := None;
    }

    /** Reads a page that is not cached and caches it. */
    method ReadPage(i: nat) returns (page: Page, err: Option<Error>)
      requires Valid() && i !in cache && evictions + |cache| < misses
      modifies this`cache, this`evictions, this`spare, this`buffers, buffers, inner`calls
      ensures Valid() && buffers == old(buffers) + {page.buf} && (page.buf == old(spare) || fresh(page.buf))
      ensures err.None? ==> Holds(i, page) && i in cache && cache[i] == page
      ensures Loaded(old(cache), cache, i, page, err) && inner.calls == old(inner.calls) + 1
      ensures evictions == old(evictions) + if err.None? && |old(cache)| >= capacity then 1 else 0
      ensures err.Some? ==> err.value in {Failed, ShortPage} && !inner.outcome(old(inner.calls)).Full?
    {
      var buf := TakeBuffer();
      page, err := Load(i, buf);
      if err.None? {
        Add(i, page);
      }
    }

    /** A page that was read is added, in the place of another one if the cache is full; a failure changes nothing. */
    ghost predicate Loaded(before: map<nat, Page>, after: map<nat, Page>, i: nat, page: Page, err: Option<Error>) {
      if err.Some? then after == before
      else if |before| < capacity then after == before[i := page]
      else exists v :: v in before && after == (before - {v})[i := page]
    }

    /** The page from the cache, or read and cached. */
    method GetOrReadPage(i: nat) returns (page: Page, err: Option<Error>)
      requires Valid()
      modifies this, buffers, inner`calls
      ensures Valid() && old(buffers) <= buffers && fresh(buffers - old(buffers))
      ensures err.None? ==> page.buf in buffers && Holds(i, page) && i in cache && cache[i] == page
      ensures err.Some? ==> err.value in {Failed, ShortPage} && !inner.outcome(old(inner.calls)).Full?
      ensures i in old(cache) ==> hits == old(hits) + 1 && misses == old(misses)
      ensures i in old(cache) ==> err.None? && page == old(cache)[i] && cache == old(cache) && inner.calls == old(inner.calls)
      ensures i !in old(cache) ==> hits == old(hits) && misses == old(misses) + 1 && inner.calls == old(inner.calls) + 1
      ensures i !in old(cache) ==> Loaded(old(cache), cache, i, page, err)
      ensures evictions == old(evictions) + if err.None? && i !in old(cache) && |old(cache)| >= capacity then 1 else 0
    {
      if i in cache {
        hits := hits + 1;
        return cache[i], None;
      }
      misses := misses + 1;
      page, err := ReadPage(i);
    }

    /** `copy(p[at:][:n], page.data[skip:][:n])` */
    method CopyOut(p: array<Byte>, at: nat, page: Page, skip: nat, n: nat)
      requires p != page.buf && at + n <= p.Length && skip + n <= page.len <= page.buf.Length
      modifies p
      ensures p[at..at + n] == page.buf[skip..skip + n]
      ensures p[..at] == old(p[..at]) && p[at + n..] == old(p[at + n..])
    {
      forall k | 0 <= k < n {
        p[at + k] := page.buf[skip + k];
      }
    }

    /** Part of a cached page is part of the content. */
    lemma PagePart(i: nat, page: Page, skip: nat, n: nat, pos: nat)
      requires Holds(i, page) && skip + n <= page.len && pos == i * pageSize + skip
      ensures n <= Available(inner.content, pos, n) && page.buf[skip..skip + n] == Piece(inner.content, pos, n)
    {
      SubPiece(inner.content, i * pageSize, page.len, skip, n);
      PartOfPrefix(page.buf[..], page.len, skip, n);
    }

    /** Where a page says the content ends. */
    lemma PageEnds(i: nat, page: Page, skip: nat, pos: nat)
      requires Holds(i, page) && skip < pageSize && pos == i * pageSize + skip
      ensures skip > page.len ==> pos >= |inner.content|
      ensures skip <= page.len && page.eof ==> pos + (page.len - skip) >= |inner.content|
      ensures skip <= page.len && !page.eof ==> page.len - skip > 0 && pos + (page.len - skip) == i * pageSize + pageSize
    {
    }

    /** The first `n` bytes of `p` are what they should be. */
    ghost predicate Served(p: array<Byte>, off: nat, n: nat)
      reads p
    {
      n <= p.Length && n <= Available(inner.content, off, n) && p[..n] == Piece(inner.content, off, n)
    }

    /** How a cached read may end. */
    ghost predicate Answers(off: nat, want: nat, n: nat, err: Option<Error>) {
      match err
      case None => n == want
      case Some(EndOfFile) => n == Available(inner.content, off, want) < want
      case Some(e) => n <= want && e in {Failed, ShortPage} && !Faultless(inner.outcome)
    }

    /** Copies `c` bytes of a page behind the `n` already served. */
    method Extend(p: array<Byte>, off: nat, n: nat, i: nat, page: Page, skip: nat, c: nat)
      requires p != page.buf && Served(p, off, n) && n + c <= p.Length
      requires Holds(i, page) && skip + c <= page.len && off + n == i * pageSize + skip
      modifies p
      ensures Served(p, off, n + c) && p[n + c..] == old(p[n + c..])
    {
      PagePart(i, page, skip, c, off + n);
      CopyOut(p, n, page, skip, c);
      JoinPieces(inner.content, off, n, c);
      assert p[..n + c] == p[..n] + p[n..n + c];
    }

    /** Over a source that never fails, a cached read answers as the source itself would. */
    lemma Transparent(off: nat, want: nat, n: nat, err: Option<Error>)
      requires Faultless(inner.outcome) && n <= Available(inner.content, off, n)
      ensures Answers(off, want, n, err) <==> Answer(n, err) == Answered(inner.content, off, want, Full(false))
    {
      if err.Some? && err.value != EndOfFile {
        assert !Answers(off, want, n, err);
      }
    }

    /** Copies what page `i` offers. It stops at the end of the content. */
    method TakeFrom(p: array<Byte>, off: nat, n: nat, i: nat, page: Page, skip: nat) returns (m: nat, stop: bool, err: Option<Error>)
      requires p != page.buf && Holds(i, page) && Served(p, off, n) && n < p.Length
      requires i * pageSize + skip == off + n && skip < pageSize && (n > 0 ==> skip == 0)
      modifies p
      ensures n <= m && Served(p, off, m) && p[m..] == old(p[m..])
      ensures stop ==> Answers(off, p.Length, m, err)
      ensures !stop ==> err.None? && m > n && (m < p.Length ==> i * pageSize + pageSize == off + m)
    {
      PageEnds(i, page, skip, off + n);
      if skip > page.len {
        return 0, true, Some(EndOfFile);
      }
      var c := Min(p.Length - n, page.len - skip);
      Extend(p, off, n, i, page, skip, c);
      m := n + c;
      if page.eof {
        return m, true, if m == p.Length then None else Some(EndOfFile);
      }
      stop, err := false, None;
    }

    /** One round of the loop: page `i` from the cache or the source, and what it offers. */
    method ServePage(p: array<Byte>, off: nat, n: nat, i: nat, skip: nat) returns (m: nat, stop: bool, err: Option<Error>)
      requires Valid() && p !in buffers && Served(p, off, n) && n < p.Length
      requires i * pageSize + skip == off + n && skip < pageSize && (n > 0 ==> skip == 0)
      modifies this, buffers, inner`calls, p
      ensures Valid() && old(buffers) <= buffers && fresh(buffers - old(buffers))
      ensures n <= m && Served(p, off, m) && p[m..] == old(p[m..])
      ensures stop ==> Answers(off, p.Length, m, err)
      ensures !stop ==> err.None? && m > n && (m < p.Length ==> i * pageSize + pageSize == off + m)
    {
      var page, e := GetOrReadPage(i);
      if e.Some? {
        return n, true, e;
      }
      m, stop, err := TakeFrom(p, off, n, i, page, skip);
    }

    /** The page of a position, and the offset in the page. */
    method Locate(off: nat) returns (skip: nat, i: nat)
      requires pageSize > 0
      ensures i * pageSize + skip == off && skip < pageSize
    {
      skip, i := off % pageSize, off / pageSize;
      DivMod(off, pageSize);
    }

    /** Reads through the cache, page by page. */
    method ReadCached(p: array<Byte>, off: nat) returns (n: nat, err: Option<Error>)
      requires Valid() && p !in buffers
      modifies this, buffers, inner`calls, p
      ensures Valid() && old(buffers) <= buffers && fresh(buffers - old(buffers)) && p !in buffers
      ensures Served(p, off, n) && p[n..] == old(p[n..]) && Answers(off, p.Length, n, err)
    {
      n := 0;
      var skip: nat, i: nat := Locate(off);
      while n < p.Length
        invariant Valid() && old(buffers) <= buffers && fresh(buffers - old(buffers)) && p !in buffers
        invariant Served(p, off, n) && p[n..] == old(p[n..])
        invariant n < p.Length ==> i * pageSize + skip == off + n
        invariant skip < pageSize && (n > 0 ==> skip == 0)
      {
        ghost var before, k := p[..], n;
        var stop;
        n, stop, err := ServePage(p, off, n, i, skip);
        SameRest(before, old(p[..]), k, n);
        if stop {
          return;
        }
        NextPage(i, pageSize);
        skip, i := 0, i + 1;
      }
      err := None;
    }

    /**
     `ReadAt`: exactly the bytes of the content at the offset, with an end of file only if there are
     fewer than asked for. Large reads bypass the cache and answer as the source does.
     */
    method ReadAt(p: array<Byte>, off: int) returns (n: nat, err: Option<Error>)
      requires Valid() && p !in buffers
      modifies this, buffers, inner`calls, p
      ensures Valid() && old(buffers) <= buffers && fresh(buffers - old(buffers)) && p !in buffers
      ensures off < 0 ==> n == 0 && err == Some(NegativeOffset) && p[..] == old(p[..])
      ensures off >= 0 ==> Served(p, off, n) && p[n..] == old(p[n..])
      ensures off < 0 || p.Length > pageSize * 3 / 2 ==> cache == old(cache) && hits == old(hits) && misses == old(misses)
      ensures off >= 0 && p.Length > pageSize * 3 / 2 ==>
                Answer(n, err) == Answered(inner.content, off, p.Length, inner.outcome(old(inner.calls)))
      ensures off >= 0 && p.Length <= pageSize * 3 / 2 ==> Answers(off, p.Length, n, err)
    {
      if off < 0 {
        return 0, Some(NegativeOffset);
      }
      if p.Length > pageSize * 3 / 2 {
        var r := inner.ReadAt(p, off);
        return r.n, r.err;
      }
      n, err := ReadCached(p, off);
    }
  }

  lemma DivMod(x: nat, d: nat)
    requires d > 0
    ensures x / d * d + x % d == x && x % d < d
  {
  }

  lemma PartOfPrefix<T>(s: seq<T>, len: nat, a: nat, n: nat)
    requires a + n <= len <= |s|
    ensures s[..len][a..a + n] == s[a..a + n]
  {
  }

  lemma SameRest<T>(a: seq<T>, b: seq<T>, m: nat, n: nat)
    requires m <= n <= |a| == |b| && a[m..] == b[m..]
    ensures a[n..] == b[n..]
  {
    assert a[n..] == a[m..][n - m..] && b[n..] == b[m..][n - m..];
  }

  lemma NextPage(i: nat, d: nat)
    ensures (i + 1) * d == i * d + d
  {
  }

  lemma SubPiece(content: seq<Byte>, off: nat, len: nat, skip: nat, n: nat)
    requires len <= Available(content, off, len) && skip + n <= len
    ensures n <= Available(content, off + skip, n)
    ensures Piece(content, off + skip, n) == Piece(content, off, len)[skip..skip + n]
  {
    var whole, part := Piece(content, off, len), Piece(content, off + skip, n);
    forall k | 0 <= k < n ensures part[k] == whole[skip..skip + n][k] {
      assert part[k] == content[off + skip + k] && whole[skip + k] == content[off + (skip + k)];
    }
  }

  lemma JoinPieces(content: seq<Byte>, off: nat, m: nat, n: nat)
    requires m <= Available(content, off, m) && n <= Available(content, off + m, n)
    ensures m + n <= Available(content, off, m + n)
    ensures Piece(content, off, m) + Piece(content, off + m, n) == Piece(content, off, m + n)
  {
    if m > 0 && n > 0 {
      assert content[off..off + m] + content[off + m..off + m + n] == content[off..off + m + n];
    }
  }
}
