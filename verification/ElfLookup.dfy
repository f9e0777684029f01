/** `File.LookupSymbol` of libpf/pfelf/file.go with its cached hash-table headers. */
module ElfLookup {
  import opened Words
  import opened Bytes
  import opened ElfHash
  import opened ElfMemory
  import opened ElfSymbols
  import opened Wrappers

  datatype Answer = Hit(index: nat, symbol: Symbol) | NotFound | ReadError | Corrupt | NoTable | DivisionByZero

  const GNU_BYTES := 16
  const SYSV_BYTES := 8

  function GnuOf(b: seq<Byte>): GnuHeader
    requires |b| == GNU_BYTES
  {
    GnuHeader(Word32At(b, 0), Word32At(b, 4), Word32At(b, 8), Word32At(b, 12))
  }

  function SysvOf(b: seq<Byte>): SysvHeader
    requires |b| == SYSV_BYTES
  {
    SysvHeader(Word32At(b, 0), Word32At(b, 4))
  }

  function AnswerOf(f: Elf, o: Outcome): Answer {
    match o
    case At(n) => (match SymbolAt(f, n) case Some(s) => Hit(n, s) case None => ReadError)
    case Absent => NotFound
    case Unreadable => ReadError
    case Crash => DivisionByZero
  }

  /** The header structures as they lie in memory; a failed read leaves its leading bytes in them. */
  datatype Headers = Headers(gnu: seq<Byte>, sysv: seq<Byte>)

  const NO_HEADERS := Headers(Zeros(GNU_BYTES), Zeros(SYSV_BYTES))

  predicate Sized(hs: Headers) {
    |hs.gnu| == GNU_BYTES && |hs.sysv| == SYSV_BYTES
  }

  /** The headers after this lookup: one is read unless its first word was set before. */
  function Loaded(f: Elf, hs: Headers): (r: Headers)
    requires Sized(hs)
    ensures Sized(r)
  {
    if f.gnu != 0 then
      if GnuOf(hs.gnu).numBuckets == 0 then hs.(gnu := Overlaid(Present(f, f.gnu, GNU_BYTES), hs.gnu)) else hs
    else if f.sysv != 0 then
      if SysvOf(hs.sysv).numBuckets == 0 then hs.(sysv := Overlaid(Present(f, f.sysv, SYSV_BYTES), hs.sysv)) else hs
    else hs
  }

  /** A table is checked only when its header is read. */
  function Checked(f: Elf, hs: Headers): Option<Answer>
    requires Sized(hs)
  {
    if f.gnu != 0 then
      if GnuOf(hs.gnu).numBuckets != 0 then None
      else if |Present(f, f.gnu, GNU_BYTES)| < GNU_BYTES then Some(ReadError)
      else
        var h := GnuOf(Loaded(f, hs).gnu);
        if h.numBuckets == 0 || h.bloomSize == 0 then Some(Corrupt) else None
    else if f.sysv != 0 then
      if SysvOf(hs.sysv).numBuckets != 0 then None
      else if |Present(f, f.sysv, SYSV_BYTES)| < SYSV_BYTES then Some(ReadError)
      else if SysvOf(Loaded(f, hs).sysv).numBuckets == 0 then Some(Corrupt) else None
    else Some(NoTable)
  }

  /** The lookup over a chain of a System V table ends. */
  ghost predicate Ends(f: Elf, hs: Headers, name: seq<Byte>)
    requires Sized(hs)
  {
    f.gnu == 0 && f.sysv != 0 && Checked(f, hs).None? ==>
      var hdr := SysvOf(Loaded(f, hs).sysv);
      var start := SysvBucket(f, hdr, name);
      start.Some? ==> SysvWalk(f, hdr, name, start.value, hdr.numSymbols).Some?
  }

  ghost function Lookup(f: Elf, hs: Headers, name: seq<Byte>): Answer
    requires Sized(hs) && Ends(f, hs, name)
  {
    if Checked(f, hs).Some? then Checked(f, hs).value
    else if f.gnu != 0 then AnswerOf(f, GnuLookup(f, GnuOf(Loaded(f, hs).gnu), name))
    else
      var hdr := SysvOf(Loaded(f, hs).sysv);
      match SysvBucket(f, hdr, name)
      case None => ReadError
      case Some(start) => AnswerOf(f, SysvWalk(f, hdr, name, start, hdr.numSymbols).value)
  }

  class File {
    const elf: Elf
    var headers: Headers

    constructor (elf: Elf)
      ensures this.elf == elf && headers == NO_HEADERS && Sized(headers)
    {
      this.elf, headers := elf, NO_HEADERS;
    }

    /** Looks a symbol up. The walk over a System V chain must end: it does not on every file. */
    method LookupSymbol(name: seq<Byte>) returns (r: Answer)
      requires Sized(headers) && Ends(elf, headers, name)
      modifies this
      ensures Sized(headers) && headers == Loaded(elf, old(headers)) && r == Lookup(elf, old(headers), name)
    {
      if elf.gnu != 0 {
        if GnuOf(headers.gnu).numBuckets == 0 {
          var got := Present(elf, elf.gnu, GNU_BYTES);
          headers := headers.(gnu := Overlaid(got, headers.gnu));
          if |got| < GNU_BYTES {
            return ReadError;
          }
          if GnuOf(headers.gnu).numBuckets == 0 || GnuOf(headers.gnu).bloomSize == 0 {
            return Corrupt;
          }
        }
        var o := LookupGnu(GnuOf(headers.gnu), name);
        return AnswerOf(elf, o);
      } else if elf.sysv != 0 {
        if SysvOf(headers.sysv).numBuckets == 0 {
          var got := Present(elf, elf.sysv, SYSV_BYTES);
          headers := headers.(sysv := Overlaid(got, headers.sysv));
          if |got| < SYSV_BYTES {
            return ReadError;
          }
          if SysvOf(headers.sysv).numBuckets == 0 {
            return Corrupt;
          }
        }
        var start := SysvBucket(elf, SysvOf(headers.sysv), name);
        if start.None? {
          return ReadError;
        }
        var o := WalkSysv(SysvOf(headers.sysv), name, start.value);
        return AnswerOf(elf, o);
      } else {
        return NoTable;
      }
    }

    method LookupGnu(hdr: GnuHeader, name: seq<Byte>) returns (o: Outcome)
      requires hdr.numBuckets > 0
      ensures o == GnuLookup(elf, hdr, name)
    {
      var h := CalcGnuHash(name);
      if hdr.bloomSize == 0 {
        return Crash;
      }
      var bloom := Num(elf, BloomAddr(elf, hdr, h), 8);
      if bloom.None? {
        return Unreadable;
      }
      if !BloomAdmits(bloom.value, hdr, h) {
        return Absent;
      }
      var first := Num(elf, BucketAddr(elf, hdr, h % hdr.numBuckets), 4);
      if first.None? {
        return Unreadable;
      }
      if first.value == 0 {
        return Absent;
      }
      o := SearchBucket(name, h, first.value, ChainAddr(elf, hdr, first.value));
    }

    method SearchBucket(name: seq<Byte>, h: nat, first: nat, start: int) returns (o: Outcome)
      ensures o == GnuWalk(elf, name, h, first, start)
    {
      var i: nat, offs := first, start;
      while true
        invariant GnuWalk(elf, name, h, i, offs) == GnuWalk(elf, name, h, first, start)
        decreases Above(elf, offs)
      {
        var h2 := Num(elf, offs, 4);
        if h2.None? {
          return Unreadable;
        }
        // Do a full match only if the hashes agree but for the lowest bit.
        if h / 2 == h2.value / 2 && Matches(elf, i, name) {
          return At(i);
        }
        if h2.value % 2 == 1 {
          return Absent;
        }
        AboveShrinks(elf, offs, 4, 4);
        i, offs := (i + 1) % WORD32, offs + 4;
      }
    }

    method WalkSysv(hdr: SysvHeader, name: seq<Byte>, start: nat) returns (o: Outcome)
      requires SysvWalk(elf, hdr, name, start, hdr.numSymbols).Some?
      ensures Some(o) == SysvWalk(elf, hdr, name, start, hdr.numSymbols)
    {
      var i: nat := start;
      ghost var fuel: nat := hdr.numSymbols;
      while i != 0 && i < hdr.numSymbols
        invariant SysvWalk(elf, hdr, name, i, fuel) == SysvWalk(elf, hdr, name, start, hdr.numSymbols)
        decreases fuel
      {
        if Matches(elf, i, name) {
          return At(i);
        }
        var next := SysvNext(elf, hdr, i);
        if next.None? {
          return Unreadable;
        }
        i := next.value;
        fuel := fuel - 1;
      }
      o := Absent;
    }
  }

  // ------------------------------------------------------------------ headers that stay cached

  /** The header a lookup leaves behind: the bytes up to the end of its segment, zeros for the rest. */
  function Remaining(f: Elf): (b: seq<Byte>)
    ensures |b| == GNU_BYTES
  {
    Overlaid(Present(f, f.gnu, GNU_BYTES), Zeros(GNU_BYTES))
  }

  lemma FirstLookup(f: Elf)
    requires f.gnu != 0
    ensures GnuOf(NO_HEADERS.gnu).numBuckets == 0 && Loaded(f, NO_HEADERS).gnu == Remaining(f)
    ensures Loaded(f, Loaded(f, NO_HEADERS)) == Loaded(f, NO_HEADERS)
  {
    ZeroWord();
  }

  lemma ZeroWord()
    ensures Word32At(Zeros(GNU_BYTES), 0) == 0 && Word32At(Zeros(SYSV_BYTES), 0) == 0
  {
    assert Zeros(GNU_BYTES)[0..4] == [0, 0, 0, 0] && Zeros(SYSV_BYTES)[0..4] == [0, 0, 0, 0];
    ZeroValue();
  }

  lemma ZeroValue()
    ensures LeValue([0, 0, 0, 0]) == 0
  {
    var z: seq<Byte> := [0, 0, 0, 0];
    assert z[1..] == [0, 0, 0] && z[1..][1..] == [0, 0] && z[1..][1..][1..] == [0] && z[1..][1..][1..][1..] == [];
  }

  /**
   A header that names buckets but, as far as its segment reaches, no Bloom filter is refused by the first
   lookup, as unreadable or corrupt. It stays cached all the same, and exactly then every further
   lookup divides by the filter's size.
   */
  lemma CrashIff(f: Elf, name: seq<Byte>)
    requires f.gnu != 0
    ensures var again := Lookup(f, Loaded(f, NO_HEADERS), name); var h := GnuOf(Remaining(f));
            && (again == DivisionByZero <==> h.numBuckets != 0 && h.bloomSize == 0)
            && (again == DivisionByZero ==>
                  Lookup(f, NO_HEADERS, name) == if |Present(f, f.gnu, GNU_BYTES)| < GNU_BYTES then ReadError else Corrupt)
  {
    FirstLookup(f);
    var h := GnuOf(Remaining(f));
    if h.numBuckets != 0 && h.bloomSize != 0 {
      NoCrash(f, h, name);
    }
  }

  lemma NoSymbolsLeft(got: seq<Byte>)
    requires |got| <= 4
    ensures SysvOf(Overlaid(got, Zeros(SYSV_BYTES))).numSymbols == 0
  {
    var kept := Overlaid(got, Zeros(SYSV_BYTES));
    assert forall k :: 4 <= k < SYSV_BYTES ==> kept[k] == Zeros(SYSV_BYTES)[k] == 0;
    assert kept[4..8] == [0, 0, 0, 0];
    ZeroValue();
  }

  /** The System V header after a lookup that found none before. */
  function SysvRemaining(f: Elf): (b: seq<Byte>)
    ensures |b| == SYSV_BYTES
  {
    Overlaid(Present(f, f.sysv, SYSV_BYTES), Zeros(SYSV_BYTES))
  }

  lemma FirstSysvLookup(f: Elf)
    requires f.gnu == 0 && f.sysv != 0
    ensures Loaded(f, NO_HEADERS).sysv == SysvRemaining(f)
    ensures Checked(f, NO_HEADERS) == Some(ReadError) <==> |Present(f, f.sysv, SYSV_BYTES)| < SYSV_BYTES
    ensures Loaded(f, Loaded(f, NO_HEADERS)) == Loaded(f, NO_HEADERS)
  {
    ZeroWord();
    var got := Present(f, f.sysv, SYSV_BYTES);
    assert SysvRemaining(f)[..|got|] == got;
    assert Overlaid(got, SysvRemaining(f)) == SysvRemaining(f);
  }

  /**
   Likewise a System V header that is cut off is refused by the first lookup; the second takes it as
   checked if its first word is set. Cut off within that word or behind it, it has no symbols then,
   and every name whose bucket can be read is reported as not there.
   */
  lemma CutSysvHeader(f: Elf, name: seq<Byte>)
    requires f.gnu == 0 && f.sysv != 0 && |Present(f, f.sysv, SYSV_BYTES)| <= 4
    ensures Ends(f, NO_HEADERS, name) && Ends(f, Loaded(f, NO_HEADERS), name)
    ensures var hdr := SysvOf(SysvRemaining(f)); var hs := Loaded(f, NO_HEADERS);
            && Lookup(f, NO_HEADERS, name) == ReadError
            && (Lookup(f, hs, name) == NotFound <==> hdr.numBuckets != 0 && SysvBucket(f, hdr, name).Some?)
            && (Lookup(f, hs, name) != NotFound ==> Lookup(f, hs, name) == ReadError)
  {
    ZeroWord();
    FirstSysvLookup(f);
    NoSymbolsLeft(Present(f, f.sysv, SYSV_BYTES));
  }

  /** Whatever its length, the second lookup accepts a header exactly if what it has of the first word is not zero. */
  lemma SysvAccepted(f: Elf)
    requires f.gnu == 0 && f.sysv != 0
    ensures Checked(f, Loaded(f, NO_HEADERS)).None? <==> SysvOf(SysvRemaining(f)).numBuckets != 0
  {
    FirstSysvLookup(f);
  }

  // ------------------------------------------------------------------ headers that show it

  /** Two adjoining segments. */
  function TwoSegments(at: int, a: seq<Word32>, b: seq<Word32>): seq<Segment> {
    [Segment(at, Words32(a)), Segment(at + 4 * |a|, Words32(b))]
  }

  lemma TwoTails(at: int, a: seq<Word32>, b: seq<Word32>)
    requires a != [] && b != []
    ensures TailIn(TwoSegments(at, a, b), at) == Words32(a)
    ensures TailIn(TwoSegments(at, a, b), at + 4 * |a|) == Words32(b)
  {
    var ss := TwoSegments(at, a, b);
    assert ss[1..] == [ss[1]];
    TailOfOne(ss[1], at + 4 * |a|);
  }

  lemma HeaderWord(b: seq<Byte>, ws: seq<Word32>, k: nat, i: nat)
    requires Words32(ws) <= b && k < |ws| && i == 4 * k
    ensures Word32At(b, i) == ws[k]
  {
    WordAt(ws, k, i);
    SamePart(Words32(ws), b, i);
    WordReadBack(ws[k]);
  }

  lemma SamePart(a: seq<Byte>, b: seq<Byte>, i: nat)
    requires a <= b && i + 4 <= |a|
    ensures a[i..i + 4] == b[i..i + 4]
  {
  }

  /** A header without Bloom filter: corrupt, and then a division by zero. */
  lemma NoFilter(name: seq<Byte>)
    ensures var f := Elf([Segment(1000, Words32([1, 0, 0, 0]))], 0, 0, 1000, 0);
            Lookup(f, NO_HEADERS, name) == Corrupt && Lookup(f, Loaded(f, NO_HEADERS), name) == DivisionByZero
  {
    var ws: seq<Word32> := [1, 0, 0, 0];
    var f := Elf([Segment(1000, Words32(ws))], 0, 0, 1000, 0);
    TailOfOne(f.segments[0], 1000);
    HeaderWord(Remaining(f), ws, 0, 0);
    HeaderWord(Remaining(f), ws, 2, 8);
    CrashIff(f, name);
  }

  /** A good header that runs over from one segment into the next: a read error, and then a division by zero. */
  lemma SplitHeader(name: seq<Byte>)
    ensures var f := Elf(TwoSegments(1000, [1, 5], [2, 6]), 0, 0, 1000, 0);
            Lookup(f, NO_HEADERS, name) == ReadError && Lookup(f, Loaded(f, NO_HEADERS), name) == DivisionByZero
  {
    var a: seq<Word32>, b: seq<Word32> := [1, 5], [2, 6];
    var f := Elf(TwoSegments(1000, a, b), 0, 0, 1000, 0);
    TwoTails(1000, a, b);
    HeaderWord(Remaining(f), a, 0, 0);
    ZerosBehind(Words32(a));
    CrashIff(f, name);
  }

  lemma ZerosBehind(got: seq<Byte>)
    requires |got| == 8
    ensures Word32At(Overlaid(got, Zeros(GNU_BYTES)), 8) == 0
  {
    var kept := Overlaid(got, Zeros(GNU_BYTES));
    assert forall k :: 8 <= k < GNU_BYTES ==> kept[k] == Zeros(GNU_BYTES)[k] == 0;
    assert kept[8..12] == [0, 0, 0, 0];
    ZeroValue();
  }

  /** A System V header that does: a read error, and then every name is reported as not there. */
  lemma SplitSysvHeader(name: seq<Byte>)
    ensures var f := Elf(TwoSegments(1000, [1], [3, 1, 0, 0, 0]), 0, 0, 0, 1000);
            && Ends(f, NO_HEADERS, name) && Lookup(f, NO_HEADERS, name) == ReadError
            && Ends(f, Loaded(f, NO_HEADERS), name) && Lookup(f, Loaded(f, NO_HEADERS), name) == NotFound
  {
    var a: seq<Word32>, b: seq<Word32> := [1], [3, 1, 0, 0, 0];
    var f := Elf(TwoSegments(1000, a, b), 0, 0, 0, 1000);
    TwoTails(1000, a, b);
    HeaderWord(SysvRemaining(f), a, 0, 0);
    SplitBucket(f, b);
    CutSysvHeader(f, name);
  }

  lemma SplitBucket(f: Elf, b: seq<Word32>)
    requires f.segments == TwoSegments(1000, [1], b) && |b| == 5 && f.sysv == 1000
    ensures Num(f, f.sysv + SYSV_HEADER, 4).Some?
  {
    var ss := f.segments;
    assert ss[1..] == [ss[1]];
    TailOfOne(ss[1], 1008);
  }

  lemma NoCrash(f: Elf, hdr: GnuHeader, name: seq<Byte>)
    requires hdr.numBuckets > 0 && hdr.bloomSize > 0
    ensures GnuLookup(f, hdr, name) != Crash
  {
    var h := GnuHash(name);
    var i := Num(f, BucketAddr(f, hdr, h % hdr.numBuckets), 4);
    if i.Some? {
      WalkNoCrash(f, name, h, i.value, ChainAddr(f, hdr, i.value));
    }
  }

  lemma {:induction false} WalkNoCrash(f: Elf, name: seq<Byte>, h: nat, i: nat, offs: int)
    ensures GnuWalk(f, name, h, i, offs) != Crash
    decreases Above(f, offs)
  {
    if Num(f, offs, 4).Some? {
      AboveShrinks(f, offs, 4, 4);
      WalkNoCrash(f, name, h, (i + 1) % WORD32, offs + 4);
    }
  }

  /** With a well-formed table, looking up twice or with a cached header changes nothing. */
  lemma LookupIsLinear(f: Elf, hs: Headers, end: nat, name: seq<Byte>)
    requires f.gnu != 0 && (hs == NO_HEADERS || hs == Loaded(f, NO_HEADERS)) && 0 !in name
    requires |Present(f, f.gnu, GNU_BYTES)| == GNU_BYTES && WellFormedGnu(f, GnuOf(Remaining(f)), end)
    ensures var n := Linear(f, name, GnuOf(Remaining(f)).symbolOffset, end);
            Lookup(f, hs, name) == if n.None? then NotFound else Hit(n.value, SymbolAt(f, n.value).value)
  {
    FirstLookup(f);
    GnuIsLinear(f, GnuOf(Remaining(f)), end, name);
  }
}
