/**
 The ELF note parser (libpf/pfelf/notes.go) on top of the buffered reader.
 */
module ElfNotes {
  import opened Words
  import opened Bytes
  import opened BufReader

  // ------------------------------------------------------------------ notes and their layout

  datatype Note = Note(name: seq<Byte>, typ: Word32, desc: seq<Byte>)

  ghost predicate GoodNote(n: Note) {
    |n.name| < 0x1_0000_0000 && |n.desc| < 0x1_0000_0000
  }

  /** The size rounded up to a multiple of four. */
  function AlignNoteSize(size: nat): (r: nat)
    ensures r % 4 == 0 && size <= r < size + 4
  {
    (size + 3) / 4 * 4
  }

  function Padded(b: seq<Byte>): (p: seq<Byte>)
    ensures |p| == AlignNoteSize(|b|) && p[..|b|] == b
  {
    b + Zeros(AlignNoteSize(|b|) - |b|)
  }

  function Header(n: Note): (h: seq<Byte>)
    ensures |h| == 12
  {
    LeBytes(|n.name|, 4) + LeBytes(|n.desc|, 4) + LeBytes(n.typ, 4)
  }

  function EncodeNote(n: Note): seq<Byte> {
    Header(n) + Padded(n.name) + Padded(n.desc)
  }

  function EncodeAll(ns: seq<Note>): seq<Byte> {
    if ns == [] then [] else EncodeNote(ns[0]) + EncodeAll(ns[1..])
  }

  // ------------------------------------------------------------------ name spaces

  const NAMESPACE_UNKNOWN: nat := 0
  const NAMESPACE_CORE: nat := 0x1_0000_0000
  const NAMESPACE_LINUX: nat := 0x2_0000_0000
  const NAMESPACE_GNU: nat := 0x3_0000_0000
  const NAMESPACE_GO: nat := 0x4_0000_0000

  function TrimZeros(b: seq<Byte>): seq<Byte> {
    if b != [] && b[|b| - 1] == 0 then TrimZeros(b[..|b| - 1]) else b
  }

  function Namespace(name: seq<Byte>): nat {
    var s := TrimZeros(name);
    if s == [67, 79, 82, 69] then NAMESPACE_CORE
    else if s == [76, 73, 78, 85, 88] then NAMESPACE_LINUX
    else if s == [71, 78, 85] then NAMESPACE_GNU
    else if s == [71, 111] then NAMESPACE_GO
    else NAMESPACE_UNKNOWN
  }

  lemma {:induction false} TrimmedIs(b: seq<Byte>, s: seq<Byte>)
    requires s != [] && s[|s| - 1] != 0
    ensures TrimZeros(b) == s <==> s <= b && forall i :: |s| <= i < |b| ==> b[i] == 0
  {
    if b != [] && b[|b| - 1] == 0 {
      TrimmedIs(b[..|b| - 1], s);
    }
  }

  /** The text followed by nothing but zeros. */
  predicate PaddedText(name: seq<Byte>, text: seq<Byte>) {
    text <= name && forall i :: |text| <= i < |name| ==> name[i] == 0
  }

  /** "CORE", "LINUX", "GNU" and "Go" have their name spaces, whatever the number of zeros behind them; no other name has one. */
  lemma NamespaceExact(name: seq<Byte>)
    ensures Namespace(name) == 0x1_0000_0000 <==> PaddedText(name, [67, 79, 82, 69])
    ensures Namespace(name) == 0x2_0000_0000 <==> PaddedText(name, [76, 73, 78, 85, 88])
    ensures Namespace(name) == 0x3_0000_0000 <==> PaddedText(name, [71, 78, 85])
    ensures Namespace(name) == 0x4_0000_0000 <==> PaddedText(name, [71, 111])
    ensures Namespace(name) in {0, 0x1_0000_0000, 0x2_0000_0000, 0x3_0000_0000, 0x4_0000_0000}
  {
    TrimmedIs(name, [67, 79, 82, 69]);
    TrimmedIs(name, [76, 73, 78, 85, 88]);
    TrimmedIs(name, [71, 78, 85]);
    TrimmedIs(name, [71, 111]);
  }

  /** A name that does not fit the buffer is skipped unread. */
  function NoteId(n: Note): nat {
    (if AlignNoteSize(|n.name|) > BUFFER_SIZE then NAMESPACE_UNKNOWN else Namespace(n.name)) + n.typ
  }

  // ------------------------------------------------------------------ what the parser does with any bytes

  datatype Outcome = Stopped | NoteNotFound | Unreadable

  datatype Call = Call(id: nat, desc: seq<Byte>)

  datatype Parsed = Parsed(calls: seq<Call>, outcome: Outcome)

  datatype NameResult = NoName | Name(id: nat, rest: seq<Byte>)

  function ReadName(namesz: nat, rest: seq<Byte>): NameResult {
    var size := AlignNoteSize(namesz);
    if size > |rest| then NoName
    else if size > BUFFER_SIZE then Name(NAMESPACE_UNKNOWN, rest[size..])
    else Name(Namespace(rest[..namesz]), rest[size..])
  }

  datatype DescResult = NoDesc | Desc(desc: seq<Byte>, store: seq<Byte>, rest: seq<Byte>)

  /** A description that fits is read whole; a longer one goes to a separate store and may come up short. */
  function ReadDesc(descsz: nat, rest: seq<Byte>, store: seq<Byte>, covered: bool): DescResult {
    var size := AlignNoteSize(descsz);
    if size <= BUFFER_SIZE then
      if size > |rest| then NoDesc else Desc(rest[..descsz], store, rest[size..])
    else
      var n := Min(size, |rest|);
      if ReadError(size, n, covered) != NoError then NoDesc
      else
        var store' := Overlaid(rest[..n], if |store| < size then Zeros(size) else store);
        Desc(store'[..descsz], store', rest[n..])
  }

  datatype PartsResult = NoParts | Parts(id: nat, desc: seq<Byte>, store: seq<Byte>, rest: seq<Byte>)

  datatype Step = Failed(outcome: Outcome) | OneNote(call: Call, hdr: seq<Byte>, store: seq<Byte>, rest: seq<Byte>)

  /** One note; header bytes and store are left over from the note before. */
  function ParseOne(rest: seq<Byte>, covered: bool, hdr: seq<Byte>, store: seq<Byte>): (s: Step)
    requires |hdr| == 12
    ensures s.OneNote? ==> |s.hdr| == 12 && |s.rest| < |rest|
  {
    var n := Min(12, |rest|);
    if ReadError(12, n, covered) != NoError then Failed(if n == 0 then NoteNotFound else Unreadable)
    else ParseBody(rest[n..], covered, Overlaid(rest[..n], hdr), store)
  }

  /** Name and description of a note whose header is known. */
  function ParseBody(rest: seq<Byte>, covered: bool, hdr: seq<Byte>, store: seq<Byte>): (s: Step)
    requires |hdr| == 12
    ensures s.OneNote? ==> s.hdr == hdr && |s.rest| <= |rest|
  {
    match ParseParts(rest, covered, Word32At(hdr, 0), Word32At(hdr, 4), store)
    case NoParts => Failed(Unreadable)
    case Parts(id, desc, store', rest') => OneNote(Call(id + Word32At(hdr, 8), desc), hdr, store', rest')
  }

  function ParseParts(rest: seq<Byte>, covered: bool, namesz: nat, descsz: nat, store: seq<Byte>): (r: PartsResult)
    ensures r.Parts? ==> |r.rest| <= |rest|
  {
    match ReadName(namesz, rest)
    case NoName => NoParts
    case Name(id, rest1) =>
      match ReadDesc(descsz, rest1, store, covered)
      case NoDesc => NoParts
      case Desc(desc, store', rest2) => Parts(id, desc, store', rest2)
  }

  function Parse(rest: seq<Byte>, covered: bool, hdr: seq<Byte>, store: seq<Byte>, visitor: (nat, seq<Byte>) -> bool): Parsed
    requires |hdr| == 12
    decreases |rest|
  {
    match ParseOne(rest, covered, hdr, store)
    case Failed(outcome) => Parsed([], outcome)
    case OneNote(call, hdr', store', rest') =>
      if !visitor(call.id, call.desc) then Parsed([call], Stopped)
      else
        var more := Parse(rest', covered, hdr', store', visitor);
        Parsed([call] + more.calls, more.outcome)
  }

  // ------------------------------------------------------------------ the notes laid out in a byte string

  /** A complete note stands in front: its header, its name and its description with their padding. */
  predicate Whole(b: seq<Byte>) {
    |b| >= 12 && 12 + AlignNoteSize(Word32At(b, 0)) + AlignNoteSize(Word32At(b, 4)) <= |b|
  }

  /** Where the description of the note in front starts. */
  function DescAt(b: seq<Byte>): nat
    requires |b| >= 12
  {
    12 + AlignNoteSize(Word32At(b, 0))
  }

  function NoteAt(b: seq<Byte>): Note
    requires Whole(b)
  {
    Note(b[12..12 + Word32At(b, 0)], Word32At(b, 8), b[DescAt(b)..DescAt(b) + Word32At(b, 4)])
  }

  function Behind(b: seq<Byte>): (r: seq<Byte>)
    requires Whole(b)
    ensures |r| < |b|
  {
    b[DescAt(b) + AlignNoteSize(Word32At(b, 4))..]
  }

  /** The notes of a byte string, read by their sizes alone. */
  function NotesIn(b: seq<Byte>): seq<Note>
    decreases |b|
  {
    if Whole(b) then [NoteAt(b)] + NotesIn(Behind(b)) else []
  }

  /** What is left behind them. */
  function TailIn(b: seq<Byte>): (t: seq<Byte>)
    ensures !Whole(t)
    decreases |b|
  {
    if Whole(b) then TailIn(Behind(b)) else b
  }

  /** The header of the last of them, or `hdr` if there is none. */
  function LastHeader(b: seq<Byte>, hdr: seq<Byte>): (h: seq<Byte>)
    requires |hdr| == 12
    ensures |h| == 12
    decreases |b|
  {
    if Whole(b) then LastHeader(Behind(b), b[..12]) else hdr
  }

  /** The calls a visitor should see: every note in order, up to the first one it rejects. */
  function Expected(ns: seq<Note>, visitor: (nat, seq<Byte>) -> bool): (p: Parsed)
    ensures p.outcome == Stopped || (p.outcome == NoteNotFound && |p.calls| == |ns|)
  {
    if ns == [] then Parsed([], NoteNotFound)
    else
      var call := Call(NoteId(ns[0]), ns[0].desc);
      if !visitor(call.id, call.desc) then Parsed([call], Stopped)
      else
        var more := Expected(ns[1..], visitor);
        Parsed([call] + more.calls, more.outcome)
  }

  /**
   Bytes behind the last note that the parser takes for another one: less than a header that the
   last header completes to a note with neither name nor description, or the start of a description
   too long for the buffer.
   */
  predicate Phantom(tail: seq<Byte>, covered: bool, last: seq<Byte>)
    requires |last| == 12
  {
    && covered && tail != []
    && if |tail| < 12 then Word32At(Overlaid(tail, last), 0) == Word32At(Overlaid(tail, last), 4) == 0
       else AlignNoteSize(Word32At(tail, 4)) > BUFFER_SIZE && DescAt(tail) < |tail|
  }

  /** What the visitor is told of it: the bytes that are there come first in the description. */
  predicate PhantomCall(tail: seq<Byte>, last: seq<Byte>, call: Call)
    requires |last| == 12
  {
    if |tail| < 12 then call == Call(Word32At(Overlaid(tail, last), 8), [])
    else
      && |call.desc| == Word32At(tail, 4)
      && DescAt(tail) <= |tail| && Agree(call.desc, tail[DescAt(tail)..])
  }

  predicate Agree(a: seq<Byte>, b: seq<Byte>) {
    var n := Min(|a|, |b|);
    a[..n] == b[..n]
  }

  /** The parser makes one call for a complete note and goes on behind it. */
  lemma WholeParsed(b: seq<Byte>, covered: bool, hdr: seq<Byte>, store: seq<Byte>)
    requires Whole(b) && |hdr| == 12
    ensures var s := ParseOne(b, covered, hdr, store); var n := NoteAt(b);
            s.OneNote? && s.call == Call(NoteId(n), n.desc) && s.hdr == b[..12] && s.rest == Behind(b)
  {
    var namesz, descsz := Word32At(b, 0), Word32At(b, 4);
    HeaderRead(b, hdr);
    WholeName(b, namesz);
    WholeDesc(b[DescAt(b)..], descsz, store, covered);
    assert b[DescAt(b)..][AlignNoteSize(descsz)..] == Behind(b);
    assert b[DescAt(b)..][..descsz] == NoteAt(b).desc;
  }

  lemma HeaderRead(b: seq<Byte>, hdr: seq<Byte>)
    requires |hdr| == 12 <= |b|
    ensures Overlaid(b[..12], hdr) == b[..12]
    ensures forall i :: 0 <= i <= 8 ==> Word32At(b[..12], i) == Word32At(b, i)
  {
    forall i | 0 <= i <= 8 ensures Word32At(b[..12], i) == Word32At(b, i) {
      assert b[..12][i..i + 4] == b[i..i + 4];
    }
  }

  lemma WholeName(b: seq<Byte>, namesz: nat)
    requires Whole(b) && namesz == Word32At(b, 0)
    ensures ReadName(namesz, b[12..]) == Name(NoteId(NoteAt(b)) - Word32At(b, 8), b[DescAt(b)..])
  {
    assert b[12..][..namesz] == NoteAt(b).name;
    assert b[12..][AlignNoteSize(namesz)..] == b[DescAt(b)..];
  }

  lemma WholeDesc(rest: seq<Byte>, descsz: nat, store: seq<Byte>, covered: bool)
    requires AlignNoteSize(descsz) <= |rest|
    ensures var r := ReadDesc(descsz, rest, store, covered);
            r.Desc? && r.desc == rest[..descsz] && r.rest == rest[AlignNoteSize(descsz)..]
  {
    var size := AlignNoteSize(descsz);
    if size > BUFFER_SIZE {
      var store' := Overlaid(rest[..size], if |store| < size then Zeros(size) else store);
      assert store'[..descsz] == rest[..descsz];
    }
  }

  /** Less than a header. */
  lemma ShortTail(tail: seq<Byte>, covered: bool, hdr: seq<Byte>, store: seq<Byte>)
    requires |hdr| == 12 && 0 < |tail| < 12
    ensures var s := ParseOne(tail, covered, hdr, store);
            if Phantom(tail, covered, hdr) then s.OneNote? && PhantomCall(tail, hdr, s.call) && s.rest == []
            else s == Failed(Unreadable)
  {
    assert tail[..|tail|] == tail && tail[|tail|..] == [];
    if covered {
      NothingBehind(Overlaid(tail, hdr), store);
    }
  }

  lemma NothingBehind(h: seq<Byte>, store: seq<Byte>)
    requires |h| == 12
    ensures ParseBody([], true, h, store)
         == if Word32At(h, 0) == Word32At(h, 4) == 0 then OneNote(Call(Word32At(h, 8), []), h, store, []) else Failed(Unreadable)
  {
    EmptyName(Word32At(h, 0));
    EmptyDesc(Word32At(h, 4), store);
  }

  lemma EmptyName(namesz: nat)
    ensures ReadName(namesz, []) == if namesz == 0 then Name(NAMESPACE_UNKNOWN, []) else NoName
  {
    assert TrimZeros([]) == [];
  }

  lemma EmptyDesc(descsz: nat, store: seq<Byte>)
    ensures ReadDesc(descsz, [], store, true) == if descsz == 0 then Desc([], store, []) else NoDesc
  {
  }

  /** A header whose name or description is cut off. */
  lemma LongTail(tail: seq<Byte>, covered: bool, hdr: seq<Byte>, store: seq<Byte>)
    requires |hdr| == 12 <= |tail| && !Whole(tail)
    ensures var s := ParseOne(tail, covered, hdr, store);
            if Phantom(tail, covered, hdr) then s.OneNote? && PhantomCall(tail, hdr, s.call) && s.rest == []
            else s == Failed(Unreadable)
  {
    HeaderRead(tail, hdr);
    if DescAt(tail) <= |tail| {
      var rest := tail[DescAt(tail)..];
      assert tail[12..][AlignNoteSize(Word32At(tail, 0))..] == rest;
      CutDesc(rest, Word32At(tail, 4), store, covered);
    }
  }

  lemma CutDesc(rest: seq<Byte>, descsz: nat, store: seq<Byte>, covered: bool)
    requires |rest| < AlignNoteSize(descsz)
    ensures var r := ReadDesc(descsz, rest, store, covered);
            if covered && AlignNoteSize(descsz) > BUFFER_SIZE && rest != []
            then r.Desc? && |r.desc| == descsz && Agree(r.desc, rest) && r.rest == []
            else r == NoDesc
  {
    var size := AlignNoteSize(descsz);
    assert rest[..|rest|] == rest && rest[|rest|..] == [];
    if covered && size > BUFFER_SIZE && rest != [] {
      var store' := Overlaid(rest, if |store| < size then Zeros(size) else store);
      var n := Min(descsz, |rest|);
      assert store'[..descsz][..n] == rest[..n];
    }
  }

  /** The parser's calls on any bytes, with any header and store left over from before. */
  ghost predicate AsLaidOut(p: Parsed, b: seq<Byte>, covered: bool, hdr: seq<Byte>, visitor: (nat, seq<Byte>) -> bool)
    requires |hdr| == 12
  {
    var x, tail, last := Expected(NotesIn(b), visitor), TailIn(b), LastHeader(b, hdr);
    if x.outcome == Stopped then p == x
    else if Phantom(tail, covered, last) then
      && p.calls != [] && p.calls[..|p.calls| - 1] == x.calls
      && PhantomCall(tail, last, p.calls[|p.calls| - 1]) && p.outcome in {Stopped, NoteNotFound}
    else p == Parsed(x.calls, if tail == [] then NoteNotFound else Unreadable)
  }

  /**
   On every byte string the visitor sees the notes laid out in it, in order and up to the first it
   rejects, and one note more exactly if it accepts them all and the bytes behind them are a phantom.
   */
  lemma {:induction false} ParseExact(b: seq<Byte>, covered: bool, hdr: seq<Byte>, store: seq<Byte>, visitor: (nat, seq<Byte>) -> bool)
    requires |hdr| == 12
    ensures AsLaidOut(Parse(b, covered, hdr, store, visitor), b, covered, hdr, visitor)
    decreases |b|
  {
    var s := ParseOne(b, covered, hdr, store);
    if Whole(b) {
      WholeParsed(b, covered, hdr, store);
      if visitor(s.call.id, s.call.desc) {
        ParseExact(s.rest, covered, s.hdr, s.store, visitor);
        OneMore(b, covered, hdr, Parse(s.rest, covered, s.hdr, s.store, visitor), visitor);
      }
    } else if b == [] {
      assert s == Failed(NoteNotFound);
    } else {
      if |b| < 12 {
        ShortTail(b, covered, hdr, store);
      } else {
        LongTail(b, covered, hdr, store);
      }
    }
  }

  lemma OneMore(b: seq<Byte>, covered: bool, hdr: seq<Byte>, more: Parsed, visitor: (nat, seq<Byte>) -> bool)
    requires |hdr| == 12 && Whole(b) && AsLaidOut(more, Behind(b), covered, b[..12], visitor)
    requires visitor(NoteId(NoteAt(b)), NoteAt(b).desc)
    ensures AsLaidOut(Parsed([Call(NoteId(NoteAt(b)), NoteAt(b).desc)] + more.calls, more.outcome), b, covered, hdr, visitor)
  {
    var call := Call(NoteId(NoteAt(b)), NoteAt(b).desc);
    var calls := [call] + more.calls;
    assert NotesIn(b)[0] == NoteAt(b) && NotesIn(b)[1..] == NotesIn(Behind(b));
    if more.calls != [] {
      assert calls[..|calls| - 1] == [call] + more.calls[..|more.calls| - 1];
    }
  }

  /** When a visitor sees more notes than there are. */
  lemma MoreThanThere(b: seq<Byte>, covered: bool, hdr: seq<Byte>, store: seq<Byte>, visitor: (nat, seq<Byte>) -> bool)
    requires |hdr| == 12
    ensures |Parse(b, covered, hdr, store, visitor).calls| > |NotesIn(b)|
       <==> Expected(NotesIn(b), visitor).outcome != Stopped && Phantom(TailIn(b), covered, LastHeader(b, hdr))
  {
    ParseExact(b, covered, hdr, store, visitor);
    NotMore(NotesIn(b), visitor);
  }

  lemma {:induction false} NotMore(ns: seq<Note>, visitor: (nat, seq<Byte>) -> bool)
    ensures |Expected(ns, visitor).calls| <= |ns|
  {
    if ns != [] {
      NotMore(ns[1..], visitor);
    }
  }

  // ------------------------------------------------------------------ round trip

  lemma HeaderFields(n: Note)
    requires GoodNote(n)
    ensures Word32At(Header(n), 0) == |n.name| && Word32At(Header(n), 4) == |n.desc| && Word32At(Header(n), 8) == n.typ
  {
    var a, b, c := LeBytes(|n.name|, 4), LeBytes(|n.desc|, 4), LeBytes(n.typ, 4);
    ThreeSlices(a, b, c);
    Pow256Values();
    LeRoundTrip(|n.name|, 4);
    LeRoundTrip(|n.desc|, 4);
    LeRoundTrip(n.typ, 4);
  }

  lemma ThreeSlices(a: seq<Byte>, b: seq<Byte>, c: seq<Byte>)
    requires |a| == |b| == |c| == 4
    ensures (a + b + c)[0..4] == a && (a + b + c)[4..8] == b && (a + b + c)[8..12] == c
  {
  }

  /** A note that has been laid out is there, with nothing of it left behind. */
  lemma NoteLaidOut(n: Note, rest: seq<Byte>)
    requires GoodNote(n)
    ensures var b := EncodeNote(n) + rest; Whole(b) && NoteAt(b) == n && Behind(b) == rest && b[..12] == Header(n)
  {
    var h, p, d := Header(n), Padded(n.name), Padded(n.desc);
    var b := EncodeNote(n) + rest;
    assert b == h + (p + (d + rest)) && b == (h + p) + (d + rest);
    LaidOutHeader(n, b, p + (d + rest));
    Between(h, p, d + rest, |n.name|);
    Between(h + p, d, rest, |n.desc|);
  }

  lemma LaidOutHeader(n: Note, b: seq<Byte>, body: seq<Byte>)
    requires GoodNote(n) && b == Header(n) + body
    ensures b[..12] == Header(n) && |b| >= 12
    ensures Word32At(b, 0) == |n.name| && Word32At(b, 4) == |n.desc| && Word32At(b, 8) == n.typ
  {
    HeaderFields(n);
    assert b[..12] == Header(n);
    HeaderRead(b, Header(n));
  }

  lemma Between(a: seq<Byte>, b: seq<Byte>, c: seq<Byte>, n: nat)
    requires n <= |b|
    ensures (a + (b + c))[|a|..|a| + n] == b[..n] && (a + (b + c))[|a| + |b|..] == c
  {
  }

  /** The notes of a layout with anything behind it. */
  lemma {:induction false} NotesLaidOut(ns: seq<Note>, tail: seq<Byte>)
    requires (forall i :: 0 <= i < |ns| ==> GoodNote(ns[i])) && !Whole(tail)
    ensures NotesIn(EncodeAll(ns) + tail) == ns && TailIn(EncodeAll(ns) + tail) == tail
    decreases |ns|
  {
    var b := EncodeAll(ns) + tail;
    if ns == [] {
      assert b == tail;
    } else {
      var more := EncodeAll(ns[1..]) + tail;
      assert b == EncodeNote(ns[0]) + more;
      NoteLaidOut(ns[0], more);
      NotesLaidOut(ns[1..], tail);
    }
  }

  /** Whatever was left over before, a laid out list of notes is visited note by note. */
  lemma NotesRoundTrip(ns: seq<Note>, covered: bool, hdr: seq<Byte>, store: seq<Byte>, visitor: (nat, seq<Byte>) -> bool)
    requires |hdr| == 12 && forall i :: 0 <= i < |ns| ==> GoodNote(ns[i])
    ensures Parse(EncodeAll(ns), covered, hdr, store, visitor) == Expected(ns, visitor)
  {
    NotesLaidOut(ns, []);
    assert EncodeAll(ns) + [] == EncodeAll(ns);
    ParseExact(EncodeAll(ns), covered, hdr, store, visitor);
  }

  /** Four zero bytes behind a note without name and description: the visitor sees that note twice. */
  lemma TruncatedHeader(t: Word32, hdr: seq<Byte>, visitor: (nat, seq<Byte>) -> bool)
    requires |hdr| == 12 && visitor(t, [])
    ensures var b := EncodeAll([Note([], t, [])]) + [0, 0, 0, 0];
            |NotesIn(b)| == 1 && Parse(b, true, hdr, [], visitor).calls == [Call(t, []), Call(t, [])]
  {
    var n, tail: seq<Byte> := Note([], t, []), [0, 0, 0, 0];
    var b := EncodeAll([n]) + tail;
    NotesLaidOut([n], tail);
    TailBehind(t, b, hdr);
    ParseExact(b, true, hdr, [], visitor);
    JustOne(n, visitor);
    TwoCalls(Parse(b, true, hdr, [], visitor).calls, Call(t, []));
  }

  lemma TwoCalls(calls: seq<Call>, c: Call)
    requires calls != [] && calls[..|calls| - 1] == [c] && calls[|calls| - 1] == c
    ensures calls == [c, c]
  {
    assert calls == calls[..|calls| - 1] + [c];
  }

  lemma JustOne(n: Note, visitor: (nat, seq<Byte>) -> bool)
    requires n.name == n.desc == [] && visitor(n.typ, [])
    ensures Expected([n], visitor) == Parsed([Call(n.typ, [])], NoteNotFound)
  {
    assert Namespace([]) == NAMESPACE_UNKNOWN;
    assert Expected([n][1..], visitor) == Parsed([], NoteNotFound);
  }

  lemma TailBehind(t: Word32, b: seq<Byte>, hdr: seq<Byte>)
    requires |hdr| == 12 && b == EncodeAll([Note([], t, [])]) + [0, 0, 0, 0]
    ensures LastHeader(b, hdr) == Header(Note([], t, []))
    ensures Phantom([0, 0, 0, 0], true, LastHeader(b, hdr)) && Word32At(Overlaid([0, 0, 0, 0], LastHeader(b, hdr)), 8) == t
  {
    var n, tail: seq<Byte> := Note([], t, []), [0, 0, 0, 0];
    assert EncodeAll([n]) == EncodeNote(n) + [];
    assert b == EncodeNote(n) + tail;
    NoteLaidOut(n, tail);
    assert LastHeader(b, hdr) == LastHeader(tail, Header(n)) == Header(n);
    HeaderFields(n);
    ZerosOverlaid(t);
  }

  lemma ZerosOverlaid(t: Word32)
    ensures Overlaid([0, 0, 0, 0], Header(Note([], t, []))) == Header(Note([], t, []))
  {
    assert LeBytes(0, 2) == [0, 0];
    assert LeBytes(0, 4) == [0, 0, 0, 0];
  }

  /** A header that announces 65540 bytes, and four of them: the visitor is handed 65540 bytes. */
  lemma CutDescription(t: Word32, some: seq<Byte>, visitor: (nat, seq<Byte>) -> bool)
    requires |some| == 4
    ensures var h := LeBytes(0, 4) + LeBytes(65540, 4) + LeBytes(t, 4);
            var p := Parse(h + some, true, Zeros(12), [], visitor);
            NotesIn(h + some) == [] && |p.calls| == 1 && |p.calls[0].desc| == 65540 && p.calls[0].desc[..4] == some
  {
    var h := Header(Note([], t, Zeros(65540)));
    HeaderFields(Note([], t, Zeros(65540)));
    HeaderRead(h + some, h);
    assert (h + some)[..12] == h && (h + some)[12..] == some;
    ParseExact(h + some, true, Zeros(12), [], visitor);
  }

  // ------------------------------------------------------------------ the parser

  method VisitNotes(rdr: Reader, visitor: (nat, seq<Byte>) -> bool) returns (outcome: Outcome, calls: seq<Call>)
    requires rdr.Valid()
    modifies rdr, rdr.buf
    ensures rdr.Valid()
    ensures Parsed(calls, outcome) == Parse(RestOf(old(rdr.Now())), Covered(old(rdr.Now())), Zeros(12), [], visitor)
  {
    calls := [];
    var note, store: seq<Byte> := Zeros(12), [];
    ghost var v0 := rdr.Now();
    ghost var covered := Covered(v0);
    ghost var whole := Parse(RestOf(v0), covered, note, store, visitor);
    assert whole == Then([], whole);
    while true
      invariant rdr.Valid() && |note| == 12 && Covered(rdr.Now()) == covered
      invariant whole == Then(calls, Parse(RestOf(rdr.Now()), covered, note, store, visitor))
      decreases Left(rdr.Now())
    {
      ParseStep(RestOf(rdr.Now()), covered, note, store, visitor, calls);
      var ok, call, note', store';
      ok, outcome, call, note', store' := VisitOne(rdr, note, store);
      if !ok {
        return;
      }
      calls, note, store := calls + [call], note', store';
      if !visitor(call.id, call.desc) {
        return Stopped, calls;
      }
    }
  }

  /** What is parsed after some calls have been made. */
  ghost function Then(calls: seq<Call>, more: Parsed): Parsed {
    Parsed(calls + more.calls, more.outcome)
  }

  lemma ParseStep(rest: seq<Byte>, covered: bool, hdr: seq<Byte>, store: seq<Byte>, visitor: (nat, seq<Byte>) -> bool, calls: seq<Call>)
    requires |hdr| == 12
    ensures Then(calls, Parse(rest, covered, hdr, store, visitor))
         == match ParseOne(rest, covered, hdr, store)
            case Failed(outcome) => Parsed(calls, outcome)
            case OneNote(call, hdr', store', rest') =>
              if !visitor(call.id, call.desc) then Parsed(calls + [call], Stopped)
              else Then(calls + [call], Parse(rest', covered, hdr', store', visitor))
  {
    var s := ParseOne(rest, covered, hdr, store);
    if s.OneNote? && visitor(s.call.id, s.call.desc) {
      OneByOne(calls, s.call, Parse(s.rest, covered, s.hdr, s.store, visitor).calls);
    }
  }

  lemma OneByOne(calls: seq<Call>, call: Call, more: seq<Call>)
    ensures calls + ([call] + more) == (calls + [call]) + more
  {
  }

  /** Reads one note: header, name and description. */
  method VisitOne(rdr: Reader, note: seq<Byte>, store: seq<Byte>)
    returns (ok: bool, failure: Outcome, call: Call, note': seq<Byte>, store': seq<Byte>)
    requires rdr.Valid() && |note| == 12
    modifies rdr, rdr.buf
    ensures rdr.Valid() && Covered(rdr.Now()) == Covered(old(rdr.Now()))
    ensures ParseOne(RestOf(old(rdr.Now())), Covered(old(rdr.Now())), note, store)
         == if ok then OneNote(call, note', store', RestOf(rdr.Now())) else Failed(failure)
    ensures ok ==> |note'| == 12 && Left(rdr.Now()) < Left(old(rdr.Now()))
  {
    ghost var v := rdr.Now();
    RestSplits(v);
    failure, call, note', store' := Unreadable, Call(0, []), note, store;
    var got, err := rdr.Read(12);
    AdvancedRest(v, rdr.Now(), |got|);
    ok := err == NoError;
    if !ok {
      failure := if got == [] then NoteNotFound else Unreadable;
      return;
    }
    note' := Overlaid(got, note);
    ok, call, store' := VisitBody(rdr, note', store);
  }

  method VisitBody(rdr: Reader, note: seq<Byte>, store: seq<Byte>) returns (ok: bool, call: Call, store': seq<Byte>)
    requires rdr.Valid() && |note| == 12
    modifies rdr, rdr.buf
    ensures rdr.Valid() && Covered(rdr.Now()) == Covered(old(rdr.Now())) && Left(rdr.Now()) <= Left(old(rdr.Now()))
    ensures ParseBody(RestOf(old(rdr.Now())), Covered(old(rdr.Now())), note, store)
         == if ok then OneNote(call, note, store', RestOf(rdr.Now())) else Failed(Unreadable)
  {
    var id, desc;
    ok, id, desc, store' := VisitParts(rdr, Word32At(note, 0), Word32At(note, 4), store);
    call := Call(id + Word32At(note, 8), desc);
  }

  method VisitParts(rdr: Reader, namesz: nat, descsz: nat, store: seq<Byte>)
    returns (ok: bool, id: nat, desc: seq<Byte>, store': seq<Byte>)
    requires rdr.Valid()
    modifies rdr, rdr.buf
    ensures rdr.Valid() && Covered(rdr.Now()) == Covered(old(rdr.Now())) && Left(rdr.Now()) <= Left(old(rdr.Now()))
    ensures ParseParts(RestOf(old(rdr.Now())), Covered(old(rdr.Now())), namesz, descsz, store)
         == if ok then Parts(id, desc, store', RestOf(rdr.Now())) else NoParts
  {
    desc, store' := [], store;
    id, ok := VisitName(rdr, namesz);
    if ok {
      desc, store', ok := VisitDesc(rdr, descsz, store);
    }
  }

  method VisitName(rdr: Reader, namesz: nat) returns (id: nat, ok: bool)
    requires rdr.Valid()
    modifies rdr, rdr.buf
    ensures rdr.Valid() && Left(rdr.Now()) <= Left(old(rdr.Now())) && Covered(rdr.Now()) == Covered(old(rdr.Now()))
    ensures ReadName(namesz, RestOf(old(rdr.Now()))) == if ok then Name(id, RestOf(rdr.Now())) else NoName
  {
    ghost var v := rdr.Now();
    RestSplits(v);
    id := NAMESPACE_UNKNOWN;
    var size := AlignNoteSize(namesz);
    var name, err := rdr.ReadN(size);
    if err == NoError {
      AdvancedRest(v, rdr.Now(), size);
      id := Namespace(name[..namesz]);
      assert name[..namesz] == RestOf(v)[..namesz];
      return id, true;
    }
    if err != BufferTooSmall {
      return 0, false;
    }
    AdvancedRest(v, rdr.Now(), 0);
    ghost var w := rdr.Now();
    var discarded;
    discarded, err := rdr.Discard(size);
    AdvancedRest(w, rdr.Now(), discarded);
    ok := err == NoError;
  }

  method VisitDesc(rdr: Reader, descsz: nat, store: seq<Byte>) returns (desc: seq<Byte>, store': seq<Byte>, ok: bool)
    requires rdr.Valid()
    modifies rdr, rdr.buf
    ensures rdr.Valid() && Left(rdr.Now()) <= Left(old(rdr.Now())) && Covered(rdr.Now()) == Covered(old(rdr.Now()))
    ensures ReadDesc(descsz, RestOf(old(rdr.Now())), store, Covered(old(rdr.Now())))
         == if ok then Desc(desc, store', RestOf(rdr.Now())) else NoDesc
  {
    ghost var v := rdr.Now();
    RestSplits(v);
    var size := AlignNoteSize(descsz);
    store' := store;
    var whole, err := rdr.ReadN(size);
    if err == NoError {
      AdvancedRest(v, rdr.Now(), size);
      desc := whole[..descsz];
      assert desc == RestOf(v)[..descsz];
      return desc, store', true;
    }
    if err != BufferTooSmall {
      return [], store', false;
    }
    AdvancedRest(v, rdr.Now(), 0);
    assert RestOf(v)[0..] == RestOf(v);
    desc, store', ok := VisitLongDesc(rdr, descsz, store);
  }

  /** A description that does not fit the buffer goes to the store. */
  method VisitLongDesc(rdr: Reader, descsz: nat, store: seq<Byte>) returns (desc: seq<Byte>, store': seq<Byte>, ok: bool)
    requires rdr.Valid() && AlignNoteSize(descsz) > BUFFER_SIZE
    modifies rdr, rdr.buf
    ensures rdr.Valid() && Left(rdr.Now()) <= Left(old(rdr.Now())) && Covered(rdr.Now()) == Covered(old(rdr.Now()))
    ensures ReadDesc(descsz, RestOf(old(rdr.Now())), store, Covered(old(rdr.Now())))
         == if ok then Desc(desc, store', RestOf(rdr.Now())) else NoDesc
  {
    ghost var w := rdr.Now();
    RestSplits(w);
    var size := AlignNoteSize(descsz);
    store' := store;
    if |store'| < size {
      store' := Zeros(size);
    }
    var got, err := rdr.Read(size);
    AdvancedRest(w, rdr.Now(), |got|);
    if err != NoError {
      return [], store', false;
    }
    store' := Overlaid(got, store');
    return store'[..descsz], store', true;
  }
}
