/**
 The pprof profile encoder (internal/pprofout/pprofout.go): what `Builder` writes decodes, under the
 wire format and the field numbers of profile.proto, to the stacks that were added.
 */
module Pprof {
  import opened Words
  import opened Bytes
  import opened Protobuf
  import opened Wrappers

  datatype Frame = Frame(name: Str, filename: Str, line: int)

  /** Frames from leaf to root, and how often the stack was seen. */
  datatype Stack = Stack(frames: seq<Frame>, count: nat)

  function IndexIn<T(==)>(s: seq<T>, x: T): (i: nat)
    requires x in s
    ensures i < |s| && s[i] == x && x !in s[..i]
  {
    if s[|s| - 1] == x && x !in s[..|s| - 1] then |s| - 1
    else
      assert s == s[..|s| - 1] + [s[|s| - 1]];
      var i := IndexIn(s[..|s| - 1], x);
      assert s[..i] == s[..|s| - 1][..i];
      i
  }

  /** Appending does not move what is already there. */
  lemma IndexStable<T>(s: seq<T>, more: seq<T>, x: T)
    requires x in s
    ensures x in s + more && IndexIn(s + more, x) == IndexIn(s, x)
  {
    var t := s + more;
    var i, j := IndexIn(s, x), IndexIn(t, x);
    assert t[..i] == s[..i];
    InPrefix(t, x, i, j);
    InPrefix(t, x, j, i);
  }

  lemma InPrefix<T>(s: seq<T>, x: T, i: nat, j: nat)
    requires i < |s| && s[i] == x && j <= |s|
    ensures i < j ==> x in s[..j]
  {
    if i < j {
      assert s[..j][i] == x;
    }
  }

  // ------------------------------------------------------------------ what is written

  /** Strings, frames and stacks in the order in which they were first seen. */
  datatype Content = Content(strings: seq<Str>, frames: seq<Frame>, stacks: seq<Stack>)

  ghost predicate Known(c: Content, f: Frame) {
    f.name in c.strings && f.filename in c.strings
  }

  ghost predicate Good(c: Content) {
    && c.strings != [] && c.strings[0] == []
    && (forall i :: 0 <= i < |c.frames| ==> Known(c, c.frames[i]))
    && (forall i :: 0 <= i < |c.stacks| ==> GoodStack(c, c.stacks[i]))
  }

  ghost predicate GoodStack(c: Content, s: Stack) {
    s.frames != [] && s.count > 0 && forall i :: 0 <= i < |s.frames| ==> s.frames[i] in c.frames
  }

  function FunctionFields(strings: seq<Str>, id: nat, f: Frame): seq<Field>
    requires f.name in strings && f.filename in strings
  {
    var name := IndexIn(strings, f.name);
    [Varint(1, id), Varint(2, name), Varint(3, name)]
    + (if f.filename != [] then [Varint(4, IndexIn(strings, f.filename))] else [])
    + (if f.line > 0 then [Varint(5, f.line)] else [])
  }

  function LineFields(id: nat, f: Frame): seq<Field> {
    [Varint(1, id)] + (if f.line > 0 then [Varint(2, f.line)] else [])
  }

  function LocationFields(id: nat, f: Frame): seq<Field> {
    [Varint(1, id), Len(4, EncFields(LineFields(id, f)))]
  }

  function LocationIds(frames: seq<Frame>, fs: seq<Frame>): (ids: seq<nat>)
    requires forall i :: 0 <= i < |fs| ==> fs[i] in frames
    ensures |ids| == |fs|
    ensures forall i :: 0 <= i < |fs| ==> ids[i] == IndexIn(frames, fs[i]) + 1
  {
    seq(|fs|, i requires 0 <= i < |fs| => IndexIn(frames, fs[i]) + 1)
  }

  function SampleFields(frames: seq<Frame>, s: Stack): seq<Field>
    requires forall i :: 0 <= i < |s.frames| ==> s.frames[i] in frames
  {
    [Len(1, EncPacked(LocationIds(frames, s.frames))), Len(2, EncPacked([s.count]))]
  }

  function SampleTypeFields(strings: seq<Str>): seq<Field>
    requires SAMPLES in strings && COUNT in strings
  {
    [Varint(1, IndexIn(strings, SAMPLES)), Varint(2, IndexIn(strings, COUNT))]
  }

  const SAMPLES: Str := [115, 97, 109, 112, 108, 101, 115]
  const COUNT: Str := [99, 111, 117, 110, 116]

  /** The function message of frame `i`. */
  ghost function FunctionMessage(c: Content, i: nat): seq<Byte>
    requires Good(c) && i < |c.frames|
  {
    assert Known(c, c.frames[i]);
    EncFields(FunctionFields(c.strings, i + 1, c.frames[i]))
  }

  ghost function FunctionBytes(c: Content, n: nat): (bs: seq<seq<Byte>>)
    requires Good(c) && n <= |c.frames|
    ensures |bs| == n
    ensures forall i :: 0 <= i < n ==> bs[i] == FunctionMessage(c, i)
  {
    seq(n, i requires 0 <= i < n && Good(c) && n <= |c.frames| => FunctionMessage(c, i))
  }

  ghost function LocationBytes(c: Content, n: nat): (bs: seq<seq<Byte>>)
    requires n <= |c.frames|
    ensures |bs| == n
    ensures forall i :: 0 <= i < n ==> bs[i] == EncFields(LocationFields(i + 1, c.frames[i]))
  {
    seq(n, i requires 0 <= i < n && n <= |c.frames| => EncFields(LocationFields(i + 1, c.frames[i])))
  }

  ghost function SampleBytes(c: Content, n: nat): (bs: seq<seq<Byte>>)
    requires Good(c) && n <= |c.stacks|
    ensures |bs| == n
    ensures forall i :: 0 <= i < n ==> GoodStack(c, c.stacks[i]) && bs[i] == EncFields(SampleFields(c.frames, c.stacks[i]))
  {
    seq(n, i requires 0 <= i < n && Good(c) && n <= |c.stacks| => assert GoodStack(c, c.stacks[i]); EncFields(SampleFields(c.frames, c.stacks[i])))
  }

  function Tagged(num: nat, bs: seq<seq<Byte>>): (fs: seq<Field>)
    ensures |fs| == |bs|
    ensures forall i :: 0 <= i < |bs| ==> fs[i] == Len(num, bs[i])
  {
    seq(|bs|, i requires 0 <= i < |bs| => Len(num, bs[i]))
  }

  /** The message body: sample type, samples, locations, functions, strings, time and duration. */
  ghost function ProfileFields(c: Content, time: Word, duration: nat): seq<Field>
    requires Good(c) && SAMPLES in c.strings && COUNT in c.strings
  {
    [Len(1, EncFields(SampleTypeFields(c.strings)))]
    + Tagged(2, SampleBytes(c, |c.stacks|))
    + Tagged(4, LocationBytes(c, |c.frames|))
    + Tagged(5, FunctionBytes(c, |c.frames|))
    + Tagged(6, c.strings)
    + [Varint(9, time)]
    + (if duration > 0 then [Varint(10, duration)] else [])
  }

  // ------------------------------------------------------------------ how a reader understands it

  datatype Line = Line(functionId: nat, line: nat)
  datatype Location = Location(id: nat, lines: seq<Line>)
  datatype Function = Function(id: nat, name: nat, systemName: nat, filename: nat, startLine: nat)
  datatype Sample = Sample(locationIds: seq<nat>, values: seq<nat>)
  datatype Profile = Profile(samples: seq<Sample>, locations: seq<Location>, functions: seq<Function>, strings: seq<Str>)

  /** A scalar field: the last occurrence counts, a missing one is zero. */
  function Scalar(fs: seq<Field>, num: nat): nat {
    if fs == [] then 0
    else
      var last := fs[|fs| - 1];
      if last.Varint? && last.num == num then last.v else Scalar(fs[..|fs| - 1], num)
  }

  /** A repeated length-delimited field. */
  function Repeated(fs: seq<Field>, num: nat): seq<seq<Byte>> {
    if fs == [] then []
    else
      var last, rest := fs[|fs| - 1], Repeated(fs[..|fs| - 1], num);
      if last.Len? && last.num == num then rest + [last.data] else rest
  }

  function DecodeAll<T>(bs: seq<seq<Byte>>, decode: seq<Byte> -> Option<T>): Option<seq<T>> {
    if bs == [] then Some([])
    else match (DecodeAll(bs[..|bs| - 1], decode), decode(bs[|bs| - 1]))
      case (Some(xs), Some(x)) => Some(xs + [x])
      case _ => None
  }

  function DecodeLine(b: seq<Byte>): Option<Line> {
    match DecMessage(b)
    case None => None
    case Some(fs) => Some(Line(Scalar(fs, 1), Scalar(fs, 2)))
  }

  function DecodeLocation(b: seq<Byte>): Option<Location> {
    match DecMessage(b)
    case None => None
    case Some(fs) =>
      match DecodeAll(Repeated(fs, 4), DecodeLine)
      case None => None
      case Some(lines) => Some(Location(Scalar(fs, 1), lines))
  }

  function DecodeFunction(b: seq<Byte>): Option<Function> {
    match DecMessage(b)
    case None => None
    case Some(fs) => Some(Function(Scalar(fs, 1), Scalar(fs, 2), Scalar(fs, 3), Scalar(fs, 4), Scalar(fs, 5)))
  }

  function Flattened(xss: seq<seq<nat>>): seq<nat> {
    if xss == [] then [] else Flattened(xss[..|xss| - 1]) + xss[|xss| - 1]
  }

  function DecodeSample(b: seq<Byte>): Option<Sample> {
    match DecMessage(b)
    case None => None
    case Some(fs) =>
      match (DecodeAll(Repeated(fs, 1), DecPacked), DecodeAll(Repeated(fs, 2), DecPacked))
      case (Some(ids), Some(values)) => Some(Sample(Flattened(ids), Flattened(values)))
      case _ => None
  }

  function DecodeProfile(b: seq<Byte>): Option<Profile> {
    match DecMessage(b)
    case None => None
    case Some(fs) =>
      match (DecodeAll(Repeated(fs, 2), DecodeSample), DecodeAll(Repeated(fs, 4), DecodeLocation), DecodeAll(Repeated(fs, 5), DecodeFunction))
      case (Some(samples), Some(locations), Some(functions)) =>
        Some(Profile(samples, locations, functions, Repeated(fs, 6)))
      case _ => None
  }

  /** What the values of a profile count, when it was written, and how long it took. */
  datatype Header = Header(sampleType: Str, unit: Str, time: nat, duration: nat)

  function DecodeHeader(b: seq<Byte>): Option<Header> {
    match DecMessage(b)
    case None => None
    case Some(fs) =>
      var types, strings := Repeated(fs, 1), Repeated(fs, 6);
      if |types| != 1 then None
      else match DecMessage(types[0])
        case None => None
        case Some(t) =>
          if Scalar(t, 1) < |strings| && Scalar(t, 2) < |strings|
          then Some(Header(strings[Scalar(t, 1)], strings[Scalar(t, 2)], Scalar(fs, 9), Scalar(fs, 10)))
          else None
  }

  // ------------------------------------------------------------------ following references

  function FindLocation(ls: seq<Location>, id: nat): Option<Location> {
    if ls == [] then None else if ls[0].id == id then Some(ls[0]) else FindLocation(ls[1..], id)
  }

  function FindFunction(fs: seq<Function>, id: nat): Option<Function> {
    if fs == [] then None else if fs[0].id == id then Some(fs[0]) else FindFunction(fs[1..], id)
  }

  /** The frame a location names: its line's function, with name and file out of the string table. */
  function ResolveLocation(p: Profile, id: nat): Option<Frame> {
    match FindLocation(p.locations, id)
    case None => None
    case Some(loc) =>
      if |loc.lines| != 1 then None
      else match FindFunction(p.functions, loc.lines[0].functionId)
        case None => None
        case Some(f) =>
          if f.name < |p.strings| && f.filename < |p.strings| && f.systemName == f.name && f.startLine == loc.lines[0].line
          then Some(Frame(p.strings[f.name], p.strings[f.filename], loc.lines[0].line))
          else None
  }

  function ResolveIds(p: Profile, ids: seq<nat>): Option<seq<Frame>> {
    if ids == [] then Some([])
    else match (ResolveIds(p, ids[..|ids| - 1]), ResolveLocation(p, ids[|ids| - 1]))
      case (Some(fs), Some(f)) => Some(fs + [f])
      case _ => None
  }

  function ResolveSample(p: Profile, s: Sample): Option<Stack> {
    if |s.values| != 1 then None
    else match ResolveIds(p, s.locationIds)
      case None => None
      case Some(fs) => Some(Stack(fs, s.values[0]))
  }

  function ResolveSamples(p: Profile, ss: seq<Sample>): Option<seq<Stack>> {
    if ss == [] then Some([])
    else match (ResolveSamples(p, ss[..|ss| - 1]), ResolveSample(p, ss[|ss| - 1]))
      case (Some(xs), Some(x)) => Some(xs + [x])
      case _ => None
  }

  /** A frame as the profile shows it: lines that are not positive are left out. */
  function ShownFrame(f: Frame): Frame {
    if f.line > 0 then f else f.(line := 0)
  }

  function ShownFrames(fs: seq<Frame>): (r: seq<Frame>)
    ensures |r| == |fs|
  {
    if fs == [] then [] else ShownFrames(fs[..|fs| - 1]) + [ShownFrame(fs[|fs| - 1])]
  }

  function ShownStacks(ss: seq<Stack>): seq<Stack> {
    if ss == [] then []
    else ShownStacks(ss[..|ss| - 1]) + [Stack(ShownFrames(ss[|ss| - 1].frames), ss[|ss| - 1].count)]
  }

  // ------------------------------------------------------------------ round trip

  lemma {:induction false} ScalarConcat(a: seq<Field>, b: seq<Field>, num: nat)
    requires forall i :: 0 <= i < |b| ==> !(b[i].Varint? && b[i].num == num)
    ensures Scalar(a + b, num) == Scalar(a, num)
  {
    if b == [] {
      assert a + b == a;
    } else {
      assert (a + b)[..|a + b| - 1] == a + b[..|b| - 1];
      ScalarConcat(a, b[..|b| - 1], num);
    }
  }

  lemma ScalarLast(a: seq<Field>, num: nat, v: nat)
    ensures Scalar(a + [Varint(num, v)], num) == v
  {
  }

  lemma ScalarIs(a: seq<Field>, num: nat, v: nat, b: seq<Field>)
    requires forall i :: 0 <= i < |b| ==> !(b[i].Varint? && b[i].num == num)
    ensures Scalar(a + [Varint(num, v)] + b, num) == v
  {
    ScalarConcat(a + [Varint(num, v)], b, num);
    ScalarLast(a, num, v);
  }

  lemma ScalarNone(fs: seq<Field>, num: nat)
    requires forall i :: 0 <= i < |fs| ==> !(fs[i].Varint? && fs[i].num == num)
    ensures Scalar(fs, num) == 0
  {
    assert [] + fs == fs;
    ScalarConcat([], fs, num);
  }

  lemma {:induction false} RepeatedConcat(a: seq<Field>, b: seq<Field>, num: nat)
    ensures Repeated(a + b, num) == Repeated(a, num) + Repeated(b, num)
  {
    if b == [] {
      assert a + b == a;
    } else {
      assert (a + b)[..|a + b| - 1] == a + b[..|b| - 1];
      RepeatedConcat(a, b[..|b| - 1], num);
    }
  }

  lemma {:induction false} RepeatedTagged(tag: nat, bs: seq<seq<Byte>>, num: nat)
    ensures Repeated(Tagged(tag, bs), num) == if tag == num then bs else []
  {
    var fs := Tagged(tag, bs);
    if bs != [] {
      var rest := bs[..|bs| - 1];
      RepeatedTagged(tag, rest, num);
      assert fs[..|fs| - 1] == Tagged(tag, rest);
      assert bs == rest + [bs[|bs| - 1]];
    }
  }

  lemma RepeatedOne(f: Field, num: nat)
    ensures Repeated([f], num) == if f.Len? && f.num == num then [f.data] else []
  {
    assert [f][..0] == [];
  }

  lemma DecodeAllOne<T>(b: seq<Byte>, decode: seq<Byte> -> Option<T>, x: T)
    requires decode(b) == Some(x)
    ensures DecodeAll([b], decode) == Some([x])
  {
    assert [b][..0] == [];
    assert DecodeAll([], decode) == Some([]);
    assert [] + [x] == [x];
  }

  lemma {:induction false} DecodeAllEach<T>(bs: seq<seq<Byte>>, decode: seq<Byte> -> Option<T>, xs: seq<T>)
    requires |bs| == |xs| && forall i :: 0 <= i < |bs| ==> decode(bs[i]) == Some(xs[i])
    ensures DecodeAll(bs, decode) == Some(xs)
  {
    if bs != [] {
      var last := |bs| - 1;
      DecodeAllEach(bs[..last], decode, xs[..last]);
      assert xs == xs[..last] + [xs[last]];
    }
  }

  function LineOf(id: nat, f: Frame): Line {
    Line(id, if f.line > 0 then f.line else 0)
  }

  lemma LineDecoded(id: nat, f: Frame)
    ensures DecodeLine(EncFields(LineFields(id, f))) == Some(LineOf(id, f))
  {
    var fs := LineFields(id, f);
    MessageRoundTrip(fs);
    var head := [Varint(1, id)];
    ScalarLast([], 1, id);
    assert [] + head == head;
    ScalarConcat([], head, 2);
    if f.line > 0 {
      ScalarConcat(head, [Varint(2, f.line)], 1);
      ScalarLast(head, 2, f.line);
    } else {
      assert fs == head;
    }
  }

  lemma LocationDecoded(id: nat, f: Frame)
    ensures DecodeLocation(EncFields(LocationFields(id, f))) == Some(Location(id, [LineOf(id, f)]))
  {
    var line := EncFields(LineFields(id, f));
    MessageRoundTrip(LocationFields(id, f));
    LocationParts(id, line);
    LineDecoded(id, f);
    DecodeAllOne(line, DecodeLine, LineOf(id, f));
  }

  lemma LocationParts(id: nat, line: seq<Byte>)
    ensures Scalar([Varint(1, id), Len(4, line)], 1) == id && Repeated([Varint(1, id), Len(4, line)], 4) == [line]
  {
    var a, b := Varint(1, id), Len(4, line);
    assert [a, b] == [] + [a] + [b] == [a] + [b];
    ScalarIs([], 1, id, [b]);
    RepeatedConcat([a], [b], 4);
    RepeatedOne(a, 4);
    RepeatedOne(b, 4);
  }

  function FunctionOf(strings: seq<Str>, id: nat, f: Frame): Function
    requires f.name in strings && f.filename in strings
  {
    var name := IndexIn(strings, f.name);
    Function(id, name, name, if f.filename != [] then IndexIn(strings, f.filename) else 0, if f.line > 0 then f.line else 0)
  }

  lemma FunctionDecoded(strings: seq<Str>, id: nat, f: Frame)
    requires f.name in strings && f.filename in strings
    ensures DecodeFunction(EncFields(FunctionFields(strings, id, f))) == Some(FunctionOf(strings, id, f))
  {
    var fs := FunctionFields(strings, id, f);
    MessageRoundTrip(fs);
    var name := IndexIn(strings, f.name);
    var file := if f.filename != [] then [Varint(4, IndexIn(strings, f.filename))] else [];
    var line := if f.line > 0 then [Varint(5, f.line)] else [];
    FunctionScalars(id, name, file, line);
  }

  lemma FunctionScalars(id: nat, name: nat, file: seq<Field>, line: seq<Field>)
    requires file == [] || (|file| == 1 && file[0].Varint? && file[0].num == 4)
    requires line == [] || (|line| == 1 && line[0].Varint? && line[0].num == 5)
    ensures var fs := [Varint(1, id), Varint(2, name), Varint(3, name)] + file + line;
            && Scalar(fs, 1) == id && Scalar(fs, 2) == name && Scalar(fs, 3) == name
            && Scalar(fs, 4) == (if file == [] then 0 else file[0].v)
            && Scalar(fs, 5) == (if line == [] then 0 else line[0].v)
  {
    HeadScalars(id, name, file + line);
    assert [Varint(1, id), Varint(2, name), Varint(3, name)] + (file + line) == [Varint(1, id), Varint(2, name), Varint(3, name)] + file + line;
    FileScalar([Varint(1, id), Varint(2, name), Varint(3, name)], file, line);
    LineScalar([Varint(1, id), Varint(2, name), Varint(3, name)] + file, line);
  }

  lemma HeadScalars(id: nat, name: nat, rest: seq<Field>)
    requires forall i :: 0 <= i < |rest| ==> rest[i].Varint? && rest[i].num > 3
    ensures var fs := [Varint(1, id), Varint(2, name), Varint(3, name)] + rest;
            Scalar(fs, 1) == id && Scalar(fs, 2) == name && Scalar(fs, 3) == name
  {
    var a, b, c := Varint(1, id), Varint(2, name), Varint(3, name);
    assert [a, b, c] + rest == [] + [a] + ([b, c] + rest) == [a] + [b] + ([c] + rest) == [a, b] + [c] + rest;
    ScalarIs([], 1, id, [b, c] + rest);
    ScalarIs([a], 2, name, [c] + rest);
    ScalarIs([a, b], 3, name, rest);
  }

  lemma FileScalar(head: seq<Field>, file: seq<Field>, line: seq<Field>)
    requires forall i :: 0 <= i < |head| ==> head[i].Varint? && head[i].num < 4
    requires file == [] || (|file| == 1 && file[0].Varint? && file[0].num == 4)
    requires line == [] || (|line| == 1 && line[0].Varint? && line[0].num == 5)
    ensures Scalar(head + file + line, 4) == if file == [] then 0 else file[0].v
  {
    if file == [] {
      ScalarNone(head + file + line, 4);
    } else {
      assert file == [Varint(4, file[0].v)];
      ScalarIs(head, 4, file[0].v, line);
    }
  }

  lemma LineScalar(head: seq<Field>, line: seq<Field>)
    requires forall i :: 0 <= i < |head| ==> head[i].Varint? && head[i].num < 5
    requires line == [] || (|line| == 1 && line[0].Varint? && line[0].num == 5)
    ensures Scalar(head + line, 5) == if line == [] then 0 else line[0].v
  {
    if line == [] {
      ScalarNone(head + line, 5);
    } else {
      assert line == [Varint(5, line[0].v)];
      ScalarLast(head, 5, line[0].v);
    }
  }

  lemma SampleDecoded(frames: seq<Frame>, s: Stack)
    requires forall i :: 0 <= i < |s.frames| ==> s.frames[i] in frames
    ensures DecodeSample(EncFields(SampleFields(frames, s))) == Some(Sample(LocationIds(frames, s.frames), [s.count]))
  {
    var ids := LocationIds(frames, s.frames);
    MessageRoundTrip(SampleFields(frames, s));
    TwoPacked(EncPacked(ids), EncPacked([s.count]));
    PackedRoundTrip(ids);
    PackedRoundTrip([s.count]);
    SampleOf(EncFields(SampleFields(frames, s)), SampleFields(frames, s), EncPacked(ids), EncPacked([s.count]), ids, [s.count]);
  }

  lemma TwoPacked(x: seq<Byte>, y: seq<Byte>)
    ensures Repeated([Len(1, x), Len(2, y)], 1) == [x] && Repeated([Len(1, x), Len(2, y)], 2) == [y]
  {
    var a, b := Len(1, x), Len(2, y);
    assert [a, b] == [a] + [b];
    RepeatedConcat([a], [b], 1);
    RepeatedConcat([a], [b], 2);
    RepeatedOne(a, 1);
    RepeatedOne(a, 2);
    RepeatedOne(b, 1);
    RepeatedOne(b, 2);
  }

  lemma SampleOf(m: seq<Byte>, fs: seq<Field>, x: seq<Byte>, y: seq<Byte>, ids: seq<nat>, values: seq<nat>)
    requires DecMessage(m) == Some(fs) && Repeated(fs, 1) == [x] && Repeated(fs, 2) == [y]
    requires DecPacked(x) == Some(ids) && DecPacked(y) == Some(values)
    ensures DecodeSample(m) == Some(Sample(ids, values))
  {
    DecodeAllOne(x, DecPacked, ids);
    DecodeAllOne(y, DecPacked, values);
    FlattenedOne(ids);
    FlattenedOne(values);
  }

  lemma FlattenedOne(xs: seq<nat>)
    ensures Flattened([xs]) == xs
  {
    assert [xs][..0] == [];
  }

  // ------------------------------------------------------------------ the whole profile

  ghost function Locations(c: Content): (ls: seq<Location>)
    ensures |ls| == |c.frames|
    ensures forall i :: 0 <= i < |ls| ==> ls[i] == Location(i + 1, [LineOf(i + 1, c.frames[i])])
  {
    seq(|c.frames|, i requires 0 <= i < |c.frames| => Location(i + 1, [LineOf(i + 1, c.frames[i])]))
  }

  ghost function Functions(c: Content): (fs: seq<Function>)
    requires Good(c)
    ensures |fs| == |c.frames|
    ensures forall i :: 0 <= i < |fs| ==> fs[i] == FunctionOf(c.strings, i + 1, c.frames[i])
  {
    seq(|c.frames|, i requires 0 <= i < |c.frames| && Good(c) => FunctionOf(c.strings, i + 1, c.frames[i]))
  }

  ghost function Samples(c: Content): (ss: seq<Sample>)
    requires Good(c)
    ensures |ss| == |c.stacks|
    ensures forall i :: 0 <= i < |ss| ==> GoodStack(c, c.stacks[i]) && ss[i] == Sample(LocationIds(c.frames, c.stacks[i].frames), [c.stacks[i].count])
  {
    seq(|c.stacks|, i requires 0 <= i < |c.stacks| && Good(c) => assert GoodStack(c, c.stacks[i]); Sample(LocationIds(c.frames, c.stacks[i].frames), [c.stacks[i].count]))
  }

  /** Adds one stretch of equally tagged fields. */
  lemma Stretch(fs: seq<Field>, tag: nat, bs: seq<seq<Byte>>, num: nat)
    ensures Repeated(fs + Tagged(tag, bs), num) == if tag == num then Repeated(fs, num) + bs else Repeated(fs, num)
  {
    RepeatedConcat(fs, Tagged(tag, bs), num);
    RepeatedTagged(tag, bs, num);
  }

  lemma NoStretch(fs: seq<Field>, d: seq<Field>, num: nat)
    requires d == [] || (|d| == 1 && d[0].Varint?)
    ensures Repeated(fs + d, num) == Repeated(fs, num)
  {
    RepeatedConcat(fs, d, num);
    if d != [] {
      assert d == [d[0]];
      RepeatedOne(d[0], num);
    }
  }

  /** Each repeated field is found in its own stretch of the message. */
  lemma Stretches(st: Field, ss: seq<seq<Byte>>, ls: seq<seq<Byte>>, fs: seq<seq<Byte>>, xs: seq<seq<Byte>>, t: Field, d: seq<Field>, num: nat)
    requires st.Len? && st.num == 1 && t.Varint?
    requires d == [] || (|d| == 1 && d[0].Varint?)
    ensures Repeated([st] + Tagged(2, ss) + Tagged(4, ls) + Tagged(5, fs) + Tagged(6, xs) + [t] + d, num)
         == if num == 1 then [st.data]
            else if num == 2 then ss else if num == 4 then ls else if num == 5 then fs else if num == 6 then xs else []
  {
    var m1 := [st] + Tagged(2, ss);
    var m2 := m1 + Tagged(4, ls);
    var m3 := m2 + Tagged(5, fs);
    var m4 := m3 + Tagged(6, xs);
    NoStretch(m4 + [t], d, num);
    NoStretch(m4, [t], num);
    Stretch(m3, 6, xs, num);
    Stretch(m2, 5, fs, num);
    Stretch(m1, 4, ls, num);
    Stretch([st], 2, ss, num);
    RepeatedOne(st, num);
  }

  lemma ProfileParts(c: Content, time: Word, duration: nat)
    requires Good(c) && SAMPLES in c.strings && COUNT in c.strings
    ensures var fs := ProfileFields(c, time, duration);
            && Repeated(fs, 2) == SampleBytes(c, |c.stacks|) && Repeated(fs, 4) == LocationBytes(c, |c.frames|)
            && Repeated(fs, 5) == FunctionBytes(c, |c.frames|) && Repeated(fs, 6) == c.strings
  {
    var st, t := Len(1, EncFields(SampleTypeFields(c.strings))), Varint(9, time);
    var d := if duration > 0 then [Varint(10, duration)] else [];
    var ss, ls, fs := SampleBytes(c, |c.stacks|), LocationBytes(c, |c.frames|), FunctionBytes(c, |c.frames|);
    Stretches(st, ss, ls, fs, c.strings, t, d, 2);
    Stretches(st, ss, ls, fs, c.strings, t, d, 4);
    Stretches(st, ss, ls, fs, c.strings, t, d, 5);
    Stretches(st, ss, ls, fs, c.strings, t, d, 6);
  }

  /** The scalars behind the tables. */
  lemma LastScalars(tables: seq<Field>, time: nat, duration: nat)
    requires forall i :: 0 <= i < |tables| ==> tables[i].Len?
    ensures var fs := tables + [Varint(9, time)] + (if duration > 0 then [Varint(10, duration)] else []);
            Scalar(fs, 9) == time && Scalar(fs, 10) == duration
  {
    var d := if duration > 0 then [Varint(10, duration)] else [];
    ScalarIs(tables, 9, time, d);
    if duration > 0 {
      ScalarLast(tables + [Varint(9, time)], 10, duration);
    } else {
      ScalarNone(tables + [Varint(9, time)] + d, 10);
    }
  }

  lemma {:induction false} TaggedLen(num: nat, bs: seq<seq<Byte>>)
    ensures forall i :: 0 <= i < |Tagged(num, bs)| ==> Tagged(num, bs)[i].Len?
  {
    if bs != [] {
      TaggedLen(num, bs[..|bs| - 1]);
    }
  }

  lemma TablesLen(st: Field, ss: seq<seq<Byte>>, ls: seq<seq<Byte>>, fs: seq<seq<Byte>>, xs: seq<seq<Byte>>)
    requires st.Len?
    ensures var tables := [st] + Tagged(2, ss) + Tagged(4, ls) + Tagged(5, fs) + Tagged(6, xs);
            forall i :: 0 <= i < |tables| ==> tables[i].Len?
  {
    TaggedLen(2, ss);
    TaggedLen(4, ls);
    TaggedLen(5, fs);
    TaggedLen(6, xs);
  }

  lemma SampleTypeScalars(i: nat, j: nat)
    ensures Scalar([Varint(1, i), Varint(2, j)], 1) == i && Scalar([Varint(1, i), Varint(2, j)], 2) == j
  {
    var a, b := Varint(1, i), Varint(2, j);
    assert [a, b] == [] + [a] + [b] == [a] + [b] + [];
    ScalarIs([], 1, i, [b]);
    ScalarIs([a], 2, j, []);
  }

  lemma ProfileScalars(c: Content, time: Word, duration: nat)
    requires Good(c) && SAMPLES in c.strings && COUNT in c.strings
    ensures var fs := ProfileFields(c, time, duration);
            Repeated(fs, 1) == [EncFields(SampleTypeFields(c.strings))] && Scalar(fs, 9) == time && Scalar(fs, 10) == duration
  {
    var st := Len(1, EncFields(SampleTypeFields(c.strings)));
    var d := if duration > 0 then [Varint(10, duration)] else [];
    var ss, ls, fs := SampleBytes(c, |c.stacks|), LocationBytes(c, |c.frames|), FunctionBytes(c, |c.frames|);
    Stretches(st, ss, ls, fs, c.strings, Varint(9, time), d, 1);
    TablesLen(st, ss, ls, fs, c.strings);
    LastScalars([st] + Tagged(2, ss) + Tagged(4, ls) + Tagged(5, fs) + Tagged(6, c.strings), time, duration);
  }

  /** A reader finds that the values count samples, and the time and duration that were given. */
  lemma HeaderRoundTrip(c: Content, time: Word, duration: nat)
    requires Good(c) && SAMPLES in c.strings && COUNT in c.strings
    ensures DecodeHeader(EncFields(ProfileFields(c, time, duration)))
         == Some(Header([115, 97, 109, 112, 108, 101, 115], [99, 111, 117, 110, 116], time, duration))
  {
    var fs := ProfileFields(c, time, duration);
    MessageRoundTrip(fs);
    MessageRoundTrip(SampleTypeFields(c.strings));
    ProfileParts(c, time, duration);
    ProfileScalars(c, time, duration);
    SampleTypeScalars(IndexIn(c.strings, SAMPLES), IndexIn(c.strings, COUNT));
  }

  lemma TablesDecoded(c: Content)
    requires Good(c)
    ensures DecodeAll(SampleBytes(c, |c.stacks|), DecodeSample) == Some(Samples(c))
    ensures DecodeAll(LocationBytes(c, |c.frames|), DecodeLocation) == Some(Locations(c))
    ensures DecodeAll(FunctionBytes(c, |c.frames|), DecodeFunction) == Some(Functions(c))
  {
    SamplesDecoded(c);
    LocationsDecoded(c);
    FunctionsDecoded(c);
  }

  lemma SamplesDecoded(c: Content)
    requires Good(c)
    ensures DecodeAll(SampleBytes(c, |c.stacks|), DecodeSample) == Some(Samples(c))
  {
    var sb := SampleBytes(c, |c.stacks|);
    forall i | 0 <= i < |sb| ensures DecodeSample(sb[i]) == Some(Samples(c)[i]) {
      SampleDecoded(c.frames, c.stacks[i]);
    }
    DecodeAllEach(sb, DecodeSample, Samples(c));
  }

  lemma LocationsDecoded(c: Content)
    ensures DecodeAll(LocationBytes(c, |c.frames|), DecodeLocation) == Some(Locations(c))
  {
    var lb := LocationBytes(c, |c.frames|);
    forall i | 0 <= i < |lb| ensures DecodeLocation(lb[i]) == Some(Locations(c)[i]) {
      LocationDecoded(i + 1, c.frames[i]);
    }
    DecodeAllEach(lb, DecodeLocation, Locations(c));
  }

  lemma FunctionsDecoded(c: Content)
    requires Good(c)
    ensures DecodeAll(FunctionBytes(c, |c.frames|), DecodeFunction) == Some(Functions(c))
  {
    var fb := FunctionBytes(c, |c.frames|);
    forall i | 0 <= i < |fb| ensures DecodeFunction(fb[i]) == Some(Functions(c)[i]) {
      OneFunctionDecoded(c, i);
    }
    DecodeAllEach(fb, DecodeFunction, Functions(c));
  }

  lemma OneFunctionDecoded(c: Content, i: nat)
    requires Good(c) && i < |c.frames|
    ensures DecodeFunction(FunctionBytes(c, |c.frames|)[i]) == Some(Functions(c)[i])
  {
    assert Known(c, c.frames[i]);
    FunctionDecoded(c.strings, i + 1, c.frames[i]);
  }

  ghost function ProfileOf(c: Content): Profile
    requires Good(c)
  {
    Profile(Samples(c), Locations(c), Functions(c), c.strings)
  }

  /** The written profile decodes to the tables and samples that were recorded. */
  lemma ProfileDecoded(c: Content, time: Word, duration: nat)
    requires Good(c) && SAMPLES in c.strings && COUNT in c.strings
    ensures DecodeProfile(EncFields(ProfileFields(c, time, duration))) == Some(ProfileOf(c))
  {
    var fs := ProfileFields(c, time, duration);
    MessageRoundTrip(fs);
    ProfileParts(c, time, duration);
    TablesDecoded(c);
  }

  lemma {:induction false} FindLocationAt(ls: seq<Location>, k: nat, id: nat)
    requires k < id <= k + |ls| && forall i :: 0 <= i < |ls| ==> ls[i].id == k + i + 1
    ensures FindLocation(ls, id) == Some(ls[id - k - 1])
  {
    if ls[0].id != id {
      FindLocationAt(ls[1..], k + 1, id);
    }
  }

  lemma {:induction false} FindFunctionAt(fs: seq<Function>, k: nat, id: nat)
    requires k < id <= k + |fs| && forall i :: 0 <= i < |fs| ==> fs[i].id == k + i + 1
    ensures FindFunction(fs, id) == Some(fs[id - k - 1])
  {
    if fs[0].id != id {
      FindFunctionAt(fs[1..], k + 1, id);
    }
  }

  lemma LocationResolved(c: Content, f: Frame)
    requires Good(c) && f in c.frames
    ensures ResolveLocation(ProfileOf(c), IndexIn(c.frames, f) + 1) == Some(ShownFrame(f))
  {
    var i := IndexIn(c.frames, f);
    assert Known(c, c.frames[i]);
    FindLocationAt(Locations(c), 0, i + 1);
    FindFunctionAt(Functions(c), 0, i + 1);
    ResolvedBy(ProfileOf(c), i + 1, f);
  }

  lemma ResolvedBy(p: Profile, id: nat, f: Frame)
    requires f.name in p.strings && f.filename in p.strings && (p.strings[0] == [])
    requires FindLocation(p.locations, id) == Some(Location(id, [LineOf(id, f)]))
    requires FindFunction(p.functions, id) == Some(FunctionOf(p.strings, id, f))
    ensures ResolveLocation(p, id) == Some(ShownFrame(f))
  {
  }

  /** Every frame of the table is found through its location number. */
  ghost predicate Resolves(p: Profile, frames: seq<Frame>) {
    forall f :: f in frames ==> ResolveLocation(p, IndexIn(frames, f) + 1) == Some(ShownFrame(f))
  }

  lemma IdsSplit(frames: seq<Frame>, fs: seq<Frame>, f: Frame)
    requires f in frames && forall i :: 0 <= i < |fs| ==> fs[i] in frames
    ensures forall i :: 0 <= i < |fs + [f]| ==> (fs + [f])[i] in frames
    ensures LocationIds(frames, fs + [f]) == LocationIds(frames, fs) + [IndexIn(frames, f) + 1]
  {
  }

  lemma ResolvedSplit(p: Profile, ids: seq<nat>, id: nat, fs: seq<Frame>, f: Frame)
    requires ResolveIds(p, ids) == Some(fs) && ResolveLocation(p, id) == Some(f)
    ensures ResolveIds(p, ids + [id]) == Some(fs + [f])
  {
    assert (ids + [id])[..|ids|] == ids;
  }

  lemma {:induction false} IdsResolved(p: Profile, frames: seq<Frame>, fs: seq<Frame>)
    requires Resolves(p, frames) && forall i :: 0 <= i < |fs| ==> fs[i] in frames
    ensures ResolveIds(p, LocationIds(frames, fs)) == Some(ShownFrames(fs))
  {
    if fs != [] {
      var rest, f := fs[..|fs| - 1], fs[|fs| - 1];
      assert rest + [f] == fs;
      IdsResolved(p, frames, rest);
      IdsSplit(frames, rest, f);
      ResolvedSplit(p, LocationIds(frames, rest), IndexIn(frames, f) + 1, ShownFrames(rest), ShownFrame(f));
    }
  }

  lemma {:induction false} SamplesResolved(p: Profile, frames: seq<Frame>, ss: seq<Sample>, stacks: seq<Stack>)
    requires Resolves(p, frames) && |ss| == |stacks|
    requires forall i :: 0 <= i < |ss| ==> InTable(frames, stacks[i]) && ss[i] == Sample(LocationIds(frames, stacks[i].frames), [stacks[i].count])
    ensures ResolveSamples(p, ss) == Some(ShownStacks(stacks))
  {
    if ss != [] {
      var n := |ss| - 1;
      SamplesResolved(p, frames, ss[..n], stacks[..n]);
      IdsResolved(p, frames, stacks[n].frames);
    }
  }

  ghost predicate InTable(frames: seq<Frame>, s: Stack) {
    forall i :: 0 <= i < |s.frames| ==> s.frames[i] in frames
  }

  lemma StacksResolved(c: Content)
    requires Good(c)
    ensures ResolveSamples(ProfileOf(c), ProfileOf(c).samples) == Some(ShownStacks(c.stacks))
  {
    var p := ProfileOf(c);
    forall f | f in c.frames ensures ResolveLocation(p, IndexIn(c.frames, f) + 1) == Some(ShownFrame(f)) {
      LocationResolved(c, f);
    }
    forall i | 0 <= i < |c.stacks| ensures InTable(c.frames, c.stacks[i]) {
      assert GoodStack(c, c.stacks[i]);
    }
    SamplesResolved(p, c.frames, Samples(c), c.stacks);
  }

  /** A reader of the profile recovers every recorded stack, leaf to root, with its count. */
  lemma ProfileRoundTrip(c: Content, time: Word, duration: nat)
    requires Good(c) && SAMPLES in c.strings && COUNT in c.strings
    ensures var p := DecodeProfile(EncFields(ProfileFields(c, time, duration)));
            && p.Some? && p.value.strings != [] && p.value.strings[0] == []
            && ResolveSamples(p.value, p.value.samples) == Some(ShownStacks(c.stacks))
  {
    ProfileDecoded(c, time, duration);
    StacksResolved(c);
  }
}
