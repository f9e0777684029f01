/**
 The text of a frame: `frameLabel` of reporter/local.go renders it, `parseFrame` of
 internal/pprofout/pprofout.go takes it apart again.
 */
module FrameLabels {
  import opened Words
  import opened Bytes
  import opened Pprof
  import opened Wrappers

  const SPACE: Byte := 32
  const PAREN: Byte := 40
  const CLOSE: Byte := 41
  const COLON: Byte := 58
  const PLUS: Byte := 43
  const MINUS: Byte := 45

  /** " (" */
  const SPACE_PAREN: Str := [SPACE, PAREN]

  /** "[unwind-error]" */
  const UNWIND_ERROR: Str := [91, 117, 110, 119, 105, 110, 100, 45, 101, 114, 114, 111, 114, 93]

  // ------------------------------------------------------------------ searching text

  predicate HasPrefix(s: Str, p: Str) {
    |p| <= |s| && s[..|p|] == p
  }

  predicate At(s: Str, p: Str, i: int) {
    0 <= i && i + |p| <= |s| && s[i..i + |p|] == p
  }

  /** The last position at which `p` occurs in `s`, or -1. */
  function LastIndex(s: Str, p: Str): (i: int)
    requires p != []
    ensures i == -1 || At(s, p, i)
    ensures forall k :: i < k ==> !At(s, p, k)
  {
    LastIndexFrom(s, p, |s| - |p|)
  }

  function LastIndexFrom(s: Str, p: Str, k: int): (i: int)
    requires k + |p| <= |s|
    ensures i == -1 || At(s, p, i)
    ensures forall j :: i < j <= k ==> !At(s, p, j)
    decreases if k < 0 then 0 else k + 1
  {
    if k < 0 then -1 else if s[k..k + |p|] == p then k else LastIndexFrom(s, p, k - 1)
  }

  // ------------------------------------------------------------------ numbers

  predicate AllDigits(s: Str) {
    forall i :: 0 <= i < |s| ==> 48 <= s[i] <= 57
  }

  function Digits(s: Str): nat
    requires AllDigits(s)
  {
    if s == [] then 0 else 10 * Digits(s[..|s| - 1]) + (s[|s| - 1] - 48)
  }

  predicate Fits64(v: int) {
    -0x8000_0000_0000_0000 <= v < 0x8000_0000_0000_0000
  }

  /** `strconv.ParseInt(s, 10, 64)`: a signed decimal number that fits 64 bits. */
  function ParseInt(s: Str): Option<int> {
    var negative := s != [] && s[0] == MINUS;
    var digits := if s != [] && (s[0] == PLUS || s[0] == MINUS) then s[1..] else s;
    if digits == [] || !AllDigits(digits) then None
    else
      var v := if negative then 0 - Digits(digits) else Digits(digits);
      if Fits64(v) then Some(v) else None
  }

  /** A number as it is printed. */
  function Decimal(n: nat): (s: Str)
    ensures s != [] && AllDigits(s) && Digits(s) == n
  {
    var last: Byte := 48 + n % 10;
    if n < 10 then [last]
    else
      var s := Decimal(n / 10);
      assert (s + [last])[..|s|] == s;
      s + [last]
  }

  function Printed(v: int): Str {
    if v < 0 then [MINUS] + Decimal(-v) else Decimal(v)
  }

  /** A printed number reads back; it holds neither colon nor space. */
  lemma PrintedParses(v: int)
    requires Fits64(v)
    ensures ParseInt(Printed(v)) == Some(v) && COLON !in Printed(v) && SPACE !in Printed(v)
  {
    var d := Decimal(if v < 0 then -v else v);
    assert Printed(v) == if v < 0 then [MINUS] + d else d;
    assert ([MINUS] + d)[1..] == d;
  }

  function HexDigit(d: nat): Byte
    requires d < 16
  {
    if d < 10 then 48 + d else 87 + d
  }

  /** "%x" */
  function Hex(n: nat): Str {
    if n < 16 then [HexDigit(n)] else Hex(n / 16) + [HexDigit(n % 16)]
  }

  // ------------------------------------------------------------------ rendering

  /** A symbolized frame. */
  datatype Symbolized = Symbolized(error: bool, python: bool, name: Str, address: Word, file: Str, line: int)

  function Called(f: Symbolized): Str {
    if f.name == [] then [48, 120] + Hex(f.address) else f.name
  }

  /** `frameLabel` */
  function FrameLabel(f: Symbolized): Str {
    if f.error then UNWIND_ERROR
    else if f.file == [] then Called(f)
    else WithLine(Called(f), f.file, f.line)
  }

  /** "name (inner)" */
  function Bracketed(name: Str, inner: Str): Str {
    name + SPACE_PAREN + inner + [CLOSE]
  }

  /** "name (file:line)" */
  function WithLine(name: Str, file: Str, line: int): Str {
    Bracketed(name, file + [COLON] + Printed(line))
  }

  // ------------------------------------------------------------------ parsing

  predicate IsAddress(text: Str) {
    HasPrefix(text, [48, 120]) || HasPrefix(text, [48, 88])
  }

  /** "name (file:line)", "name (file)", or a bare name. */
  function ParseFrame(text: Str): Frame {
    if IsAddress(text) then Frame(text, [], 0)
    else
      var i := LastIndex(text, SPACE_PAREN);
      if i > 0 && text[|text| - 1] == CLOSE then
        assert text[i..i + 2][1] == PAREN;
        var inner := text[i + 2..|text| - 1];
        var j := LastIndex(inner, [COLON]);
        var line := if j > 0 then ParseInt(inner[j + 1..]) else None;
        if line.Some? then Frame(text[..i], inner[..j], line.value) else Frame(text[..i], inner, 0)
      else Frame(text, [], 0)
  }

  ghost predicate Bare(text: Str) {
    IsAddress(text) || text == [] || text[|text| - 1] != CLOSE || forall i :: i > 0 ==> !At(text, SPACE_PAREN, i)
  }

  /** Such a text is a name. */
  lemma BareParsed(text: Str)
    requires Bare(text)
    ensures ParseFrame(text) == Frame(text, [], 0)
  {
  }

  lemma AtChars(s: Str, p: Str, k: int)
    requires At(s, p, k)
    ensures forall j :: 0 <= j < |p| ==> s[k + j] == p[j]
  {
    forall j | 0 <= j < |p| ensures s[k + j] == p[j] {
      assert s[k..k + |p|][j] == s[k + j];
    }
  }

  lemma LastIndexIs(s: Str, p: Str, i: int)
    requires p != [] && At(s, p, i) && forall k :: i < k ==> !At(s, p, k)
    ensures LastIndex(s, p) == i
  {
  }

  /** The bracket that the parser finds. */
  lemma BracketFound(name: Str, inner: Str)
    requires forall k :: !At(inner, SPACE_PAREN, k)
    ensures var text := Bracketed(name, inner);
            LastIndex(text, SPACE_PAREN) == |name| && text[..|name|] == name && text[|name| + 2..|text| - 1] == inner
  {
    var text := Bracketed(name, inner);
    assert text[|name|..|name| + 2] == SPACE_PAREN;
    forall k | |name| < k ensures !At(text, SPACE_PAREN, k) {
      if At(text, SPACE_PAREN, k) {
        NoLaterBracket(name, inner, k);
      }
    }
    LastIndexIs(text, SPACE_PAREN, |name|);
  }

  lemma NoLaterBracket(name: Str, inner: Str, k: int)
    requires |name| < k && At(Bracketed(name, inner), SPACE_PAREN, k)
    ensures At(inner, SPACE_PAREN, k - |name| - 2)
  {
    var text := Bracketed(name, inner);
    AtChars(text, SPACE_PAREN, k);
    assert text[|name| + 1] == PAREN && text[|text| - 1] == CLOSE;
    var i := k - |name| - 2;
    assert i >= 0 && i + 2 <= |inner|;
    assert inner[i] == text[k] && inner[i + 1] == text[k + 1];
    assert inner[i..i + 2] == SPACE_PAREN;
  }

  function BracketFrame(name: Str, inner: Str): Frame {
    var j := LastIndex(inner, [COLON]);
    var line := if j > 0 then ParseInt(inner[j + 1..]) else None;
    if line.Some? then Frame(name, inner[..j], line.value) else Frame(name, inner, 0)
  }

  /** What stands in brackets is a file with a line, or else a file. */
  lemma BracketParsed(name: Str, inner: Str)
    requires name != [] && !IsAddress(Bracketed(name, inner)) && forall k :: !At(inner, SPACE_PAREN, k)
    ensures ParseFrame(Bracketed(name, inner)) == BracketFrame(name, inner)
  {
    BracketFound(name, inner);
  }

  lemma ColonFound(file: Str, number: Str)
    requires COLON !in number
    ensures LastIndex(file + [COLON] + number, [COLON]) == |file|
  {
    var inner := file + [COLON] + number;
    assert inner[|file|..|file| + 1] == [COLON];
    forall k | |file| < k ensures !At(inner, [COLON], k) {
      if At(inner, [COLON], k) {
        LaterColon(file, number, k);
      }
    }
    LastIndexIs(inner, [COLON], |file|);
  }

  lemma LaterColon(file: Str, number: Str, k: int)
    requires |file| < k && At(file + [COLON] + number, [COLON], k)
    ensures COLON in number
  {
    AtChars(file + [COLON] + number, [COLON], k);
    assert number[k - |file| - 1] == (file + [COLON] + number)[k + 0];
  }

  lemma BracketBefore(file: Str, number: Str, k: int)
    requires SPACE !in number && At(file + [COLON] + number, SPACE_PAREN, k)
    ensures At(file, SPACE_PAREN, k)
  {
    var inner := file + [COLON] + number;
    TailChars(file, number);
    AtChars(inner, SPACE_PAREN, k);
    assert inner[k + 0] == SPACE && inner[k + 1] == PAREN;
    assert file[k..k + 2] == inner[k..k + 2];
  }

  lemma TailChars(file: Str, number: Str)
    ensures var inner := file + [COLON] + number; forall k :: |file| < k < |inner| ==> inner[k] in number
  {
    var inner := file + [COLON] + number;
    forall k | |file| < k < |inner| ensures inner[k] in number {
      assert inner[k] == number[k - |file| - 1];
    }
  }

  lemma NoBracketIn(file: Str, number: Str)
    requires SPACE !in number && forall k :: !At(file, SPACE_PAREN, k)
    ensures forall k :: !At(file + [COLON] + number, SPACE_PAREN, k)
  {
    var inner := file + [COLON] + number;
    forall k ensures !At(inner, SPACE_PAREN, k) {
      if At(inner, SPACE_PAREN, k) {
        BracketBefore(file, number, k);
      }
    }
  }

  predicate Nameable(name: Str) {
    name != [] && !IsAddress(name)
  }

  lemma AddressPrefix(name: Str, inner: Str)
    requires name != []
    ensures IsAddress(Bracketed(name, inner)) <==> IsAddress(name)
  {
    var text := Bracketed(name, inner);
    assert text[0] == name[0];
    assert text[1] == if |name| > 1 then name[1] else SPACE;
    assert text[..2] == [text[0], text[1]];
    if |name| > 1 {
      assert name[..2] == [name[0], name[1]];
    }
  }

  ghost predicate FileLike(file: Str) {
    file != [] && forall k :: !At(file, SPACE_PAREN, k)
  }

  /** A rendered name, file and line read back. */
  lemma LocatedParses(name: Str, file: Str, line: int)
    requires Nameable(name) && FileLike(file) && Fits64(line)
    ensures ParseFrame(name + [32, 40] + file + [58] + Printed(line) + [41]) == Frame(name, file, line)
    ensures WithLine(name, file, line) == name + [32, 40] + file + [58] + Printed(line) + [41]
  {
    var number := Printed(line);
    var inner := file + [COLON] + number;
    assert Bracketed(name, inner) == name + [32, 40] + file + [58] + number + [41];
    PrintedParses(line);
    NoBracketIn(file, number);
    AddressPrefix(name, inner);
    BracketParsed(name, inner);
    FileAndLine(name, file, number, line);
  }

  lemma FileAndLine(name: Str, file: Str, number: Str, line: int)
    requires file != [] && COLON !in number && ParseInt(number) == Some(line)
    ensures BracketFrame(name, file + [COLON] + number) == Frame(name, file, line)
  {
    var inner := file + [COLON] + number;
    ColonFound(file, number);
    assert inner[|file| + 1..] == number && inner[..|file|] == file;
  }

  /** So does a file without a line, if what follows its last colon is no number. */
  lemma FileParses(name: Str, file: Str)
    requires Nameable(name) && forall k :: !At(file, SPACE_PAREN, k)
    requires var j := LastIndex(file, [COLON]); j > 0 ==> ParseInt(file[j + 1..]).None?
    ensures ParseFrame(name + [32, 40] + file + [41]) == Frame(name, file, 0)
  {
    AddressPrefix(name, file);
    BracketParsed(name, file);
  }

  // ------------------------------------------------------------------ rendered frames

  /** What a frame is, for a reader of its label. */
  function Shown(f: Symbolized): Frame {
    if f.error then Frame(UNWIND_ERROR, [], 0)
    else if f.file == [] then Frame(Called(f), [], 0)
    else Frame(Called(f), f.file, f.line)
  }

  /** An error, a name that looks like nothing else, or a name that is no address with a file that holds no " (". */
  ghost predicate Legible(f: Symbolized) {
    || f.error
    || (f.file == [] && Bare(Called(f)))
    || (!IsAddress(Called(f)) && FileLike(f.file))
  }

  lemma CalledSomething(f: Symbolized)
    ensures Called(f) != []
  {
  }

  /** A later bracket takes some of the file to the name. */
  lemma BracketInFile(name: Str, file: Str, line: int, k: int)
    requires name != [] && At(file, SPACE_PAREN, k)
    ensures ParseFrame(WithLine(name, file, line)).name != name
  {
    var text := WithLine(name, file, line);
    BracketThere(name, file, line, k);
    LongName(text, |name|, |name| + 2 + k);
  }

  lemma BracketThere(name: Str, file: Str, line: int, k: int)
    requires At(file, SPACE_PAREN, k)
    ensures var text := WithLine(name, file, line); At(text, SPACE_PAREN, |name| + 2 + k) && text[|text| - 1] == CLOSE
  {
    var text, i := WithLine(name, file, line), |name| + 2 + k;
    AtChars(file, SPACE_PAREN, k);
    assert text[i] == file[k + 0] && text[i + 1] == file[k + 1];
    assert text[i..i + 2] == SPACE_PAREN;
  }

  lemma LongName(text: Str, n: nat, i: int)
    requires n < i && At(text, SPACE_PAREN, i) && text[|text| - 1] == CLOSE
    ensures |ParseFrame(text).name| > n
  {
    assert LastIndex(text, SPACE_PAREN) >= i;
  }

  lemma NotBare(text: Str)
    requires !Bare(text)
    ensures |ParseFrame(text).name| < |text|
  {
    var k :| k > 0 && At(text, SPACE_PAREN, k);
    assert LastIndex(text, SPACE_PAREN) >= k;
  }

  /** A rendered frame is read back exactly if it is legible. */
  lemma LabelParsesIff(f: Symbolized)
    requires Fits64(f.line)
    ensures ParseFrame(FrameLabel(f)) == Shown(f) <==> Legible(f)
  {
    CalledSomething(f);
    if f.error {
      BareParsed(UNWIND_ERROR);
    } else if f.file == [] {
      if Bare(Called(f)) {
        BareParsed(Called(f));
      } else {
        NotBare(Called(f));
      }
    } else if IsAddress(Called(f)) {
      AddressPrefix(Called(f), f.file + [COLON] + Printed(f.line));
    } else if k :| At(f.file, SPACE_PAREN, k) {
      BracketInFile(Called(f), f.file, f.line, k);
    } else {
      LocatedParses(Called(f), f.file, f.line);
    }
  }

  /** A frame without a name that has a file comes back as one long name. */
  lemma AddressWithFile()
    ensures var f := Symbolized(false, false, [], 16, [97], 3);
            FrameLabel(f) == [48, 120, 49, 48, 32, 40, 97, 58, 51, 41] && ParseFrame(FrameLabel(f)) == Frame(FrameLabel(f), [], 0)
  {
    SmallNumbers();
  }

  lemma SmallNumbers()
    ensures Hex(16) == [49, 48] && Decimal(3) == [51]
  {
    assert Hex(16) == Hex(1) + [48];
  }
}
