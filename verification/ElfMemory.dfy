/** A file mapped at its virtual addresses, as `ReadAt` and `VirtualMemory` of libpf/pfelf/file.go read it. */
module ElfMemory {
  import opened Bytes
  import opened Wrappers

  /** A loaded segment: its bytes from the file, and the zeros behind them. */
  datatype Segment = Segment(vaddr: int, bytes: seq<Byte>)

  /** The segments in the order in which they are searched, and where the tables are. */
  datatype Elf = Elf(segments: seq<Segment>, symbols: int, strings: int, gnu: int, sysv: int)

  predicate Holds(s: Segment, addr: int) {
    s.vaddr <= addr < s.vaddr + |s.bytes|
  }

  /** `ProgByVirtualAddress`: the bytes from an address to the end of the first segment that holds it. */
  function TailIn(ss: seq<Segment>, addr: int): seq<Byte> {
    if ss == [] then []
    else if Holds(ss[0], addr) then ss[0].bytes[addr - ss[0].vaddr..]
    else TailIn(ss[1..], addr)
  }

  function Tail(f: Elf, addr: int): seq<Byte> {
    TailIn(f.segments, addr)
  }

  /** What a read copies: it ends with the segment, even if another one adjoins it. */
  function Present(f: Elf, addr: int, n: nat): (b: seq<Byte>)
    ensures |b| <= n
  {
    var t := Tail(f, addr);
    if n <= |t| then t[..n] else t
  }

  /** A little-endian number of `n` bytes; the read fails if it comes up short. */
  function Num(f: Elf, addr: int, n: nat): Option<nat> {
    var b := Present(f, addr, n);
    if |b| < n then None else Some(LeValue(b))
  }

  /** The text `name` followed by a zero byte. */
  predicate TextAt(f: Elf, addr: int, name: seq<Byte>) {
    name + [0] <= Tail(f, addr)
  }

  /** The string that ends before the first zero byte. */
  function CString(t: seq<Byte>): Option<seq<Byte>> {
    if t == [] then None
    else if t[0] == 0 then Some([])
    else match CString(t[1..])
      case None => None
      case Some(rest) => Some([t[0]] + rest)
  }

  /** Comparing text is comparing strings, for names without zero bytes. */
  lemma {:induction false} TextIsString(t: seq<Byte>, name: seq<Byte>)
    requires 0 !in name
    ensures name + [0] <= t <==> CString(t) == Some(name)
    decreases |name|
  {
    if name == [] {
      assert [] + [0] == [0];
      if t != [] && t[0] != 0 && CString(t[1..]).Some? {
        assert |CString(t).value| > 0;
      }
    } else if t != [] && t[0] == name[0] {
      TextIsString(t[1..], name[1..]);
      assert name == [name[0]] + name[1..] && t == [t[0]] + t[1..];
      assert name + [0] == [name[0]] + (name[1..] + [0]);
      if CString(t).Some? {
        assert CString(t).value[1..] == CString(t[1..]).value;
      }
    }
  }

  /** No segment reaches beyond. */
  function Top(ss: seq<Segment>): int {
    if ss == [] then 0
    else
      var end, rest := ss[0].vaddr + |ss[0].bytes|, Top(ss[1..]);
      if end > rest then end else rest
  }

  /** How far it is from an address to the end of the last segment. */
  function Above(f: Elf, addr: int): nat {
    if addr < Top(f.segments) then Top(f.segments) - addr else 0
  }

  lemma {:induction false} HeldBelowTop(ss: seq<Segment>, addr: int)
    requires TailIn(ss, addr) != []
    ensures addr < Top(ss)
  {
    if !Holds(ss[0], addr) {
      HeldBelowTop(ss[1..], addr);
    }
  }

  /** Where something can be read, less is above behind it. */
  lemma AboveShrinks(f: Elf, addr: int, n: nat, d: nat)
    requires Num(f, addr, n).Some? && n > 0 && d > 0
    ensures Above(f, addr + d) < Above(f, addr)
  {
    HeldBelowTop(f.segments, addr);
  }

  // ------------------------------------------------------------------ segments made of words

  /** 32-bit words one behind the other. */
  function Words32(ws: seq<Word32>): (b: seq<Byte>)
    ensures |b| == 4 * |ws|
  {
    if ws == [] then [] else LeBytes(ws[0], 4) + Words32(ws[1..])
  }

  lemma {:induction false} WordAt(ws: seq<Word32>, k: nat, i: nat)
    requires k < |ws| && i == 4 * k
    ensures Words32(ws)[i..i + 4] == LeBytes(ws[k], 4)
    decreases k
  {
    if k > 0 {
      WordAt(ws[1..], k - 1, i - 4);
      assert Words32(ws)[i..i + 4] == Words32(ws[1..])[i - 4..i];
    }
  }

  lemma TailOfOne(s: Segment, addr: int)
    ensures TailIn([s], addr) == if Holds(s, addr) then s.bytes[addr - s.vaddr..] else []
  {
    assert TailIn([s][1..], addr) == [];
  }

  /** A word is read back. */
  lemma ReadsWord(f: Elf, at: int, ws: seq<Word32>, k: nat, i: nat)
    requires f.segments == [Segment(at, Words32(ws))] && k < |ws| && i == 4 * k
    ensures Num(f, at + i, 4) == Some(ws[k])
  {
    WordAt(ws, k, i);
    ReadsNumber(f, at, Words32(ws), i, ws[k]);
  }

  lemma ReadsNumber(f: Elf, at: int, b: seq<Byte>, i: nat, w: Word32)
    requires f.segments == [Segment(at, b)] && i + 4 <= |b| && b[i..i + 4] == LeBytes(w, 4)
    ensures Num(f, at + i, 4) == Some(w)
  {
    ReadsBytes(f, at, b, i, 4);
    WordReadBack(w);
  }

  lemma WordReadBack(w: Word32)
    ensures LeValue(LeBytes(w, 4)) == w
  {
    Pow256Values();
    LeRoundTrip(w, 4);
  }

  /** What the only segment holds is there. */
  lemma ReadsBytes(f: Elf, at: int, b: seq<Byte>, i: nat, n: nat)
    requires f.segments == [Segment(at, b)] && 0 < n && i + n <= |b|
    ensures Present(f, at + i, n) == b[i..i + n]
  {
    TailOfOne(Segment(at, b), at + i);
    assert b[i..][..n] == b[i..i + n];
  }
}
