/** Two small tables byte by byte, and what looking names up in them gives. */
module ElfExample {
  import opened Words
  import opened Bytes
  import opened ElfHash
  import opened ElfMemory
  import opened ElfSymbols
  import opened ElfLookup
  import opened Wrappers
  import SysvHash

  const AT := 1000

  /** A file with one segment of words. */
  predicate OfWords(f: Elf, ws: seq<Word32>) {
    f.segments == [Segment(AT, Words32(ws))]
  }

  /** From word k on: a symbol whose name is one behind the start of the strings, of value 0x1234 and size 0x10; and the strings "" and "a". */
  predicate NamedA(ws: seq<Word32>, k: nat) {
    && |ws| == k + 7
    && ws[k] == 1 && ws[k + 2] == 0x1234 && ws[k + 3] == 0 && ws[k + 4] == 0x10 && ws[k + 5] == 0 && ws[k + 6] == 0x6100
  }

  /**
   A GNU table with one bucket, one 64-bit filter word and one symbol behind the empty one: the header,
   the filter, the bucket and the chain; then the symbols and the strings.
   */
  predicate GnuExample(f: Elf, ws: seq<Word32>) {
    && OfWords(f, ws) && NamedA(ws, 14)
    && f.gnu == AT && f.symbols == AT + 32 && f.strings == AT + 80
    && ws[0] == 1 && ws[1] == 1 && ws[2] == 1 && ws[3] == 6
    && ws[4] == 0x0100_0040 && ws[5] == 0 && ws[6] == 1 && ws[7] == 177671
  }

  /** A System V table with one bucket for the same symbols. */
  predicate SysvExample(f: Elf, ws: seq<Word32>) {
    && OfWords(f, ws) && NamedA(ws, 11)
    && f.gnu == 0 && f.sysv == AT && f.symbols == AT + 20 && f.strings == AT + 68
    && ws[0] == 1 && ws[1] == 2 && ws[2] == 1 && ws[4] == 0
  }

  // ------------------------------------------------------------------ reading

  function Long(low: nat, high: nat): nat {
    low + 0x1_0000_0000 * high
  }

  lemma ReadsLong(f: Elf, ws: seq<Word32>, k: nat, i: nat)
    requires OfWords(f, ws) && k + 1 < |ws| && i == 4 * k
    ensures Num(f, AT + i, 8) == Some(Long(ws[k], ws[k + 1]))
  {
    ReadsBytes(f, AT, Words32(ws), i, 8);
    LongAt(ws, k, i);
  }

  lemma LongAt(ws: seq<Word32>, k: nat, i: nat)
    requires k + 1 < |ws| && i == 4 * k
    ensures i + 8 <= |Words32(ws)| && LeValue(Words32(ws)[i..i + 8]) == Long(ws[k], ws[k + 1])
  {
    WordAt(ws, k, i);
    WordAt(ws, k + 1, i + 4);
    LongOf(Words32(ws), i, ws[k], ws[k + 1]);
  }

  lemma LongOf(b: seq<Byte>, i: nat, low: Word32, high: Word32)
    requires i + 8 <= |b| && b[i..i + 4] == LeBytes(low, 4) && b[i + 4..i + 8] == LeBytes(high, 4)
    ensures LeValue(b[i..i + 8]) == Long(low, high)
  {
    assert b[i..i + 8] == b[i..i + 4] + b[i + 4..i + 8];
    TwoWords(low, high);
  }

  lemma TwoWords(low: Word32, high: Word32)
    ensures LeValue(LeBytes(low, 4) + LeBytes(high, 4)) == Long(low, high)
  {
    LeConcat(LeBytes(low, 4), LeBytes(high, 4));
    WordReadBack(low);
    WordReadBack(high);
    Pow256Values();
  }

  lemma {:induction false} LeConcat(a: seq<Byte>, b: seq<Byte>)
    ensures LeValue(a + b) == LeValue(a) + Pow256(|a|) * LeValue(b)
  {
    if a == [] {
      assert a + b == b;
    } else {
      var rest := a[1..];
      assert (a + b)[1..] == rest + b;
      LeConcat(rest, b);
      ByteUp(Pow256(|rest|), LeValue(b), LeValue(rest));
    }
  }

  lemma ByteUp(p: int, v: int, r: int)
    ensures 256 * (r + p * v) == 256 * r + (256 * p) * v
  {
  }

  /** Symbol 1, whose six words begin at word k. */
  lemma ReadsSymbol(f: Elf, ws: seq<Word32>, k: nat, i: nat)
    requires OfWords(f, ws) && k + 6 <= |ws| && i == 4 * k && f.symbols + SYMBOL_SIZE == AT + i
    ensures SymbolAt(f, 1) == Some(Symbol(Long(ws[k + 2], ws[k + 3]), Long(ws[k + 4], ws[k + 5])))
    ensures NameAddr(f, 1) == Some(f.strings + ws[k])
  {
    ReadsBytes(f, AT, Words32(ws), i, 24);
    SymbolParts(f, Words32(ws), i);
    SymbolWords(ws, k, i);
  }

  lemma SymbolWords(ws: seq<Word32>, k: nat, i: nat)
    requires k + 6 <= |ws| && i == 4 * k
    ensures var b := Words32(ws);
            && LeValue(b[i + 8..i + 16]) == Long(ws[k + 2], ws[k + 3])
            && LeValue(b[i + 16..i + 24]) == Long(ws[k + 4], ws[k + 5]) && LeValue(b[i..i + 4]) == ws[k]
  {
    LongAt(ws, k + 2, i + 8);
    LongAt(ws, k + 4, i + 16);
    FirstWordAt(ws, k, i);
  }

  lemma FirstWordAt(ws: seq<Word32>, k: nat, i: nat)
    requires k < |ws| && i == 4 * k
    ensures LeValue(Words32(ws)[i..i + 4]) == ws[k]
  {
    WordAt(ws, k, i);
    WordReadBack(ws[k]);
  }

  lemma SymbolParts(f: Elf, b: seq<Byte>, i: nat)
    requires i + 24 <= |b| && Present(f, f.symbols + SYMBOL_SIZE, SYMBOL_SIZE) == b[i..i + 24]
    ensures SymbolAt(f, 1) == Some(Symbol(LeValue(b[i + 8..i + 16]), LeValue(b[i + 16..i + 24])))
    ensures NameAddr(f, 1) == Some(f.strings + LeValue(b[i..i + 4]))
  {
    PartOf(b, i, 8, 16);
    PartOf(b, i, 16, 24);
    PartOf(b, i, 0, 4);
  }

  lemma PartOf(b: seq<Byte>, i: nat, j: nat, k: nat)
    requires i + 24 <= |b| && j <= k <= 24
    ensures b[i..i + 24][j..k] == b[i + j..i + k]
  {
    var part, whole := b[i..i + 24][j..k], b[i + j..i + k];
    assert |part| == |whole| == k - j;
    forall n | 0 <= n < k - j ensures part[n] == whole[n] {
      assert part[n] == b[i..i + 24][j + n] == b[i + (j + n)];
    }
  }

  /** The string "a" stands behind the first byte of the last word. */
  lemma ReadsName(f: Elf, ws: seq<Word32>, k: nat, i: nat)
    requires OfWords(f, ws) && k + 1 == |ws| && i == 4 * k && ws[k] == 0x6100
    ensures CString(Tail(f, AT + i + 1)) == Some([97])
  {
    TailOfOne(Segment(AT, Words32(ws)), AT + i + 1);
    WordAt(ws, k, i);
    TextBytes();
    LastString(Words32(ws), i);
    assert Tail(f, AT + i + 1) == Words32(ws)[i + 1..];
  }

  lemma LastString(b: seq<Byte>, i: nat)
    requires |b| == i + 4 && b[i..i + 4] == [0, 97, 0, 0]
    ensures CString(b[i + 1..]) == Some([97])
  {
    var t := b[i + 1..];
    assert t == b[i..i + 4][1..] == [97, 0, 0];
    assert t[1..] == [0, 0] && CString(t[1..]) == Some([]);
    assert [t[0]] + [] == [97];
  }

  lemma TextBytes()
    ensures LeBytes(0x6100, 4) == [0, 97, 0, 0]
  {
    assert LeBytes(0, 2) == [0, 0] && LeBytes(97, 3) == [97, 0, 0];
  }

  // ------------------------------------------------------------------ looking up

  /** Symbol 1 is called "a". */
  lemma Called(f: Elf, ws: seq<Word32>, k: nat, i: nat)
    requires OfWords(f, ws) && NamedA(ws, k) && i == 4 * k && f.symbols + SYMBOL_SIZE == AT + i && f.strings == AT + i + 24
    ensures SymbolAt(f, 1) == Some(Symbol(0x1234, 0x10)) && NameOf(f, 1) == Some([97])
  {
    ReadsSymbol(f, ws, k, i);
    ReadsName(f, ws, k + 6, i + 24);
  }

  lemma GnuHashOfA()
    ensures GnuHash([97]) == 177670
  {
    assert [97][1..] == [];
  }

  /** The header of the GNU table. */
  lemma GnuHeaderRead(f: Elf, ws: seq<Word32>)
    requires GnuExample(f, ws)
    ensures |Present(f, f.gnu, GNU_BYTES)| == GNU_BYTES && GnuOf(Remaining(f)) == GnuHeader(1, 1, 1, 6)
  {
    var b := Words32(ws);
    ReadsBytes(f, AT, b, 0, 16);
    var h := Remaining(f);
    assert h == b[0..16];
    FourWords(h, ws);
  }

  lemma FourWords(h: seq<Byte>, ws: seq<Word32>)
    requires |ws| >= 4 && |h| == 16 && h <= Words32(ws)
    ensures Word32At(h, 0) == ws[0] && Word32At(h, 4) == ws[1] && Word32At(h, 8) == ws[2] && Word32At(h, 12) == ws[3]
  {
    FrontWord(h, ws, 0, 0);
    FrontWord(h, ws, 1, 4);
    FrontWord(h, ws, 2, 8);
    FrontWord(h, ws, 3, 12);
  }

  lemma FrontWord(h: seq<Byte>, ws: seq<Word32>, k: nat, i: nat)
    requires k < |ws| && i == 4 * k && i + 4 <= |h| && h <= Words32(ws)
    ensures Word32At(h, i) == ws[k]
  {
    WordAt(ws, k, i);
    SamePart(h, Words32(ws), i);
    WordReadBack(ws[k]);
  }

  /** The name is found with its value and size; another one is refused by the filter. */
  lemma FindsInGnu(f: Elf, ws: seq<Word32>)
    requires GnuExample(f, ws)
    ensures Lookup(f, NO_HEADERS, [97]) == Hit(1, Symbol(0x1234, 0x10))
    ensures Lookup(f, NO_HEADERS, [98]) == NotFound
  {
    GnuHeaderRead(f, ws);
    FirstLookup(f);
    Called(f, ws, 14, 56);
    FindsA(f, ws, GnuHeader(1, 1, 1, 6));
    RefusesB(f, ws, GnuHeader(1, 1, 1, 6));
  }

  lemma FindsA(f: Elf, ws: seq<Word32>, hdr: GnuHeader)
    requires GnuExample(f, ws) && hdr == GnuHeader(1, 1, 1, 6) && NameOf(f, 1) == Some([97])
    ensures GnuLookup(f, hdr, [97]) == At(1)
  {
    GnuHashOfA();
    FilterRead(f, ws, hdr, 177670);
    FilterBits(hdr);
    MatchIsName(f, 1, [97]);
    BucketRead(f, ws, hdr);
    OneSymbol(f, hdr, [97], 177670);
  }

  lemma RefusesB(f: Elf, ws: seq<Word32>, hdr: GnuHeader)
    requires GnuExample(f, ws) && hdr == GnuHeader(1, 1, 1, 6)
    ensures GnuLookup(f, hdr, [98]) == Absent
  {
    GnuHashOfB();
    FilterRead(f, ws, hdr, 177671);
    FilterBits(hdr);
    Refused(f, hdr, [98], 177671);
  }

  lemma GnuHashOfB()
    ensures GnuHash([98]) == 177671
  {
    assert [98][1..] == [];
  }

  lemma Refused(f: Elf, hdr: GnuHeader, name: seq<Byte>, h: nat)
    requires hdr.numBuckets > 0 && hdr.bloomSize > 0 && GnuHash(name) == h
    requires Num(f, BloomAddr(f, hdr, h), 8).Some? && !BloomAdmits(Num(f, BloomAddr(f, hdr, h), 8).value, hdr, h)
    ensures GnuLookup(f, hdr, name) == Absent
  {
  }

  lemma OneSymbol(f: Elf, hdr: GnuHeader, name: seq<Byte>, h: nat)
    requires hdr.numBuckets == 1 && hdr.bloomSize == 1 && GnuHash(name) == h
    requires Num(f, BloomAddr(f, hdr, h), 8).Some? && BloomAdmits(Num(f, BloomAddr(f, hdr, h), 8).value, hdr, h)
    requires Num(f, BucketAddr(f, hdr, 0), 4) == Some(1)
    requires Num(f, ChainAddr(f, hdr, 1), 4) == Some(h / 2 * 2 + 1) && Matches(f, 1, name)
    ensures GnuLookup(f, hdr, name) == At(1)
  {
    OneBucket(h);
  }

  lemma BucketRead(f: Elf, ws: seq<Word32>, hdr: GnuHeader)
    requires GnuExample(f, ws) && hdr == GnuHeader(1, 1, 1, 6)
    ensures Num(f, BucketAddr(f, hdr, 0), 4) == Some(1) && Num(f, ChainAddr(f, hdr, 1), 4) == Some(177671)
  {
    ReadsWord(f, AT, ws, 6, 24);
    ReadsWord(f, AT, ws, 7, 28);
  }

  lemma FilterRead(f: Elf, ws: seq<Word32>, hdr: GnuHeader, h: nat)
    requires GnuExample(f, ws) && hdr == GnuHeader(1, 1, 1, 6)
    ensures Num(f, BloomAddr(f, hdr, h), 8) == Some(0x0100_0040)
  {
    OneBucket(h / 64);
    ReadsLong(f, ws, 4, 16);
  }

  /** The filter word has the bits 6 and 24, those of 177670; 177671 asks for bit 7. */
  lemma FilterBits(hdr: GnuHeader)
    requires hdr.bloomShift == 6
    ensures BloomAdmits(0x0100_0040, hdr, 177670) && !BloomAdmits(0x0100_0040, hdr, 177671)
  {
    SmallPowers();
    BitsOfFilter(0x0100_0040);
    Admitted(0x0100_0040, hdr, 177670, 2776);
    NotAdmitted(0x0100_0040, hdr, 177671);
  }

  lemma Admitted(w: nat, hdr: GnuHeader, h: nat, q: nat)
    requires Bit(w, h % 64) && q == h / Pow2(hdr.bloomShift) && Bit(w, q % 64)
    ensures BloomAdmits(w, hdr, h)
  {
  }

  lemma NotAdmitted(w: nat, hdr: GnuHeader, h: nat)
    requires !Bit(w, h % 64)
    ensures !BloomAdmits(w, hdr, h)
  {
  }

  lemma BitsOfFilter(w: nat)
    requires w == 0x0100_0040
    ensures Bit(w, 6) && Bit(w, 24) && !Bit(w, 7)
  {
    SmallPowers();
    assert w / 64 % 2 == 1 && w / 128 % 2 == 0 && w / 0x0100_0000 % 2 == 1;
  }

  lemma SmallPowers()
    ensures Pow2(6) == 64 && Pow2(7) == 128 && Pow2(24) == 0x0100_0000
  {
    assert Pow2(8) == 256;
    Pow2Split(8, 16);
    Pow2Split(8, 24);
  }

  /** The same symbol through the System V table. */
  lemma FindsInSysv(f: Elf, ws: seq<Word32>)
    requires SysvExample(f, ws)
    ensures Ends(f, NO_HEADERS, [97]) && Lookup(f, NO_HEADERS, [97]) == Hit(1, Symbol(0x1234, 0x10))
    ensures Ends(f, NO_HEADERS, [98]) && Lookup(f, NO_HEADERS, [98]) == NotFound
  {
    SysvFinds(f, ws, [97]);
    SysvFinds(f, ws, [98]);
  }

  lemma SysvFinds(f: Elf, ws: seq<Word32>, name: seq<Byte>)
    requires SysvExample(f, ws) && 0 !in name
    ensures Ends(f, NO_HEADERS, name)
    ensures Lookup(f, NO_HEADERS, name) == if name == [97] then Hit(1, Symbol(0x1234, 0x10)) else NotFound
  {
    SysvHeaderRead(f, ws);
    FirstSysvLookup(f);
    ZeroWord();
    Called(f, ws, 11, 44);
    SysvBuckets(f, ws, SysvHeader(1, 2), name);
    WalksSysv(f, SysvHeader(1, 2), name);
  }

  lemma SysvBuckets(f: Elf, ws: seq<Word32>, hdr: SysvHeader, name: seq<Byte>)
    requires SysvExample(f, ws) && hdr == SysvHeader(1, 2)
    ensures SysvBucket(f, hdr, name) == Some(1) && SysvNext(f, hdr, 1) == Some(0)
  {
    OneBucket(SysvHashOf(name));
    ReadsWord(f, AT, ws, 2, 8);
    ReadsWord(f, AT, ws, 4, 16);
  }

  lemma WalksSysv(f: Elf, hdr: SysvHeader, name: seq<Byte>)
    requires hdr == SysvHeader(1, 2) && SysvNext(f, hdr, 1) == Some(0) && NameOf(f, 1) == Some([97]) && 0 !in name
    ensures SysvWalk(f, hdr, name, 1, 2) == Some(if name == [97] then At(1) else Absent)
  {
    MatchIsName(f, 1, name);
    assert Stops(f, hdr, name, 0);
    assert SysvWalk(f, hdr, name, 0, 1) == Some(Absent);
  }

  lemma SysvHeaderRead(f: Elf, ws: seq<Word32>)
    requires SysvExample(f, ws)
    ensures |Present(f, f.sysv, SYSV_BYTES)| == SYSV_BYTES && SysvOf(SysvRemaining(f)) == SysvHeader(1, 2)
  {
    var b := Words32(ws);
    ReadsBytes(f, AT, b, 0, 8);
    var h := SysvRemaining(f);
    assert h == b[0..8];
    FrontWord(h, ws, 0, 0);
    FrontWord(h, ws, 1, 4);
  }
}
