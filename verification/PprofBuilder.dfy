/**
 `Builder` of internal/pprofout/pprofout.go: interning strings and frames while stacks are added,
 and writing the profile. Its bytes are those of `Pprof.ProfileFields` for the content collected.
 */
module PprofBuilder {
  import opened Words
  import opened Bytes
  import opened Protobuf
  import opened Pprof
  import opened FrameLabels
  import opened Wrappers

  // ------------------------------------------------------------------ stacks of labels

  /** Root-to-leaf labels as leaf-to-root frames. */
  function ParseAll(labels: seq<Str>): (fs: seq<Frame>)
    ensures |fs| == |labels|
  {
    if labels == [] then [] else ParseAll(labels[1..]) + [ParseFrame(labels[0])]
  }

  lemma {:induction false} ParseAllAt(labels: seq<Str>, i: nat)
    requires i < |labels|
    ensures ParseAll(labels)[i] == ParseFrame(labels[|labels| - 1 - i])
  {
    ParseAllFrom(labels, i, |labels| - 1 - i);
  }

  lemma {:induction false} ParseAllFrom(labels: seq<Str>, i: nat, k: nat)
    requires i + k + 1 == |labels|
    ensures ParseAll(labels)[i] == ParseFrame(labels[k])
  {
    if k > 0 {
      ParseAllFrom(labels[1..], i, k - 1);
    }
  }

  function Labels(fs: seq<Symbolized>): (labels: seq<Str>)
    ensures |labels| == |fs| && forall i :: 0 <= i < |fs| ==> labels[i] == FrameLabel(fs[i])
  {
    seq(|fs|, i requires 0 <= i < |fs| => FrameLabel(fs[i]))
  }

  /** A rendered stack, root to leaf, is recorded frame by frame, leaf to root. */
  lemma RenderedStack(fs: seq<Symbolized>, i: nat)
    requires i < |fs| && Legible(fs[|fs| - 1 - i]) && Fits64(fs[|fs| - 1 - i].line)
    ensures ParseAll(Labels(fs))[i] == Shown(fs[|fs| - 1 - i])
  {
    RenderedFrame(fs, i, |fs| - 1 - i);
  }

  lemma RenderedFrame(fs: seq<Symbolized>, i: nat, k: nat)
    requires i + k + 1 == |fs| && Legible(fs[k]) && Fits64(fs[k].line)
    ensures ParseAll(Labels(fs))[i] == Shown(fs[k])
  {
    ParseAllFrom(Labels(fs), i, k);
    LabelParsesIff(fs[k]);
  }

  /** And so it is among the stacks that a reader of the profile gets back. */
  lemma {:induction false} RenderedReadBack(stacks: seq<Stack>, k: nat, fs: seq<Symbolized>, i: nat)
    requires k < |stacks| && stacks[k].frames == ParseAll(Labels(fs))
    requires i < |fs| && Legible(fs[|fs| - 1 - i]) && Fits64(fs[|fs| - 1 - i].line)
    ensures |ShownStacks(stacks)| == |stacks| && ShownStacks(stacks)[k].count == stacks[k].count
    ensures |ShownStacks(stacks)[k].frames| == |fs|
    ensures ShownStacks(stacks)[k].frames[i] == ShownFrame(Shown(fs[|fs| - 1 - i]))
  {
    ShownStackAt(stacks, k);
    ShownFrameAt(stacks[k].frames, i);
    RenderedStack(fs, i);
  }

  lemma {:induction false} ShownStackAt(stacks: seq<Stack>, k: nat)
    requires k < |stacks|
    ensures |ShownStacks(stacks)| == |stacks|
    ensures ShownStacks(stacks)[k] == Stack(ShownFrames(stacks[k].frames), stacks[k].count)
  {
    var last := |stacks| - 1;
    if k < last {
      ShownStackAt(stacks[..last], k);
    } else if last > 0 {
      ShownStackAt(stacks[..last], 0);
    }
  }

  lemma {:induction false} ShownFrameAt(fs: seq<Frame>, i: nat)
    requires i < |fs|
    ensures ShownFrames(fs)[i] == ShownFrame(fs[i])
  {
    if i < |fs| - 1 {
      ShownFrameAt(fs[..|fs| - 1], i);
    }
  }

  lemma ParseAllNext(labels: seq<Str>, i: nat)
    requires i < |labels|
    ensures ParseAll(labels[i..]) == ParseAll(labels[i + 1..]) + [ParseFrame(labels[i])]
  {
    assert labels[i..][1..] == labels[i + 1..];
  }

  // ------------------------------------------------------------------ growing content

  /** More strings do not change what was written. */
  lemma MoreStrings(c: Content, s: Str)
    requires Good(c)
    ensures var c' := c.(strings := c.strings + [s]);
            && Good(c')
            && FunctionBytes(c', |c.frames|) == FunctionBytes(c, |c.frames|)
            && LocationBytes(c', |c.frames|) == LocationBytes(c, |c.frames|)
            && SampleBytes(c', |c.stacks|) == SampleBytes(c, |c.stacks|)
  {
    var c' := c.(strings := c.strings + [s]);
    forall i | 0 <= i < |c.frames|
      ensures Known(c', c.frames[i])
      ensures FunctionFields(c'.strings, i + 1, c.frames[i]) == FunctionFields(c.strings, i + 1, c.frames[i])
    {
      var f := c.frames[i];
      assert Known(c, f);
      IndexStable(c.strings, [s], f.name);
      IndexStable(c.strings, [s], f.filename);
    }
    forall i | 0 <= i < |c.stacks| ensures GoodStack(c', c.stacks[i]) {
      assert GoodStack(c, c.stacks[i]);
    }
  }

  /** One more frame adds one function and one location and moves no sample. */
  lemma MoreFrames(c: Content, f: Frame)
    requires Good(c) && Known(c, f)
    ensures var c' := c.(frames := c.frames + [f]); var n := |c.frames|;
            && Good(c')
            && FunctionBytes(c', n + 1) == FunctionBytes(c, n) + [EncFields(FunctionFields(c.strings, n + 1, f))]
            && LocationBytes(c', n + 1) == LocationBytes(c, n) + [EncFields(LocationFields(n + 1, f))]
            && SampleBytes(c', |c.stacks|) == SampleBytes(c, |c.stacks|)
  {
    FrameKept(c, f);
    FunctionAdded(c, f);
    LocationAdded(c, f);
    SamplesKept(c, f);
  }

  lemma FrameKept(c: Content, f: Frame)
    requires Good(c) && Known(c, f)
    ensures Good(c.(frames := c.frames + [f]))
  {
    var c' := c.(frames := c.frames + [f]);
    forall i | 0 <= i < |c'.frames| ensures Known(c', c'.frames[i]) {
      if i < |c.frames| {
        assert Known(c, c.frames[i]);
      }
    }
    forall i | 0 <= i < |c.stacks| ensures GoodStack(c', c.stacks[i]) {
      assert GoodStack(c, c.stacks[i]);
    }
  }

  lemma {:induction false} FunctionAdded(c: Content, f: Frame)
    requires Good(c) && Known(c, f) && Good(c.(frames := c.frames + [f]))
    ensures FunctionBytes(c.(frames := c.frames + [f]), |c.frames| + 1)
         == FunctionBytes(c, |c.frames|) + [EncFields(FunctionFields(c.strings, |c.frames| + 1, f))]
  {
  }

  lemma LocationAdded(c: Content, f: Frame)
    ensures LocationBytes(c.(frames := c.frames + [f]), |c.frames| + 1)
         == LocationBytes(c, |c.frames|) + [EncFields(LocationFields(|c.frames| + 1, f))]
  {
  }

  lemma SamplesKept(c: Content, f: Frame)
    requires Good(c) && Good(c.(frames := c.frames + [f]))
    ensures SampleBytes(c.(frames := c.frames + [f]), |c.stacks|) == SampleBytes(c, |c.stacks|)
  {
    var c' := c.(frames := c.frames + [f]);
    forall i | 0 <= i < |c.stacks|
      ensures SampleBytes(c', |c.stacks|)[i] == SampleBytes(c, |c.stacks|)[i]
    {
      assert GoodStack(c, c.stacks[i]) && GoodStack(c', c.stacks[i]);
      IdsStable(c.frames, f, c.stacks[i].frames);
    }
  }

  lemma IdsStable(frames: seq<Frame>, f: Frame, fs: seq<Frame>)
    requires forall i :: 0 <= i < |fs| ==> fs[i] in frames
    ensures forall i :: 0 <= i < |fs| ==> fs[i] in frames + [f]
    ensures LocationIds(frames + [f], fs) == LocationIds(frames, fs)
  {
    forall i | 0 <= i < |fs| ensures fs[i] in frames + [f] && IndexIn(frames + [f], fs[i]) == IndexIn(frames, fs[i]) {
      IndexStable(frames, [f], fs[i]);
    }
  }

  lemma MoreStacks(c: Content, s: Stack)
    requires Good(c) && GoodStack(c, s)
    ensures var c' := c.(stacks := c.stacks + [s]);
            && Good(c')
            && FunctionBytes(c', |c.frames|) == FunctionBytes(c, |c.frames|)
            && LocationBytes(c', |c.frames|) == LocationBytes(c, |c.frames|)
            && SampleBytes(c', |c.stacks| + 1) == SampleBytes(c, |c.stacks|) + [EncFields(SampleFields(c.frames, s))]
  {
    StackKept(c, s);
    var c' := c.(stacks := c.stacks + [s]);
    assert FunctionBytes(c', |c.frames|) == FunctionBytes(c, |c.frames|);
    assert LocationBytes(c', |c.frames|) == LocationBytes(c, |c.frames|);
    SampleAppended(c, s);
  }

  lemma StackKept(c: Content, s: Stack)
    requires Good(c) && GoodStack(c, s)
    ensures Good(c.(stacks := c.stacks + [s]))
  {
    var c' := c.(stacks := c.stacks + [s]);
    forall i | 0 <= i < |c.frames| ensures Known(c', c.frames[i]) {
      assert Known(c, c.frames[i]);
    }
    forall i | 0 <= i < |c'.stacks| ensures GoodStack(c', c'.stacks[i]) {
      if i < |c.stacks| {
        assert GoodStack(c, c.stacks[i]);
      }
    }
  }

  lemma SampleAppended(c: Content, s: Stack)
    requires Good(c) && GoodStack(c, s) && Good(c.(stacks := c.stacks + [s]))
    ensures SampleBytes(c.(stacks := c.stacks + [s]), |c.stacks| + 1)
         == SampleBytes(c, |c.stacks|) + [EncFields(SampleFields(c.frames, s))]
  {
  }

  // ------------------------------------------------------------------ the builder

  /** `m` numbers the elements of `s`, starting at `base`. */
  ghost predicate Numbering<T(!new)>(m: map<T, nat>, s: seq<T>, base: nat) {
    && (forall i :: 0 <= i < |s| ==> s[i] in m && m[s[i]] == base + i)
    && (forall x :: x in m ==> base <= m[x] < base + |s| && s[m[x] - base] == x)
  }

  lemma Numbered<T(!new)>(m: map<T, nat>, s: seq<T>, base: nat, x: T)
    requires Numbering(m, s, base) && x in m
    ensures x in s && m[x] == base + IndexIn(s, x)
  {
    assert s[m[x] - base] == x;
    var i := IndexIn(s, x);
    assert s[i] in m;
  }

  lemma NumberingGrows<T(!new)>(m: map<T, nat>, s: seq<T>, base: nat, x: T)
    requires Numbering(m, s, base) && x !in m
    ensures Numbering(m[x := base + |s|], s + [x], base)
  {
    var m', s' := m[x := base + |s|], s + [x];
    forall i | 0 <= i < |s'| ensures s'[i] in m' && m'[s'[i]] == base + i {
      if i < |s| {
        assert s'[i] == s[i] && s[i] in m;
      }
    }
  }

  ghost predicate Tables(c: Content, strIdx: map<Str, nat>, idx: map<Frame, nat>, funcs: seq<seq<Byte>>, locations: seq<seq<Byte>>)
  {
    && Good(c) && Numbering(strIdx, c.strings, 0) && Numbering(idx, c.frames, 1)
    && funcs == FunctionBytes(c, |c.frames|)
    && locations == LocationBytes(c, |c.frames|)
  }

  /** The builder's fields hold exactly the content `c`: one message for each stack, over tables that agree with it. */
  ghost predicate Describes(c: Content, strIdx: map<Str, nat>, idx: map<Frame, nat>,
                            funcs: seq<seq<Byte>>, locations: seq<seq<Byte>>, samples: seq<seq<Byte>>)
    decreases |c.stacks|
  {
    if c.stacks == [] then samples == [] && Tables(c, strIdx, idx, funcs, locations)
    else
      var n := |c.stacks| - 1;
      && |samples| == n + 1
      && GoodStack(c, c.stacks[n]) && samples[n] == EncFields(SampleFields(c.frames, c.stacks[n]))
      && Describes(c.(stacks := c.stacks[..|c.stacks| - 1]), strIdx, idx, funcs, locations, samples[..n])
  }

  /** All but the last stack. */
  ghost function Less(c: Content): Content
    requires c.stacks != []
  {
    c.(stacks := c.stacks[..|c.stacks| - 1])
  }

  lemma LastStack(c: Content)
    requires Good(c) && c.stacks != []
    ensures Good(Less(c)) && GoodStack(Less(c), c.stacks[|c.stacks| - 1])
  {
    var less := Less(c);
    forall i | 0 <= i < |c.frames| ensures Known(less, less.frames[i]) {
      assert Known(c, c.frames[i]);
    }
    forall i | 0 <= i < |c.stacks| ensures GoodStack(less, c.stacks[i]) {
      assert GoodStack(c, c.stacks[i]);
    }
  }

  lemma SplitLast<T>(s: seq<T>)
    requires s != []
    ensures s[..|s| - 1] + [s[|s| - 1]] == s
  {
  }

  lemma SamplesSplit(c: Content)
    requires Good(c) && c.stacks != []
    ensures Good(Less(c)) && SampleBytes(c, |c.stacks|)[..|c.stacks| - 1] == SampleBytes(Less(c), |c.stacks| - 1)
  {
    LastStack(c);
    var n := |c.stacks| - 1;
    forall i | 0 <= i < n ensures SampleBytes(c, n + 1)[i] == SampleBytes(Less(c), n)[i] {
      assert GoodStack(c, c.stacks[i]) && GoodStack(Less(c), Less(c).stacks[i]);
    }
  }

  lemma TablesSplit(c: Content, strIdx: map<Str, nat>, idx: map<Frame, nat>,
                    funcs: seq<seq<Byte>>, locations: seq<seq<Byte>>)
    requires Good(c) && c.stacks != []
    requires Good(Less(c))
    ensures Tables(Less(c), strIdx, idx, funcs, locations) <==> Tables(c, strIdx, idx, funcs, locations)
  {
    assert FunctionBytes(Less(c), |c.frames|) == FunctionBytes(c, |c.frames|);
    assert LocationBytes(Less(c), |c.frames|) == LocationBytes(c, |c.frames|);
  }

  lemma GoodAgain(c: Content)
    requires c.stacks != [] && Good(Less(c)) && GoodStack(c, c.stacks[|c.stacks| - 1])
    ensures Good(c)
  {
    var less := Less(c);
    forall i | 0 <= i < |c.frames| ensures Known(c, c.frames[i]) {
      assert Known(less, less.frames[i]);
    }
    forall i | 0 <= i < |c.stacks| ensures GoodStack(c, c.stacks[i]) {
      if i < |c.stacks| - 1 {
        assert GoodStack(less, less.stacks[i]);
      }
    }
  }

  lemma {:induction false} Described(c: Content, strIdx: map<Str, nat>, idx: map<Frame, nat>,
                                     funcs: seq<seq<Byte>>, locations: seq<seq<Byte>>, samples: seq<seq<Byte>>)
    requires Describes(c, strIdx, idx, funcs, locations, samples)
    ensures Tables(c, strIdx, idx, funcs, locations) && samples == SampleBytes(c, |c.stacks|)
    decreases |c.stacks|
  {
    if c.stacks != [] {
      Described(Less(c), strIdx, idx, funcs, locations, samples[..|c.stacks| - 1]);
      GoodAgain(c);
      TablesSplit(c, strIdx, idx, funcs, locations);
      SamplesSplit(c);
      SplitLast(samples);
      SplitLast(SampleBytes(c, |c.stacks|));
    }
  }

  lemma {:induction false} ToDescribe(c: Content, strIdx: map<Str, nat>, idx: map<Frame, nat>,
                                      funcs: seq<seq<Byte>>, locations: seq<seq<Byte>>, samples: seq<seq<Byte>>)
    requires Tables(c, strIdx, idx, funcs, locations) && samples == SampleBytes(c, |c.stacks|)
    ensures Describes(c, strIdx, idx, funcs, locations, samples)
    decreases |c.stacks|
  {
    if c.stacks != [] {
      LastStack(c);
      TablesSplit(c, strIdx, idx, funcs, locations);
      SamplesSplit(c);
      assert GoodStack(c, c.stacks[|c.stacks| - 1]);
      ToDescribe(Less(c), strIdx, idx, funcs, locations, samples[..|c.stacks| - 1]);
    }
  }

  lemma StringAdded(c: Content, strIdx: map<Str, nat>, idx: map<Frame, nat>,
                    funcs: seq<seq<Byte>>, locations: seq<seq<Byte>>, samples: seq<seq<Byte>>, s: Str, i: nat)
    requires Describes(c, strIdx, idx, funcs, locations, samples) && s !in strIdx && i == |c.strings|
    ensures Describes(c.(strings := c.strings + [s]), strIdx[s := i], idx, funcs, locations, samples)
    ensures s in c.strings + [s] && IndexIn(c.strings + [s], s) == i
  {
    Described(c, strIdx, idx, funcs, locations, samples);
    MoreStrings(c, s);
    NumberingGrows(strIdx, c.strings, 0, s);
    Numbered(strIdx[s := i], c.strings + [s], 0, s);
    ToDescribe(c.(strings := c.strings + [s]), strIdx[s := i], idx, funcs, locations, samples);
  }

  lemma FrameAdded(c: Content, strIdx: map<Str, nat>, idx: map<Frame, nat>,
                   funcs: seq<seq<Byte>>, locations: seq<seq<Byte>>, samples: seq<seq<Byte>>,
                   f: Frame, fn: seq<Byte>, loc: seq<Byte>, id: nat)
    requires Describes(c, strIdx, idx, funcs, locations, samples) && f !in idx && Known(c, f)
    requires id == |c.frames| + 1
    requires fn == EncFields(FunctionFields(c.strings, id, f)) && loc == EncFields(LocationFields(id, f))
    ensures Describes(c.(frames := c.frames + [f]), strIdx, idx[f := id], funcs + [fn], locations + [loc], samples)
    ensures f in c.frames + [f] && IndexIn(c.frames + [f], f) == id - 1
  {
    Described(c, strIdx, idx, funcs, locations, samples);
    MoreFrames(c, f);
    NumberingGrows(idx, c.frames, 1, f);
    Numbered(idx[f := id], c.frames + [f], 1, f);
    ToDescribe(c.(frames := c.frames + [f]), strIdx, idx[f := id], funcs + [fn], locations + [loc], samples);
  }

  lemma StackAdded(c: Content, strIdx: map<Str, nat>, idx: map<Frame, nat>,
                   funcs: seq<seq<Byte>>, locations: seq<seq<Byte>>, samples: seq<seq<Byte>>, s: Stack, sample: seq<Byte>)
    requires Describes(c, strIdx, idx, funcs, locations, samples) && GoodStack(c, s)
    requires sample == EncFields(SampleFields(c.frames, s))
    ensures Describes(c.(stacks := c.stacks + [s]), strIdx, idx, funcs, locations, samples + [sample])
  {
    Described(c, strIdx, idx, funcs, locations, samples);
    MoreStacks(c, s);
    ToDescribe(c.(stacks := c.stacks + [s]), strIdx, idx, funcs, locations, samples + [sample]);
  }

  /** Tables have the sizes and the numbers they should. */
  lemma TableSizes(c: Content, strIdx: map<Str, nat>, idx: map<Frame, nat>,
                   funcs: seq<seq<Byte>>, locations: seq<seq<Byte>>, samples: seq<seq<Byte>>)
    requires Describes(c, strIdx, idx, funcs, locations, samples)
    ensures |funcs| == |locations| == |c.frames| && [] in c.strings
  {
    Described(c, strIdx, idx, funcs, locations, samples);
    assert c.strings[0] == [];
  }

  lemma KnownString(c: Content, strIdx: map<Str, nat>, idx: map<Frame, nat>,
                    funcs: seq<seq<Byte>>, locations: seq<seq<Byte>>, samples: seq<seq<Byte>>, s: Str)
    requires Describes(c, strIdx, idx, funcs, locations, samples) && s in strIdx
    ensures s in c.strings && strIdx[s] == IndexIn(c.strings, s)
  {
    Described(c, strIdx, idx, funcs, locations, samples);
    Numbered(strIdx, c.strings, 0, s);
  }

  lemma KnownFrame(c: Content, strIdx: map<Str, nat>, idx: map<Frame, nat>,
                   funcs: seq<seq<Byte>>, locations: seq<seq<Byte>>, samples: seq<seq<Byte>>, f: Frame)
    requires Describes(c, strIdx, idx, funcs, locations, samples) && f in idx
    ensures f in c.frames && idx[f] == IndexIn(c.frames, f) + 1
  {
    Described(c, strIdx, idx, funcs, locations, samples);
    Numbered(idx, c.frames, 1, f);
  }

  /** `ids` are the locations of `fs`. */
  ghost predicate Located(frames: seq<Frame>, fs: seq<Frame>, ids: seq<nat>) {
    (forall i :: 0 <= i < |fs| ==> fs[i] in frames) && ids == LocationIds(frames, fs)
  }

  /** Decoding the message and following its references gives these stacks. */
  ghost predicate ReadsBack(b: seq<Byte>, stacks: seq<Stack>) {
    var p := DecodeProfile(b);
    && p.Some? && p.value.strings != [] && p.value.strings[0] == []
    && ResolveSamples(p.value, p.value.samples) == Some(ShownStacks(stacks))
  }

  lemma LabelsAdded(c: Content, strIdx: map<Str, nat>, idx: map<Frame, nat>,
                    funcs: seq<seq<Byte>>, locations: seq<seq<Byte>>, samples: seq<seq<Byte>>,
                    labels: seq<Str>, count: nat, ids: seq<nat>, sample: seq<Byte>)
    requires Describes(c, strIdx, idx, funcs, locations, samples)
    requires labels != [] && count > 0 && Located(c.frames, ParseAll(labels), ids)
    requires sample == EncFields([Len(1, EncPacked(ids)), Len(2, EncPacked([count]))])
    ensures Describes(c.(stacks := c.stacks + [Stack(ParseAll(labels), count)]), strIdx, idx, funcs, locations, samples + [sample])
  {
    var stack := Stack(ParseAll(labels), count);
    assert GoodStack(c, stack);
    StackAdded(c, strIdx, idx, funcs, locations, samples, stack, sample);
  }

  class Builder {
    var strtab: seq<Str>
    var strIdx: map<Str, nat>
    var funcs: seq<seq<Byte>>
    var funcIdx: map<Frame, nat>
    var locIdx: map<Frame, nat>
    var locations: seq<seq<Byte>>
    var samples: seq<seq<Byte>>
    /** What has been collected, for the proof. */
    ghost var content: Content

    ghost predicate Valid()
      reads this
    {
      && content.strings == strtab && funcIdx == locIdx
      && Describes(content, strIdx, locIdx, funcs, locations, samples)
    }

    constructor ()
      ensures Valid() && content == Content([[]], [], [])
    {
      strtab, strIdx := [[]], map[[] := 0];
      funcs, funcIdx, locIdx, locations, samples := [], map[], map[], [], [];
      content := Content([[]], [], []);
    }

    method StringIndex(s: Str) returns (i: nat)
      requires Valid()
      modifies this`strtab, this`strIdx, this`content
      ensures Valid() && old(strtab) <= strtab
      ensures content == old(content).(strings := strtab)
      ensures s in strtab && i == IndexIn(strtab, s)
    {
      if s in strIdx {
        KnownString(content, strIdx, locIdx, funcs, locations, samples, s);
        return strIdx[s];
      }
      i := |strtab|;
      StringAdded(content, strIdx, locIdx, funcs, locations, samples, s, i);
      StoreString(s, i);
    }

    method StoreString(s: Str, i: nat)
      modifies this`strtab, this`strIdx, this`content
      ensures strtab == old(strtab) + [s] && strIdx == old(strIdx)[s := i]
      ensures content == old(content).(strings := strtab)
    {
      strtab, strIdx := strtab + [s], strIdx[s := i];
      content := content.(strings := strtab);
    }

    /** The name, twice: as shown and as the system knows it. */
    method NameFields(fn: ProtoWriter, name: Str)
      requires Valid()
      modifies this`strtab, this`strIdx, this`content, fn
      ensures Valid() && content == old(content).(strings := strtab) && name in strtab
      ensures var i := IndexIn(strtab, name);
              fn.buf == old(fn.buf) + EncField(Varint(2, i)) + EncField(Varint(3, i))
    {
      var i := StringIndex(name);
      fn.Uint64Field(2, i);
      ghost var strings := strtab;
      i := StringIndex(name);
      IndexInLonger(strings, strtab, name);
      fn.Uint64Field(3, i);
    }

    /** Names a frame's file, if it has one. */
    method FilenameField(fn: ProtoWriter, filename: Str)
      requires Valid()
      modifies this`strtab, this`strIdx, this`content, fn
      ensures Valid() && old(strtab) <= strtab && content == old(content).(strings := strtab) && filename in strtab
      ensures fn.buf == old(fn.buf) + (if filename != [] then EncField(Varint(4, IndexIn(strtab, filename))) else [])
    {
      if filename != [] {
        var file := StringIndex(filename);
        fn.Uint64Field(4, file);
      } else {
        TableSizes(content, strIdx, locIdx, funcs, locations, samples);
      }
    }

    /** A number field that is left out unless positive. */
    method PositiveField(p: ProtoWriter, num: nat, v: int)
      modifies p
      ensures p.buf == old(p.buf) + (if v > 0 then EncField(Varint(num, v)) else [])
    {
      if v > 0 {
        p.Uint64Field(num, v);
      }
    }

    /** The function message of a frame, interning its strings. */
    method WriteFunction(id: nat, f: Frame) returns (b: seq<Byte>)
      requires Valid()
      modifies this`strtab, this`strIdx, this`content
      ensures Valid() && content == old(content).(strings := strtab)
      ensures Known(content, f) && b == EncFields(FunctionFields(strtab, id, f))
    {
      var fn := new ProtoWriter();
      fn.Uint64Field(1, id);
      NameFields(fn, f.name);
      ghost var strings := strtab;
      FilenameField(fn, f.filename);
      PositiveField(fn, 5, f.line);
      IndexInLonger(strings, strtab, f.name);
      FunctionWritten(strtab, id, f, IndexIn(strtab, f.name));
      b := fn.buf;
    }

    /** The location of a frame, created on first use. */
    method FrameLocation(f: Frame) returns (id: nat)
      requires Valid()
      modifies this
      ensures Valid() && f in content.frames && id == IndexIn(content.frames, f) + 1
      ensures old(content.frames) <= content.frames && content.stacks == old(content.stacks)
    {
      if f in locIdx {
        KnownFrame(content, strIdx, locIdx, funcs, locations, samples, f);
        return locIdx[f];
      }
      TableSizes(content, strIdx, locIdx, funcs, locations, samples);
      id := |locations| + 1;
      var fn := WriteFunction(id, f);
      var loc := WriteLocation(id, f);
      AppendFrame(f, id, fn, loc);
    }

    method WriteLocation(id: nat, f: Frame) returns (b: seq<Byte>)
      ensures b == EncFields(LocationFields(id, f))
    {
      var line := new ProtoWriter();
      line.Uint64Field(1, id);
      PositiveField(line, 2, f.line);
      var loc := new ProtoWriter();
      loc.Uint64Field(1, id);
      loc.BytesField(4, line.buf);
      LocationWritten(id, f);
      b := loc.buf;
    }

    /** Records a new frame with its function and location messages. */
    method AppendFrame(f: Frame, id: nat, fn: seq<Byte>, loc: seq<Byte>)
      requires Valid() && f !in locIdx && Known(content, f) && id == |content.frames| + 1
      requires fn == EncFields(FunctionFields(strtab, id, f)) && loc == EncFields(LocationFields(id, f))
      modifies this`funcs, this`funcIdx, this`locations, this`locIdx, this`content
      ensures Valid() && content == old(content).(frames := old(content).frames + [f])
      ensures f in content.frames && id == IndexIn(content.frames, f) + 1
    {
      FrameAdded(content, strIdx, locIdx, funcs, locations, samples, f, fn, loc, id);
      ghost var c := content.(frames := content.frames + [f]);
      StoreFrame(f, id, fn, loc, c);
      assert Describes(c, strIdx, locIdx, funcs, locations, samples);
    }

    method StoreFrame(f: Frame, id: nat, fn: seq<Byte>, loc: seq<Byte>, ghost c: Content)
      modifies this`funcs, this`funcIdx, this`locations, this`locIdx, this`content
      ensures funcs == old(funcs) + [fn] && funcIdx == old(funcIdx)[f := id]
      ensures locations == old(locations) + [loc] && locIdx == old(locIdx)[f := id] && content == c
    {
      funcs, locations := funcs + [fn], locations + [loc];
      funcIdx, locIdx := funcIdx[f := id], locIdx[f := id];
      content := c;
    }

    method AppendLocation(f: Frame, ids: seq<nat>, ghost fs: seq<Frame>) returns (more: seq<nat>)
      requires Valid() && Located(content.frames, fs, ids)
      modifies this
      ensures Valid() && content.stacks == old(content.stacks) && Located(content.frames, fs + [f], more)
    {
      ghost var before := content.frames;
      var id := FrameLocation(f);
      NextId(before, content.frames, fs, f, ids, id);
      more := ids + [id];
    }

    /** The locations of the frames, leaf first. */
    method LocationsOf(labels: seq<Str>) returns (ids: seq<nat>)
      requires Valid()
      modifies this
      ensures Valid() && content.stacks == old(content.stacks)
      ensures Located(content.frames, ParseAll(labels), ids)
    {
      ids := [];
      for i := |labels| downto 0
        invariant Valid() && content.stacks == old(content.stacks)
        invariant Located(content.frames, ParseAll(labels[i..]), ids)
      {
        ParseAllNext(labels, i);
        ids := AppendLocation(ParseFrame(labels[i]), ids, ParseAll(labels[i + 1..]));
      }
      assert labels[0..] == labels;
    }

    /** Records one sample given root to leaf; an empty stack or a count below one is ignored. */
    method AddStack(labels: seq<Str>, count: int)
      requires Valid()
      modifies this
      ensures Valid()
      ensures content.stacks == if labels == [] || count <= 0 then old(content.stacks)
                                else old(content.stacks) + [Stack(ParseAll(labels), count)]
    {
      if |labels| == 0 || count <= 0 {
        return;
      }
      var ids := LocationsOf(labels);
      var sample := WriteSample(ids, count);
      RecordSample(labels, count, ids, sample);
    }

    method RecordSample(labels: seq<Str>, count: nat, ids: seq<nat>, sample: seq<Byte>)
      requires Valid() && labels != [] && count > 0 && Located(content.frames, ParseAll(labels), ids)
      requires sample == EncFields([Len(1, EncPacked(ids)), Len(2, EncPacked([count]))])
      modifies this`samples, this`content
      ensures Valid() && content == old(content).(stacks := old(content).stacks + [Stack(ParseAll(labels), count)])
    {
      LabelsAdded(content, strIdx, locIdx, funcs, locations, samples, labels, count, ids, sample);
      StoreSamples(samples + [sample], content.(stacks := content.stacks + [Stack(ParseAll(labels), count)]));
    }

    method StoreSamples(more: seq<seq<Byte>>, ghost c: Content)
      requires c.strings == strtab && funcIdx == locIdx && Describes(c, strIdx, locIdx, funcs, locations, more)
      modifies this`samples, this`content
      ensures Valid() && samples == more && content == c
    {
      samples, content := more, c;
    }

    method WriteSample(ids: seq<nat>, count: nat) returns (b: seq<Byte>)
      requires ids != []
      ensures b == EncFields([Len(1, EncPacked(ids)), Len(2, EncPacked([count]))])
    {
      var s := new ProtoWriter();
      s.PackedField(1, ids);
      s.PackedField(2, [count]);
      TwoFields(Len(1, EncPacked(ids)), Len(2, EncPacked([count])));
      b := s.buf;
    }

    method WriteAll(p: ProtoWriter, num: nat, bs: seq<seq<Byte>>)
      modifies p
      ensures p.buf == old(p.buf) + EncFields(Tagged(num, bs))
    {
      for i := 0 to |bs|
        invariant p.buf == old(p.buf) + EncFields(Tagged(num, bs[..i]))
      {
        assert Tagged(num, bs[..i + 1])[..i] == Tagged(num, bs[..i]);
        p.BytesField(num, bs[i]);
        Assoc(old(p.buf), EncFields(Tagged(num, bs[..i])), EncField(Len(num, bs[i])));
      }
      assert bs[..|bs|] == bs;
    }

    method WriteSampleType() returns (b: seq<Byte>)
      requires Valid()
      modifies this`strtab, this`strIdx, this`content
      ensures Valid() && content == old(content).(strings := strtab)
      ensures SAMPLES in strtab && COUNT in strtab && b == EncFields(SampleTypeFields(strtab))
    {
      var st := new ProtoWriter();
      var i := StringIndex(SAMPLES);
      st.Uint64Field(1, i);
      ghost var strings := strtab;
      i := StringIndex(COUNT);
      st.Uint64Field(2, i);
      IndexInLonger(strings, strtab, SAMPLES);
      TwoFields(Varint(1, IndexIn(strtab, SAMPLES)), Varint(2, i));
      b := st.buf;
    }

    /** The message part of `Write`: everything before compression. */
    method Write(time: Word, duration: int) returns (b: seq<Byte>)
      requires Valid()
      modifies this
      ensures Valid() && SAMPLES in content.strings && COUNT in content.strings
      ensures Good(content) && content.stacks == old(content.stacks)
      ensures b == EncFields(ProfileFields(content, time, if duration > 0 then duration else 0))
      ensures ReadsBack(b, content.stacks)
      ensures DecodeHeader(b)
           == Some(Header([115, 97, 109, 112, 108, 101, 115], [99, 111, 117, 110, 116], time, if duration > 0 then duration else 0))
    {
      var st := WriteSampleType();
      var p := new ProtoWriter();
      p.BytesField(1, st);
      WriteAll(p, 2, samples);
      WriteAll(p, 4, locations);
      WriteAll(p, 5, funcs);
      WriteAll(p, 6, strtab);
      p.Uint64Field(9, time);
      PositiveField(p, 10, duration);
      ProfileIs(content, strIdx, locIdx, funcs, locations, samples, time, duration);
      HeaderRoundTrip(content, time, if duration > 0 then duration else 0);
      b := p.buf;
    }
  }

  lemma IndexInLonger(s: seq<Str>, t: seq<Str>, x: Str)
    requires s <= t && x in s
    ensures x in t && IndexIn(t, x) == IndexIn(s, x)
  {
    assert t == s + t[|s|..];
    IndexStable(s, t[|s|..], x);
  }

  lemma NextId(before: seq<Frame>, after: seq<Frame>, fs: seq<Frame>, f: Frame, ids: seq<nat>, id: nat)
    requires before <= after && Located(before, fs, ids)
    requires f in after && id == IndexIn(after, f) + 1
    ensures Located(after, fs + [f], ids + [id])
  {
    assert after == before + after[|before|..];
    forall k | 0 <= k < |fs| ensures fs[k] in after && IndexIn(after, fs[k]) == IndexIn(before, fs[k]) {
      IndexStable(before, after[|before|..], fs[k]);
    }
  }

  lemma TwoFields(f: Field, g: Field)
    ensures EncFields([f, g]) == EncField(f) + EncField(g)
    ensures [] + EncField(f) == EncField(f)
  {
    assert [f, g] == [f] + [g];
    EncFieldsConcat([f], [g]);
    OneField(f);
    OneField(g);
  }

  lemma LocationWritten(id: nat, f: Frame)
    ensures EncFields(LineFields(id, f)) == [] + EncField(Varint(1, id)) + (if f.line > 0 then EncField(Varint(2, f.line)) else [])
    ensures EncFields(LocationFields(id, f)) == [] + EncField(Varint(1, id)) + EncField(Len(4, EncFields(LineFields(id, f))))
  {
    OneField(Varint(1, id));
    if f.line > 0 {
      TwoFields(Varint(1, id), Varint(2, f.line));
      assert LineFields(id, f) == [Varint(1, id), Varint(2, f.line)];
    } else {
      assert LineFields(id, f) == [Varint(1, id)];
    }
    TwoFields(Varint(1, id), Len(4, EncFields(LineFields(id, f))));
  }

  lemma FunctionWritten(strings: seq<Str>, id: nat, f: Frame, name: nat)
    requires f.name in strings && f.filename in strings && name == IndexIn(strings, f.name)
    ensures EncFields(FunctionFields(strings, id, f))
            == [] + EncField(Varint(1, id)) + EncField(Varint(2, name)) + EncField(Varint(3, name))
               + (if f.filename != [] then EncField(Varint(4, IndexIn(strings, f.filename))) else [])
               + (if f.line > 0 then EncField(Varint(5, f.line)) else [])
  {
    var file := if f.filename != [] then [Varint(4, IndexIn(strings, f.filename))] else [];
    var line := if f.line > 0 then [Varint(5, f.line)] else [];
    FiveFields(Varint(1, id), Varint(2, name), Varint(3, name), file, line);
    if f.filename != [] {
      OneField(file[0]);
    }
    if f.line > 0 {
      OneField(line[0]);
    }
  }

  lemma FiveFields(a: Field, b: Field, c: Field, d: seq<Field>, e: seq<Field>)
    ensures EncFields([a, b, c] + d + e) == [] + EncField(a) + EncField(b) + EncField(c) + EncFields(d) + EncFields(e)
  {
    EncFieldsConcat([a, b, c] + d, e);
    EncFieldsConcat([a, b, c], d);
    assert [a, b, c] == [a, b] + [c];
    EncFieldsConcat([a, b], [c]);
    TwoFields(a, b);
    OneField(c);
  }

  lemma ProfileWritten(st: Field, ss: seq<Field>, ls: seq<Field>, fs: seq<Field>, xs: seq<Field>, t: Field, duration: int)
    ensures EncFields([st] + ss + ls + fs + xs + [t] + (if duration > 0 then [Varint(10, duration)] else []))
         == [] + EncField(st) + EncFields(ss) + EncFields(ls) + EncFields(fs) + EncFields(xs) + EncField(t)
            + (if duration > 0 then EncField(Varint(10, duration)) else [])
  {
    var d := if duration > 0 then [Varint(10, duration)] else [];
    if duration > 0 {
      OneField(d[0]);
    }
    EncFieldsConcat([st] + ss + ls + fs + xs + [t], d);
    EncFieldsConcat([st] + ss + ls + fs + xs, [t]);
    EncFieldsConcat([st] + ss + ls + fs, xs);
    EncFieldsConcat([st] + ss + ls, fs);
    EncFieldsConcat([st] + ss, ls);
    EncFieldsConcat([st], ss);
    OneField(st);
    OneField(t);
  }

  /** The profile is its tables and samples, one after another. */
  lemma ProfileIs(c: Content, strIdx: map<Str, nat>, idx: map<Frame, nat>, funcs: seq<seq<Byte>>,
                  locations: seq<seq<Byte>>, samples: seq<seq<Byte>>, time: Word, duration: int)
    requires Describes(c, strIdx, idx, funcs, locations, samples) && SAMPLES in c.strings && COUNT in c.strings
    ensures Good(c)
    ensures ReadsBack(EncFields(ProfileFields(c, time, if duration > 0 then duration else 0)), c.stacks)
    ensures EncFields(ProfileFields(c, time, if duration > 0 then duration else 0))
         == [] + EncField(Len(1, EncFields(SampleTypeFields(c.strings))))
            + EncFields(Tagged(2, samples)) + EncFields(Tagged(4, locations)) + EncFields(Tagged(5, funcs))
            + EncFields(Tagged(6, c.strings)) + EncField(Varint(9, time))
            + (if duration > 0 then EncField(Varint(10, duration)) else [])
  {
    Described(c, strIdx, idx, funcs, locations, samples);
    ProfileWritten(Len(1, EncFields(SampleTypeFields(c.strings))), Tagged(2, samples), Tagged(4, locations), Tagged(5, funcs),
                   Tagged(6, c.strings), Varint(9, time), duration);
    ProfileRoundTrip(c, time, if duration > 0 then duration else 0);
  }
}
