/**
 The flamegraph of reporter/local.go: stacks joined to keys and counted, folded into a prefix tree,
 and laid out as nested intervals.
 */
module Flamegraph {
  import opened Words
  import opened Bytes
  import opened FrameLabels
  import opened Wrappers

  // ------------------------------------------------------------------ keys

  /** ";" */
  const SEPARATOR: Byte := 59

  /** `strings.Join(parts, ";")` */
  function Join(parts: seq<Str>): Str
    requires parts != []
  {
    if |parts| == 1 then parts[0] else parts[0] + [SEPARATOR] + Join(parts[1..])
  }

  /** `strings.Split(key, ";")` */
  function Split(key: Str): (parts: seq<Str>)
    ensures parts != []
  {
    if key == [] then [[]]
    else
      var rest := Split(key[1..]);
      if key[0] == SEPARATOR then [[]] + rest else [[key[0]] + rest[0]] + rest[1..]
  }

  ghost predicate Plain(parts: seq<Str>) {
    forall i :: 0 <= i < |parts| ==> SEPARATOR !in parts[i]
  }

  lemma {:induction false} SplitPlain(s: Str)
    ensures Plain(Split(s))
    ensures SEPARATOR !in s ==> Split(s) == [s]
  {
    if s != [] {
      SplitPlain(s[1..]);
      var parts, rest := Split(s), Split(s[1..]);
      forall i | 0 <= i < |parts| ensures SEPARATOR !in parts[i] {
        if s[0] == SEPARATOR {
          assert i > 0 ==> parts[i] == rest[i - 1];
        } else {
          assert i > 0 ==> parts[i] == rest[i];
        }
      }
      if SEPARATOR !in s {
        assert [s[0]] + s[1..] == s;
      }
    }
  }

  lemma {:induction false} SplitHead(a: Str, rest: Str)
    requires SEPARATOR !in a
    ensures Split(a + [SEPARATOR] + rest) == [a] + Split(rest)
  {
    var s := a + [SEPARATOR] + rest;
    if a == [] {
      assert s[1..] == rest;
    } else {
      assert s[1..] == a[1..] + [SEPARATOR] + rest;
      SplitHead(a[1..], rest);
      assert [a[0]] + a[1..] == a;
    }
  }

  /** A label with the separator in it comes back as two. */
  lemma LabelSplit()
    ensures Join([[97, 59, 98]]) == [97, 59, 98] && Split([97, 59, 98]) == [[97], [98]]
  {
    SplitPlain([98]);
    assert [97, 59, 98] == [97] + [SEPARATOR] + [98];
    SplitHead([97], [98]);
  }

  /** A key gives its stack back exactly if no label contains a separator. */
  lemma {:induction false} SplitJoin(parts: seq<Str>)
    requires parts != []
    ensures Split(Join(parts)) == parts <==> Plain(parts)
  {
    SplitPlain(Join(parts));
    if Plain(parts) {
      if |parts| == 1 {
        SplitPlain(parts[0]);
      } else {
        assert Plain(parts[1..]) by {
          assert forall i :: 0 <= i < |parts| - 1 ==> parts[1..][i] == parts[i + 1];
        }
        SplitJoin(parts[1..]);
        SplitHead(parts[0], Join(parts[1..]));
        assert parts == [parts[0]] + parts[1..];
      }
    }
  }

  // ------------------------------------------------------------------ the tree

  type Path = seq<Str>

  datatype Node = Node(name: Str, count: nat, children: seq<Node>)

  /** Follows a path from the given nodes, making nodes as needed, and adds the count to each node on it. */
  function Fold(ns: seq<Node>, path: Path, w: nat): seq<Node>
    decreases |path|, |ns|
  {
    if path == [] then ns
    else if ns == [] then [Node(path[0], w, Fold([], path[1..], w))]
    else if ns[0].name == path[0] then
      [Node(ns[0].name, ns[0].count + w, Fold(ns[0].children, path[1..], w))] + ns[1..]
    else [ns[0]] + Fold(ns[1..], path, w)
  }

  /** The count of the node a path leads to, 0 if there is none. */
  function CountAt(ns: seq<Node>, p: Path): nat
    requires p != []
    decreases |p|, |ns|
  {
    if ns == [] then 0
    else if ns[0].name == p[0] then (if |p| == 1 then ns[0].count else CountAt(ns[0].children, p[1..]))
    else CountAt(ns[1..], p)
  }

  function Sum(ns: seq<Node>): nat {
    if ns == [] then 0 else ns[0].count + Sum(ns[1..])
  }

  predicate Names(ns: seq<Node>, name: Str) {
    if ns == [] then false else ns[0].name == name || Names(ns[1..], name)
  }

  /** No two siblings share a name, and no node's children count more than the node. */
  predicate Wellformed(ns: seq<Node>) {
    ns == [] ||
    (!Names(ns[1..], ns[0].name) && Sum(ns[0].children) <= ns[0].count
     && Wellformed(ns[0].children) && Wellformed(ns[1..]))
  }

  function Weight(path: Path, p: Path, w: nat): nat {
    if p <= path then w else 0
  }

  lemma {:induction false} FoldCounts(ns: seq<Node>, path: Path, w: nat, p: Path)
    requires p != []
    ensures CountAt(Fold(ns, path, w), p) == CountAt(ns, p) + Weight(path, p, w)
    decreases |path|, |ns|
  {
    if path == [] {
    } else {
      assert p <= path <==> p[0] == path[0] && p[1..] <= path[1..];
      if ns == [] {
        if |p| > 1 && p[0] == path[0] {
          FoldCounts([], path[1..], w, p[1..]);
        }
      } else if ns[0].name == path[0] {
        assert Fold(ns, path, w)[1..] == ns[1..];
        if |p| > 1 && p[0] == path[0] {
          FoldCounts(ns[0].children, path[1..], w, p[1..]);
        }
      } else {
        assert Fold(ns, path, w)[1..] == Fold(ns[1..], path, w);
        FoldCounts(ns[1..], path, w, p);
      }
    }
  }

  lemma {:induction false} FoldNames(ns: seq<Node>, path: Path, w: nat, name: Str)
    ensures Names(Fold(ns, path, w), name) <==> Names(ns, name) || (path != [] && path[0] == name)
    decreases |ns|
  {
    if path != [] && ns != [] && ns[0].name != path[0] {
      assert Fold(ns, path, w)[1..] == Fold(ns[1..], path, w);
      FoldNames(ns[1..], path, w, name);
    } else if path != [] && ns != [] {
      assert Fold(ns, path, w)[1..] == ns[1..];
    }
  }

  lemma {:induction false} FoldWellformed(ns: seq<Node>, path: Path, w: nat)
    requires Wellformed(ns)
    ensures Wellformed(Fold(ns, path, w)) && Sum(Fold(ns, path, w)) == Sum(ns) + (if path == [] then 0 else w)
    decreases |path|, |ns|
  {
    if path == [] {
    } else if ns == [] {
      FoldWellformed([], path[1..], w);
    } else if ns[0].name == path[0] {
      assert Fold(ns, path, w)[1..] == ns[1..];
      FoldWellformed(ns[0].children, path[1..], w);
    } else {
      assert Fold(ns, path, w)[1..] == Fold(ns[1..], path, w);
      FoldWellformed(ns[1..], path, w);
      FoldNames(ns[1..], path, w, ns[0].name);
    }
  }

  // ------------------------------------------------------------------ weights

  /** What was reported: the labels of a stack, root first, and its weight. */
  datatype Event = Event(parts: seq<Str>, weight: nat)

  /** The weight of the events whose key extends a path; the empty path is extended by all. */
  function WeightOf(events: seq<Event>, p: Path): nat
    requires forall i :: 0 <= i < |events| ==> events[i].parts != []
  {
    if events == [] then 0
    else
      var e := events[|events| - 1];
      WeightOf(events[..|events| - 1], p) + Weight(Split(Join(e.parts)), p, e.weight)
  }

  /** Each event counts once: in the total, and under the paths its own labels extend, if none contains the separator. */
  lemma EventCounts(events: seq<Event>, e: Event, p: Path)
    requires e.parts != [] && forall i :: 0 <= i < |events| ==> events[i].parts != []
    ensures WeightOf([], p) == 0 && WeightOf(events + [e], []) == WeightOf(events, []) + e.weight
    ensures (forall i :: 0 <= i < |e.parts| ==> 59 !in e.parts[i]) ==>
              WeightOf(events + [e], p) == WeightOf(events, p) + if p <= e.parts then e.weight else 0
  {
    assert (events + [e])[..|events|] == events;
    SplitJoin(e.parts);
  }

  /** The same sum over the counted keys, in any order. */
  ghost function SumOver(keys: set<Str>, stacks: map<Str, nat>, p: Path): nat
    requires keys <= stacks.Keys
  {
    if keys == {} then 0
    else
      var k :| k in keys;
      Weight(Split(k), p, stacks[k]) + SumOver(keys - {k}, stacks, p)
  }

  lemma {:induction false} SumPick(keys: set<Str>, stacks: map<Str, nat>, p: Path, k: Str)
    requires keys <= stacks.Keys && k in keys
    ensures SumOver(keys, stacks, p) == Weight(Split(k), p, stacks[k]) + SumOver(keys - {k}, stacks, p)
    decreases keys
  {
    var j :| j in keys && SumOver(keys, stacks, p) == Weight(Split(j), p, stacks[j]) + SumOver(keys - {j}, stacks, p);
    if j != k {
      SumPick(keys - {j}, stacks, p, k);
      SumPick(keys - {k}, stacks, p, j);
      assert keys - {j} - {k} == keys - {k} - {j};
    }
  }

  lemma {:induction false} SumSame(keys: set<Str>, stacks: map<Str, nat>, other: map<Str, nat>, p: Path)
    requires keys <= stacks.Keys && keys <= other.Keys && forall k :: k in keys ==> stacks[k] == other[k]
    ensures SumOver(keys, stacks, p) == SumOver(keys, other, p)
    decreases keys
  {
    if keys != {} {
      var k :| k in keys;
      SumPick(keys, stacks, p, k);
      SumPick(keys, other, p, k);
      SumSame(keys - {k}, stacks, other, p);
    }
  }

  function Counted(stacks: map<Str, nat>, k: Str): nat {
    if k in stacks then stacks[k] else 0
  }

  lemma SumUpdate(stacks: map<Str, nat>, k: Str, w: nat, p: Path)
    ensures var more := stacks[k := Counted(stacks, k) + w];
            SumOver(more.Keys, more, p) == SumOver(stacks.Keys, stacks, p) + Weight(Split(k), p, w)
  {
    var more := stacks[k := Counted(stacks, k) + w];
    var rest := stacks.Keys - {k};
    SumPick(more.Keys, more, p, k);
    assert more.Keys - {k} == rest;
    SumSame(rest, more, stacks, p);
    if k in stacks {
      SumPick(stacks.Keys, stacks, p, k);
    } else {
      assert rest == stacks.Keys;
    }
  }

  /** The labels that are kept of a stack, which is given leaf first, in the order from the root. */
  function Kept(frames: seq<Symbolized>, pythonOnly: bool): seq<Str> {
    if frames == [] then []
    else KeptOne(frames[|frames| - 1], pythonOnly) + Kept(frames[..|frames| - 1], pythonOnly)
  }

  function KeptOne(f: Symbolized, pythonOnly: bool): seq<Str> {
    if pythonOnly && !f.python then [] else [FrameLabel(f)]
  }

  lemma KeptMore(a: seq<Symbolized>, f: Symbolized, pythonOnly: bool)
    ensures Kept(a + [f], pythonOnly) == KeptOne(f, pythonOnly) + Kept(a, pythonOnly)
  {
    assert (a + [f])[..|a|] == a;
  }

  /** Without the filter every frame is kept, the last one first. */
  lemma {:induction false} KeptAll(frames: seq<Symbolized>, i: nat)
    requires i < |frames|
    ensures |Kept(frames, false)| == |frames| && Kept(frames, false)[i] == FrameLabel(frames[|frames| - 1 - i])
  {
    KeptFrom(frames, i, |frames| - 1 - i);
  }

  lemma {:induction false} KeptFrom(frames: seq<Symbolized>, i: nat, k: nat)
    requires i + k + 1 == |frames|
    ensures |Kept(frames, false)| == |frames| && Kept(frames, false)[i] == FrameLabel(frames[k])
  {
    var rest, last := frames[..|frames| - 1], frames[|frames| - 1];
    assert frames == rest + [last];
    KeptMore(rest, last, false);
    if i > 0 {
      KeptFrom(rest, i - 1, k);
    } else if k > 0 {
      KeptFrom(rest, 0, k - 1);
    }
  }

  /** With it, what is kept of two parts is what is kept of each, and of one frame its label if it is a Python frame. */
  lemma {:induction false} KeptParts(a: seq<Symbolized>, b: seq<Symbolized>, f: Symbolized)
    ensures Kept(a + b, true) == Kept(b, true) + Kept(a, true)
    ensures Kept([f], true) == if f.python then [FrameLabel(f)] else []
  {
    KeptMore([], f, true);
    assert [] + [f] == [f] && KeptOne(f, true) + [] == KeptOne(f, true);
    if b == [] {
      assert a + b == a && [] + Kept(a, true) == Kept(a, true);
    } else {
      var rest, last := b[..|b| - 1], b[|b| - 1];
      assert b == rest + [last] && a + b == (a + rest) + [last];
      KeptParts(a, rest, f);
      KeptMore(a + rest, last, true);
      KeptMore(rest, last, true);
      Reassociated(KeptOne(last, true), Kept(rest, true), Kept(a, true));
    }
  }

  lemma Reassociated(a: seq<Str>, b: seq<Str>, c: seq<Str>)
    ensures a + (b + c) == (a + b) + c
  {
  }

  lemma KeptNext(frames: seq<Symbolized>, i: nat, pythonOnly: bool, parts: seq<Str>)
    requires i < |frames|
    ensures parts + Kept(frames[..i + 1], pythonOnly) == (parts + KeptOne(frames[i], pythonOnly)) + Kept(frames[..i], pythonOnly)
  {
    Prefix(frames, i);
    KeptMore(frames[..i], frames[i], pythonOnly);
    Reassociated(parts, KeptOne(frames[i], pythonOnly), Kept(frames[..i], pythonOnly));
  }

  // ------------------------------------------------------------------ the weight of a sample

  /** What comes with a sample: folded counts, or for off-CPU samples the blocked time in nanoseconds. */
  datatype Meta = OnCpu(value: int) | OffCpu(value: int)

  const MAX_WEIGHT: nat := 0x7FFF_FFFF_FFFF_FFFF

  /** The blocked time in sampling intervals, over the probability with which such samples are taken. */
  function Intervals(value: int, rate: int, probability: real): real
    requires probability > 0.0
  {
    value as real * rate as real / 1000000000.0 / probability
  }

  function Clamped(w: real): nat {
    if w < 1.0 then 1 else if w > MAX_WEIGHT as real then MAX_WEIGHT else w.Floor
  }

  function SampleWeight(meta: Meta, rate: int, probability: real): nat
    requires probability > 0.0
  {
    match meta
    case OnCpu(value) => if value > 0 then 1 + value else 1
    case OffCpu(value) => Clamped(Intervals(value, rate, probability))
  }

  /** An on-CPU sample counts itself and what was folded into it. */
  lemma OnCpuWeighs(value: int, rate: int, probability: real)
    requires probability > 0.0
    ensures value >= 0 ==> SampleWeight(OnCpu(value), rate, probability) == 1 + value
    ensures value < 0 ==> SampleWeight(OnCpu(value), rate, probability) == 1
  {
  }

  /** With `b` of blocked time in an interval, `w` is the number of whole intervals in `a`, but at least one and at most 2^63 - 1. */
  predicate Whole(w: nat, a: real, b: real) {
    if a < b then w == 1
    else if a > 9223372036854775807.0 * b then w == 9223372036854775807
    else w as real * b <= a < (w + 1) as real * b
  }

  /**
   Off-CPU samples weigh the whole intervals they were blocked for, each of a second divided by the rate,
   and one sample stands for as many as its probability says; longer ones weigh no less.
   */
  lemma OffCpuWeighs(value: int, longer: int, rate: nat, probability: real)
    requires probability > 0.0 && value <= longer
    ensures Whole(SampleWeight(OffCpu(value), rate, probability), (value * rate) as real, 1000000000.0 * probability)
    ensures SampleWeight(OffCpu(value), rate, probability) <= SampleWeight(OffCpu(longer), rate, probability)
  {
    LongerIntervals(value as real, longer as real, rate as real, probability);
    ClampedGrows(Intervals(value, rate, probability), Intervals(longer, rate, probability));
    RealProduct(value, rate);
    Divided((value * rate) as real, 1000000000.0, probability, Intervals(value, rate, probability));
    ClampedWhole((value * rate) as real, 1000000000.0 * probability, Intervals(value, rate, probability));
  }

  lemma RealProduct(x: int, y: int)
    ensures x as real * y as real == (x * y) as real
  {
  }

  lemma Divided(a: real, b: real, c: real, q: real)
    requires b > 0.0 && c > 0.0 && q == a / b / c
    ensures a == q * (b * c)
  {
    var r := a / b;
    assert r * b == a && q * c == r;
  }

  lemma ClampedWhole(a: real, b: real, q: real)
    requires b > 0.0 && a == q * b
    ensures Whole(Clamped(q), a, b)
  {
    Scaled(q, 1.0, b);
    Scaled(q, 9223372036854775807.0, b);
    Scaled(q, q.Floor as real, b);
    Scaled(q, (q.Floor + 1) as real, b);
  }

  lemma Scaled(x: real, y: real, b: real)
    requires b > 0.0
    ensures x < y <==> x * b < y * b
    ensures x <= y <==> x * b <= y * b
  {
    assert (y - x) * b == y * b - x * b;
    if x < y {
      assert (y - x) * b > 0.0;
    } else if x > y {
      assert (x - y) * b > 0.0;
    }
  }

  lemma ClampedFloor(q: real, w: real)
    requires w == if q < 1.0 then 1.0 else if q > MAX_WEIGHT as real then MAX_WEIGHT as real else q
    ensures w.Floor == Clamped(q)
  {
    assert 1.0.Floor == 1 && (MAX_WEIGHT as real).Floor == MAX_WEIGHT;
  }

  lemma LongerIntervals(value: real, longer: real, rate: real, probability: real)
    requires probability > 0.0 && value <= longer && rate >= 0.0
    ensures value * rate / 1000000000.0 / probability <= longer * rate / 1000000000.0 / probability
  {
    var a, b := value * rate / 1000000000.0, longer * rate / 1000000000.0;
    assert (longer - value) * rate >= 0.0;
    assert a <= b;
    QuotientsGrow(a, b, probability);
  }

  lemma QuotientsGrow(a: real, b: real, d: real)
    requires a <= b && d > 0.0
    ensures a / d <= b / d
  {
    assert (b - a) / d >= 0.0;
  }

  lemma ClampedGrows(a: real, b: real)
    requires a <= b
    ensures Clamped(a) <= Clamped(b)
  {
  }

  class LocalReporter {
    const pythonOnly: bool
    const rate: int
    const probability: real
    var stacks: map<Str, nat>
    /** Everything reported, for the proof. */
    ghost var events: seq<Event>

    ghost predicate Valid()
      reads this
    {
      && probability > 0.0
      && (forall i :: 0 <= i < |events| ==> events[i].parts != [])
      && (forall p: Path :: SumOver(stacks.Keys, stacks, p) == WeightOf(events, p))
    }

    /** A probability that is not positive stands for one. */
    constructor (rate: int, probability: real, pythonOnly: bool)
      ensures Valid() && events == [] && this.pythonOnly == pythonOnly && this.rate == rate
      ensures this.probability == if probability <= 0.0 then 1.0 else probability
    {
      this.pythonOnly, this.rate, this.probability := pythonOnly, rate, if probability <= 0.0 then 1.0 else probability;
      stacks, events := map[], [];
    }

    /** The labels of a stack, root first. */
    method RenderStack(frames: seq<Symbolized>) returns (parts: seq<Str>)
      ensures parts == Kept(frames, pythonOnly)
    {
      parts := [];
      Prefix(frames, 0);
      assert [] + Kept(frames, pythonOnly) == Kept(frames, pythonOnly);
      for i := |frames| downto 0
        invariant parts + Kept(frames[..i], pythonOnly) == Kept(frames, pythonOnly)
      {
        KeptNext(frames, i, pythonOnly, parts);
        if pythonOnly && !frames[i].python {
          assert parts + [] == parts;
          continue;
        }
        parts := parts + [FrameLabel(frames[i])];
      }
      assert parts + [] == parts;
    }

    method WeightFor(meta: Meta) returns (weight: nat)
      requires probability > 0.0
      ensures weight == SampleWeight(meta, rate, probability)
    {
      weight := 1;
      match meta {
        case OffCpu(value) =>
          var w := Intervals(value, rate, probability);
          ghost var q := w;
          if w < 1.0 {
            w := 1.0;
          }
          if w > MAX_WEIGHT as real {
            w := MAX_WEIGHT as real;
          }
          ClampedFloor(q, w);
          weight := w.Floor;
        case OnCpu(value) =>
          if value > 0 {
            weight := 1 + value;
          }
      }
    }

    /** Counts one stack. */
    method ReportTraceEvent(frames: seq<Symbolized>, meta: Meta)
      requires Valid()
      modifies this
      ensures Valid()
      ensures var parts := Kept(frames, pythonOnly);
              events == old(events) + (if parts == [] then [] else [Event(parts, SampleWeight(meta, rate, probability))])
    {
      var parts := RenderStack(frames);
      if |parts| == 0 {
        return;
      }
      var weight := WeightFor(meta);
      AddStack(parts, weight);
    }

    method AddStack(parts: seq<Str>, weight: nat)
      requires Valid() && parts != []
      modifies this
      ensures Valid() && events == old(events) + [Event(parts, weight)]
    {
      var key := Join(parts);
      ghost var before := stacks;
      forall p: Path
        ensures var more := stacks[key := Counted(stacks, key) + weight];
                SumOver(more.Keys, more, p) == SumOver(stacks.Keys, stacks, p) + Weight(Split(key), p, weight)
      {
        SumUpdate(stacks, key, weight, p);
      }
      stacks := stacks[key := Counted(stacks, key) + weight];
      events := events + [Event(parts, weight)];
      assert events[..|events| - 1] == old(events);
    }

    /** The sum of all weights. */
    method TotalSamples() returns (total: nat)
      requires Valid()
      ensures total == WeightOf(events, [])
    {
      total := 0;
      var todo := stacks.Keys;
      while todo != {}
        invariant todo <= stacks.Keys && total + SumOver(todo, stacks, []) == SumOver(stacks.Keys, stacks, [])
        decreases todo
      {
        var k :| k in todo;
        SumPick(todo, stacks, [], k);
        total := total + stacks[k];
        todo := todo - {k};
      }
    }

    /** The prefix tree: each node counts the weight of all stacks that extend its path. */
    method BuildTree() returns (root: seq<Node>)
      requires Valid()
      ensures Wellformed(root) && Sum(root) == WeightOf(events, [])
      ensures forall p: Path :: p != [] ==> CountAt(root, p) == WeightOf(events, p)
    {
      root := [];
      var todo := stacks.Keys;
      while todo != {}
        invariant todo <= stacks.Keys && Wellformed(root)
        invariant Sum(root) + SumOver(todo, stacks, []) == SumOver(stacks.Keys, stacks, [])
        invariant forall p: Path :: p != [] ==> CountAt(root, p) + SumOver(todo, stacks, p) == SumOver(stacks.Keys, stacks, p)
        decreases todo
      {
        var key :| key in todo;
        var parts := Split(key);
        forall p: Path | p != []
          ensures CountAt(Fold(root, parts, stacks[key]), p) + SumOver(todo - {key}, stacks, p) == SumOver(stacks.Keys, stacks, p)
        {
          FoldCounts(root, parts, stacks[key], p);
          SumPick(todo, stacks, p, key);
        }
        FoldWellformed(root, parts, stacks[key]);
        SumPick(todo, stacks, [], key);
        root := Fold(root, parts, stacks[key]);
        todo := todo - {key};
      }
    }
  }
}
