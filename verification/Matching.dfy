/**
 Matching an expression against a pattern (the `Match` methods of asm/expression).

 `Matches` is the order-free definition; `Matcher.Match` is the source's algorithm, which sorts
 copies of the operand lists with an unstable sort and compares them position by position,
 writing captured values as it goes. The sort is known here only through its contract, so
 everything proved about `Match` holds for whatever order it picks among equal ranks.
 */
module Matching {
  import opened Words
  import opened Expressions

  /**
   What a capture may stand for: any immediate, or the value recorded for it; then the widths of
   memory reads, which the source does not compare, may be told apart too.
   */
  datatype Binding = Anything | Recorded(values: map<nat, Word>, widths: bool)

  predicate Rearranged(a: seq<Expr>, b: seq<Expr>) {
    multiset(a) == multiset(b)
  }

  /** Equal up to operand order and memory access width, captures bound by `b`. */
  ghost predicate Matches(e: Expr, p: Expr, b: Binding)
    decreases Size(e), 0
  {
    match e
    case Immediate(v) => p == e || (p.Capture? && (b.Recorded? ==> Captured(b.values, p.id) == v))
    case Named(_) => p == e
    case Capture(_) => false
    case Memory(segment, at, size) =>
      p.Memory? && p.segment == segment && (b.Recorded? && b.widths ==> p.sizeBytes == size) && Matches(at, p.at, b)
    case Op(typ, es) => p.Op? && p.typ == typ && MatchesReordered(es, p.operands, b)
    case Extend(inner, bits, signed) =>
      p.Extend? && p.bits == bits && p.signed == signed && Matches(inner, p.inner, b)
  }

  ghost predicate MatchesReordered(es: seq<Expr>, ps: seq<Expr>, b: Binding)
    decreases SizeSum(es), 2
  {
    exists es', ps' :: Rearranged(es', es) && Rearranged(ps', ps)
      && (RearrangedSize(es', es); MatchesPointwise(es', ps', b))
  }

  ghost predicate MatchesPointwise(es: seq<Expr>, ps: seq<Expr>, b: Binding)
    decreases SizeSum(es), 1
  {
    && |es| == |ps|
    && forall i :: 0 <= i < |es| ==> (MemberSize(es, es[i]); Matches(es[i], ps[i], b))
  }

  // ------------------------------------------------------------------ rearranging operands

  lemma {:induction false} SizeConcat(a: seq<Expr>, b: seq<Expr>)
    ensures SizeSum(a + b) == SizeSum(a) + SizeSum(b)
  {
    if b == [] {
      assert a + b == a;
    } else {
      assert (a + b)[..|a + b| - 1] == a + b[..|b| - 1];
      SizeConcat(a, b[..|b| - 1]);
    }
  }

  /** Splits off from `b` the element that is last in `a`. */
  lemma SplitLast(a: seq<Expr>, b: seq<Expr>) returns (l: seq<Expr>, r: seq<Expr>)
    requires a != [] && Rearranged(a, b)
    ensures b == l + [a[|a| - 1]] + r
    ensures Rearranged(a[..|a| - 1], l + r)
  {
    var x := a[|a| - 1];
    assert a == a[..|a| - 1] + [x];
    assert x in multiset(b);
    var k :| 0 <= k < |b| && b[k] == x;
    l, r := b[..k], b[k + 1..];
    assert b == l + [x] + r;
    assert multiset(b) == multiset(l + r) + multiset{x};
    assert multiset(a[..|a| - 1]) == multiset(a) - multiset{x};
  }

  lemma {:induction false} RearrangedSize(a: seq<Expr>, b: seq<Expr>)
    requires Rearranged(a, b)
    ensures |a| == |b| && SizeSum(a) == SizeSum(b)
  {
    assert |multiset(a)| == |a| && |multiset(b)| == |b|;
    if a != [] {
      var l, r := SplitLast(a, b);
      var x := a[|a| - 1];
      RearrangedSize(a[..|a| - 1], l + r);
      SizeConcat(l, r);
      SizeConcat(l, [x]);
      SizeConcat(l + [x], r);
    }
  }

  lemma {:induction false} RearrangedSum(a: seq<Expr>, b: seq<Expr>, env: Env)
    requires Rearranged(a, b)
    ensures EvalSum(a, env) == EvalSum(b, env)
  {
    RearrangedSize(a, b);
    if a != [] {
      var l, r := SplitLast(a, b);
      var x := a[|a| - 1];
      RearrangedSum(a[..|a| - 1], l + r, env);
      EvalSumConcat(l, r, env);
      EvalSumConcat(l, [x], env);
      EvalSumConcat(l + [x], r, env);
      EvalSingleton(x, env);
    }
  }

  lemma {:induction false} RearrangedProduct(a: seq<Expr>, b: seq<Expr>, env: Env)
    requires Rearranged(a, b)
    ensures EvalProduct(a, env) == EvalProduct(b, env)
  {
    RearrangedSize(a, b);
    if a != [] {
      var l, r := SplitLast(a, b);
      var x := a[|a| - 1];
      RearrangedProduct(a[..|a| - 1], l + r, env);
      EvalProductConcat(l, r, env);
      EvalProductConcat(l, [x], env);
      EvalProductConcat(l + [x], r, env);
      EvalSingleton(x, env);
      var pl, pr, px := EvalProduct(l, env), EvalProduct(r, env), Eval(x, env);
      TimesAssoc(pl, px, pr);
      TimesComm(px, pr);
      TimesAssoc(pl, pr, px);
    }
  }

  // ------------------------------------------------------------------ meaning of a match

  /** An environment whose memory reads do not depend on the access width. */
  ghost predicate WidthBlind(env: Env) {
    forall segment, at, m, n :: env.mem(segment, at, m) == env.mem(segment, at, n)
  }

  /**
   A matched expression denotes what the pattern denotes with the recorded captures, if the reads
   that are paired agree in width or the environment does not care.
   */
  lemma {:induction false} MatchesEval(e: Expr, p: Expr, m: map<nat, Word>, widths: bool, env: Env)
    requires Matches(e, p, Recorded(m, widths)) && (widths || WidthBlind(env))
    ensures Eval(e, env) == Eval(p, env.(captures := m))
    decreases Size(e), 0
  {
    match e {
      case Op(typ, es) =>
        var es', ps' :| Rearranged(es', es) && Rearranged(ps', p.operands)
          && (RearrangedSize(es', es); MatchesPointwise(es', ps', Recorded(m, widths)));
        var env' := env.(captures := m);
        RearrangedSize(es', es);
        PointwiseEval(es', ps', m, widths, env);
        RearrangedSum(es', es, env);
        RearrangedProduct(es', es, env);
        RearrangedSum(ps', p.operands, env');
        RearrangedProduct(ps', p.operands, env');
      case Memory(_, at, _) =>
        MatchesEval(at, p.at, m, widths, env);
      case Extend(inner, _, _) =>
        MatchesEval(inner, p.inner, m, widths, env);
      case _ =>
    }
  }

  lemma {:induction false} PointwiseEval(es: seq<Expr>, ps: seq<Expr>, m: map<nat, Word>, widths: bool, env: Env)
    requires MatchesPointwise(es, ps, Recorded(m, widths)) && (widths || WidthBlind(env))
    ensures EvalSum(es, env) == EvalSum(ps, env.(captures := m))
    ensures EvalProduct(es, env) == EvalProduct(ps, env.(captures := m))
    decreases SizeSum(es), 1
  {
    if es != [] {
      var last := |es| - 1;
      MemberSize(es, es[last]);
      MatchesEval(es[last], ps[last], m, widths, env);
      assert SizeSum(es) == SizeSum(es[..last]) + Size(es[last]);
      PointwiseEval(es[..last], ps[..last], m, widths, env);
    }
  }

  /** Every memory read in `e` has width `w`. */
  predicate UniformWidth(e: Expr, w: nat) {
    match e
    case Memory(_, at, size) => size == w && UniformWidth(at, w)
    case Op(_, es) => forall i :: 0 <= i < |es| ==> UniformWidth(es[i], w)
    case Extend(inner, _, _) => UniformWidth(inner, w)
    case _ => true
  }

  function Blinded(env: Env, w: nat): Env {
    env.(mem := (segment, at, _) => env.mem(segment, at, w))
  }

  lemma {:induction false} UniformEval(e: Expr, w: nat, env: Env)
    requires UniformWidth(e, w)
    ensures Eval(e, env) == Eval(e, Blinded(env, w))
    decreases e, 1
  {
    match e {
      case Op(_, es) => UniformFolds(es, w, env);
      case Memory(_, at, _) => UniformEval(at, w, env);
      case Extend(inner, _, _) => UniformEval(inner, w, env);
      case _ =>
    }
  }

  lemma {:induction false} UniformFolds(es: seq<Expr>, w: nat, env: Env)
    requires forall i :: 0 <= i < |es| ==> UniformWidth(es[i], w)
    ensures EvalSum(es, env) == EvalSum(es, Blinded(env, w))
    ensures EvalProduct(es, env) == EvalProduct(es, Blinded(env, w))
    decreases es, 0
  {
    if es != [] {
      UniformFolds(es[..|es| - 1], w, env);
      UniformEval(es[|es| - 1], w, env);
    }
  }

  /** When all reads have one width, a match is sound in every environment. */
  lemma MatchesEvalUniform(e: Expr, p: Expr, m: map<nat, Word>, w: nat, env: Env)
    requires Matches(e, p, Recorded(m, false))
    requires UniformWidth(e, w) && UniformWidth(p, w)
    ensures Eval(e, env) == Eval(p, env.(captures := m))
  {
    UniformEval(e, w, env);
    UniformEval(p, w, env.(captures := m));
    MatchesEval(e, p, m, false, Blinded(env, w));
    assert Blinded(env.(captures := m), w) == Blinded(env, w).(captures := m);
  }

  /** Widths are not compared: a one-byte read matches an eight-byte one of a different value. */
  lemma WidthsIgnored() returns (e: Expr, p: Expr, env: Env)
    ensures Matches(e, p, Recorded(map[], false))
    ensures Eval(e, env) != Eval(p, env.(captures := map[]))
  {
    e, p := Memory(0, Named(0), 1), Memory(0, Named(0), 8);
    env := Env(_ => 0, map[], (_, _, n) => if n == 1 then 0 else 1);
  }

  /** In this environment every match keeps the value. */
  ghost predicate MatchesKeepValue(env: Env) {
    forall e, p, m :: Matches(e, p, Recorded(m, false)) ==> Eval(e, env) == Eval(p, env.(captures := m))
  }

  /** Ignoring widths is harmless exactly in the environments that ignore them too. */
  lemma WidthBlindIff(env: Env)
    ensures MatchesKeepValue(env) <==> WidthBlind(env)
  {
    if WidthBlind(env) {
      forall e, p, m | Matches(e, p, Recorded(m, false)) ensures Eval(e, env) == Eval(p, env.(captures := m)) {
        MatchesEval(e, p, m, false, env);
      }
    }
    if MatchesKeepValue(env) {
      forall segment, at: Word, m, n ensures env.mem(segment, at, m) == env.mem(segment, at, n) {
        var e, p := Memory(segment, Immediate(at), m), Memory(segment, Immediate(at), n);
        assert Matches(e, p, Recorded(map[], false));
        assert Eval(e, env) == env.mem(segment, at, m) && Eval(p, env.(captures := map[])) == env.mem(segment, at, n);
      }
    }
  }

  /** Two reads of one address have the same value in every environment exactly if they have one width. */
  lemma ReadsAgreeIff(segment: nat, at: Expr, m: nat, n: nat)
    ensures (forall env :: Eval(Memory(segment, at, m), env) == Eval(Memory(segment, at, n), env)) <==> m == n
  {
    if m != n {
      var env := Env(_ => 0, map[], (_, _, w) => if w == m then 0 else 1);
      assert Eval(Memory(segment, at, m), env) != Eval(Memory(segment, at, n), env);
    }
  }

  /** Inside an expression a width may differ without consequence: zero times a read is zero at any width. */
  lemma WidthHarmless(segment: nat, at: Expr, m: nat, n: nat, env: Env)
    ensures Eval(Op(Product, [Immediate(0), Memory(segment, at, m)]), env)
         == Eval(Op(Product, [Immediate(0), Memory(segment, at, n)]), env)
  {
    ZeroProduct(Memory(segment, at, m), env);
    ZeroProduct(Memory(segment, at, n), env);
  }

  lemma ZeroProduct(e: Expr, env: Env)
    ensures Eval(Op(Product, [Immediate(0), e]), env) == 0
  {
    assert [Immediate(0), e] == [Immediate(0)] + [e];
    EvalProductConcat([Immediate(0)], [e], env);
    EvalSingleton(Immediate(0), env);
    EvalSingleton(e, env);
    assert Times(0, Eval(e, env)) == 0;
  }

  // ------------------------------------------------------------------ captures

  function Captures(p: Expr): multiset<nat>
    decreases p, 1
  {
    match p
    case Capture(id) => multiset{id}
    case Memory(_, at, _) => Captures(at)
    case Op(_, ps) => CapturesOf(ps)
    case Extend(inner, _, _) => Captures(inner)
    case _ => multiset{}
  }

  function CapturesOf(ps: seq<Expr>): multiset<nat>
    decreases ps, 0
  {
    if ps == [] then multiset{} else CapturesOf(ps[..|ps| - 1]) + Captures(ps[|ps| - 1])
  }

  ghost predicate AtMostOnce(captures: multiset<nat>) {
    forall c :: captures[c] <= 1
  }

  /** Every capture occurs at most once. */
  ghost predicate Linear(p: Expr) {
    AtMostOnce(Captures(p))
  }

  lemma {:induction false} CapturesConcat(a: seq<Expr>, b: seq<Expr>)
    ensures CapturesOf(a + b) == CapturesOf(a) + CapturesOf(b)
  {
    if b == [] {
      assert a + b == a;
    } else {
      assert (a + b)[..|a + b| - 1] == a + b[..|b| - 1];
      CapturesConcat(a, b[..|b| - 1]);
    }
  }

  lemma {:induction false} RearrangedCaptures(a: seq<Expr>, b: seq<Expr>)
    requires Rearranged(a, b)
    ensures CapturesOf(a) == CapturesOf(b)
  {
    RearrangedSize(a, b);
    if a != [] {
      var l, r := SplitLast(a, b);
      var x := a[|a| - 1];
      RearrangedCaptures(a[..|a| - 1], l + r);
      CapturesConcat(l, r);
      CapturesConcat(l, [x]);
      CapturesConcat(l + [x], r);
      assert [x][..0] == [] && CapturesOf([x]) == Captures(x);
    }
  }

  lemma {:induction false} CapturesOfTwo(ps: seq<Expr>, i: nat, j: nat)
    requires i < j < |ps|
    ensures Captures(ps[i]) + Captures(ps[j]) <= CapturesOf(ps)
  {
    if j < |ps| - 1 {
      CapturesOfTwo(ps[..|ps| - 1], i, j);
    } else {
      CapturesOfOne(ps[..|ps| - 1], i);
    }
  }

  lemma {:induction false} CapturesOfOne(ps: seq<Expr>, i: nat)
    requires i < |ps|
    ensures Captures(ps[i]) <= CapturesOf(ps)
  {
    if i < |ps| - 1 {
      CapturesOfOne(ps[..|ps| - 1], i);
    }
  }

  /** A match depends only on the captures of its pattern, and forgetting the values keeps it. */
  lemma {:induction false} MatchesFrame(e: Expr, p: Expr, b: Binding, b': Binding)
    requires Matches(e, p, b)
    requires b'.Recorded? ==> b.Recorded? && (b'.widths ==> b.widths) && forall c :: c in Captures(p) ==> Captured(b.values, c) == Captured(b'.values, c)
    ensures Matches(e, p, b')
    decreases Size(e), 0
  {
    match e {
      case Op(typ, es) =>
        var es', ps' :| Rearranged(es', es) && Rearranged(ps', p.operands)
          && (RearrangedSize(es', es); MatchesPointwise(es', ps', b));
        RearrangedSize(es', es);
        RearrangedCaptures(ps', p.operands);
        forall i | 0 <= i < |es'| ensures Matches(es'[i], ps'[i], b') {
          MemberSize(es', es'[i]);
          CapturesOfOne(ps', i);
          MatchesFrame(es'[i], ps'[i], b, b');
        }
        assert MatchesPointwise(es', ps', b');
      case Memory(_, at, _) => MatchesFrame(at, p.at, b, b');
      case Extend(inner, _, _) => MatchesFrame(inner, p.inner, b, b');
      case _ =>
    }
  }

  // ------------------------------------------------------------------ ranks

  function CmpOrder(e: Expr): nat {
    match e
    case Memory(_, _, _) => 1
    case Op(_, _) => 2
    case Named(_) => 3
    case Capture(_) => 4
    case Immediate(_) => 5
    case Extend(_, _, _) => 0
  }

  predicate SortedByRank(es: seq<Expr>) {
    forall i, j :: 0 <= i < j < |es| ==> CmpOrder(es[i]) <= CmpOrder(es[j])
  }

  /** Rank with captures and immediates taken together: matched operands agree on it. */
  function Kind(e: Expr): nat {
    if CmpOrder(e) == 5 then 4 else CmpOrder(e)
  }

  /** Built alike; a capture is built like the constants it matches. */
  predicate Alike(e: Expr, f: Expr) {
    match e
    case Memory(_, _, _) => f.Memory?
    case Op(_, _) => f.Op?
    case Named(_) => f.Named?
    case Extend(_, _, _) => f.Extend?
    case Capture(_) => f.Capture? || f.Immediate?
    case Immediate(_) => f.Capture? || f.Immediate?
  }

  predicate DistinctKinds(es: seq<Expr>) {
    forall i, j :: 0 <= i < j < |es| ==> !Alike(es[i], es[j])
  }

  /** At every sum and product the operands are told apart by their kind alone. */
  predicate Unambiguous(e: Expr) {
    match e
    case Memory(_, at, _) => Unambiguous(at)
    case Op(_, es) => DistinctKinds(es) && forall i :: 0 <= i < |es| ==> Unambiguous(es[i])
    case Extend(inner, _, _) => Unambiguous(inner)
    case _ => true
  }

  predicate Increasing(s: seq<nat>) {
    forall i, j :: 0 <= i < j < |s| ==> s[i] < s[j]
  }

  lemma {:induction false} IncreasingUnique(s: seq<nat>, t: seq<nat>)
    requires Increasing(s) && Increasing(t) && |s| == |t|
    requires forall x :: x in s <==> x in t
    ensures s == t
  {
    if s != [] {
      var last := |s| - 1;
      assert s[last] in t && t[last] in s;
      assert s[last] == t[last];
      var s', t' := s[..last], t[..last];
      assert s == s' + [s[last]] && t == t' + [t[last]];
      forall x ensures x in s' <==> x in t' {
        if x in s' {
          assert x in t;
        }
        if x in t' {
          assert x in s;
        }
      }
      IncreasingUnique(s', t');
    }
  }

  function Kinds(es: seq<Expr>): (ks: seq<nat>)
    ensures |ks| == |es|
    ensures forall i :: 0 <= i < |es| ==> ks[i] == Kind(es[i])
  {
    seq(|es|, i requires 0 <= i < |es| => Kind(es[i]))
  }

  lemma AlikeKinds(e: Expr, f: Expr)
    ensures Alike(e, f) <==> Kind(e) == Kind(f)
  {
  }

  lemma SortedKinds(es: seq<Expr>, from: seq<Expr>)
    requires Rearranged(es, from) && SortedByRank(es) && DistinctKinds(from)
    ensures Increasing(Kinds(es))
  {
    forall i, j | 0 <= i < j < |es| ensures Kind(es[i]) < Kind(es[j]) {
      StillDistinct(es, from, i, j);
      AlikeKinds(es[i], es[j]);
      assert CmpOrder(es[i]) <= CmpOrder(es[j]);
    }
  }

  /** Operands told apart in one order are told apart in every order. */
  lemma StillDistinct(es: seq<Expr>, from: seq<Expr>, i: nat, j: nat)
    requires Rearranged(es, from) && DistinctKinds(from) && i < j < |es|
    ensures !Alike(es[i], es[j])
  {
    assert multiset{es[i], es[j]} <= multiset(es) by {
      assert es == es[..i] + [es[i]] + es[i + 1..j] + [es[j]] + es[j + 1..];
    }
    TwoPositions(from, es[i], es[j]);
    var k, l :| 0 <= k < |from| && 0 <= l < |from| && k != l && from[k] == es[i] && from[l] == es[j];
    AlikeKinds(from[k], from[l]);
    AlikeKinds(from[l], from[k]);
  }

  lemma TwoPositions(s: seq<Expr>, x: Expr, y: Expr)
    requires multiset{x, y} <= multiset(s)
    ensures exists i, j :: 0 <= i < |s| && 0 <= j < |s| && i != j && s[i] == x && s[j] == y
  {
    var i := TakeOne(s, x);
    var rest := s[..i] + s[i + 1..];
    assert multiset{x, y}[y] >= (if x == y then 2 else 1);
    assert y in multiset(rest);
    var k :| 0 <= k < |rest| && rest[k] == y;
    var j := if k < i then k else k + 1;
    assert s[j] == y;
  }

  /** Some occurrence of an element, and what is left without it. */
  lemma TakeOne(s: seq<Expr>, x: Expr) returns (i: nat)
    requires multiset(s)[x] > 0
    ensures i < |s| && s[i] == x && multiset(s) == multiset(s[..i] + s[i + 1..]) + multiset{x}
  {
    assert x in multiset(s);
    i :| 0 <= i < |s| && s[i] == x;
    assert s == s[..i] + [x] + s[i + 1..];
  }

  lemma MatchesKind(e: Expr, p: Expr, b: Binding)
    requires Matches(e, p, b)
    ensures Kind(e) == Kind(p)
  {
  }

  /** Every kind among the operands is among those they are matched with, in whatever order these are. */
  lemma KindsPaired(es: seq<Expr>, ps: seq<Expr>, b: Binding, sortedEs: seq<Expr>, sortedPs: seq<Expr>)
    requires MatchesPointwise(es, ps, b) && Rearranged(sortedEs, es) && Rearranged(sortedPs, ps)
    ensures forall k :: k in Kinds(sortedEs) <==> k in Kinds(sortedPs)
  {
    var ke, kp := Kinds(sortedEs), Kinds(sortedPs);
    forall k ensures k in ke <==> k in kp {
      if k in ke {
        var i :| 0 <= i < |ke| && ke[i] == k;
        var j := Position(sortedEs, es, i);
        MatchesKind(es[j], ps[j], b);
        var l := Position(ps, sortedPs, j);
        assert kp[l] == k;
      }
      if k in kp {
        var i :| 0 <= i < |kp| && kp[i] == k;
        var j := Position(sortedPs, ps, i);
        MatchesKind(es[j], ps[j], b);
        var l := Position(es, sortedEs, j);
        assert ke[l] == k;
      }
    }
  }

  /** If operands of distinct kinds match in some order, they match in sorted order. */
  lemma {:induction false} Aligned(es: seq<Expr>, ps: seq<Expr>, sortedEs: seq<Expr>, sortedPs: seq<Expr>, b: Binding)
    requires MatchesReordered(es, ps, b)
    requires DistinctKinds(es) && DistinctKinds(ps)
    requires Rearranged(sortedEs, es) && SortedByRank(sortedEs)
    requires Rearranged(sortedPs, ps) && SortedByRank(sortedPs)
    ensures MatchesPointwise(sortedEs, sortedPs, b)
  {
    var es', ps' :| Rearranged(es', es) && Rearranged(ps', ps)
      && (RearrangedSize(es', es); MatchesPointwise(es', ps', b));
    RearrangedSize(es', es);
    RearrangedSize(ps', ps);
    RearrangedSize(sortedEs, es);
    RearrangedSize(sortedPs, ps);
    SortedKinds(sortedEs, es);
    SortedKinds(sortedPs, ps);
    KindsPaired(es', ps', b, sortedEs, sortedPs);
    IncreasingUnique(Kinds(sortedEs), Kinds(sortedPs));
    InOrder(es', ps', b, sortedEs, sortedPs);
  }

  lemma {:induction false} InOrder(es: seq<Expr>, ps: seq<Expr>, b: Binding, sortedEs: seq<Expr>, sortedPs: seq<Expr>)
    requires MatchesPointwise(es, ps, b) && Rearranged(sortedEs, es) && Rearranged(sortedPs, ps)
    requires Kinds(sortedEs) == Kinds(sortedPs) && Increasing(Kinds(sortedEs)) && |sortedEs| == |sortedPs|
    ensures MatchesPointwise(sortedEs, sortedPs, b)
  {
    var ke := Kinds(sortedEs);
    forall i | 0 <= i < |sortedEs| ensures Matches(sortedEs[i], sortedPs[i], b) {
      var j := Position(sortedPs, ps, i);
      MatchesKind(es[j], ps[j], b);
      var k := Position(es, sortedEs, j);
      assert ke[k] == ke[i];
    }
  }

  lemma Position(a: seq<Expr>, b: seq<Expr>, i: nat) returns (j: nat)
    requires multiset(a) == multiset(b) && i < |a|
    ensures j < |b| && b[j] == a[i]
  {
    assert a[i] in multiset(b);
    j :| 0 <= j < |b| && b[j] == a[i];
  }

  /** Operands put in rank order in one way or another. */
  predicate RankOrder(s: seq<Expr>, es: seq<Expr>) {
    Rearranged(s, es) && SortedByRank(s)
  }

  /** A match whichever order the sort picks among operands of equal rank. */
  ghost predicate Surely(e: Expr, p: Expr)
    decreases Size(e), 0
  {
    match e
    case Immediate(v) => p == e || p.Capture?
    case Named(_) => p == e
    case Capture(_) => false
    case Memory(segment, at, _) => p.Memory? && p.segment == segment && Surely(at, p.at)
    case Op(typ, es) => p.Op? && p.typ == typ && SurelyOperands(es, p.operands)
    case Extend(inner, bits, signed) => p.Extend? && p.bits == bits && p.signed == signed && Surely(inner, p.inner)
  }

  ghost predicate SurelyOperands(es: seq<Expr>, ps: seq<Expr>)
    decreases SizeSum(es), 2
  {
    |es| == |ps| && forall es', ps' :: RankOrder(es', es) && RankOrder(ps', ps) ==> (RearrangedSize(es', es); SurelyPointwise(es', ps'))
  }

  ghost predicate SurelyPointwise(es: seq<Expr>, ps: seq<Expr>)
    decreases SizeSum(es), 1
  {
    |es| == |ps| && forall i :: 0 <= i < |es| ==> (MemberSize(es, es[i]); Surely(es[i], ps[i]))
  }

  // ------------------------------------------------------------------ the source's algorithm

  method SortByRank(es: seq<Expr>) returns (r: seq<Expr>)
    ensures Rearranged(r, es) && SortedByRank(r)
  {
    r := [];
    for i := 0 to |es|
      invariant Rearranged(r, es[..i]) && SortedByRank(r)
    {
      assert es[..i + 1] == es[..i] + [es[i]];
      r := InsertByRank(r, es[i]);
    }
    assert es[..|es|] == es;
  }

  lemma AppendLargest(s: seq<Expr>, x: Expr, r: seq<Expr>, last: Expr)
    requires multiset(r) == multiset(s) + multiset{x} && SortedByRank(r)
    requires CmpOrder(x) <= CmpOrder(last) && forall i :: 0 <= i < |s| ==> CmpOrder(s[i]) <= CmpOrder(last)
    ensures SortedByRank(r + [last])
  {
    forall i | 0 <= i < |r| ensures CmpOrder(r[i]) <= CmpOrder(last) {
      assert r[i] in multiset(r);
      assert r[i] in s || r[i] == x;
    }
  }

  method InsertByRank(s: seq<Expr>, x: Expr) returns (r: seq<Expr>)
    requires SortedByRank(s)
    ensures multiset(r) == multiset(s) + multiset{x} && SortedByRank(r)
  {
    if s == [] || CmpOrder(s[|s| - 1]) <= CmpOrder(x) {
      return s + [x];
    }
    var last := s[|s| - 1];
    assert s == s[..|s| - 1] + [last];
    r := InsertByRank(s[..|s| - 1], x);
    AppendLargest(s[..|s| - 1], x, r, last);
    r := r + [last];
  }

  /** The captures of a pattern: `Match` writes them in place. */
  class Matcher {
    var values: map<nat, Word>

    method Match(e: Expr, p: Expr) returns (ok: bool)
      modifies this
      ensures forall c :: c !in Captures(p) ==> Captured(values, c) == Captured(old(values), c)
      ensures ok ==> Matches(e, p, Anything)
      ensures ok && Linear(p) ==> Matches(e, p, Recorded(values, false))
      ensures Matches(e, p, Anything) && Unambiguous(e) && Unambiguous(p) ==> ok
      ensures Surely(e, p) ==> ok
      decreases Size(e), 0
    {
      match (e, p) {
        case (Immediate(v), Immediate(w)) =>
          ok := v == w;
        case (Immediate(v), Capture(id)) =>
          values := values[id := v];
          ok := true;
        case (Named(_), _) =>
          ok := p == e;
        case (Memory(segment, at, _), Memory(segment', at', _)) =>
          if segment != segment' {
            ok := false;
          } else {
            ok := Match(at, at');
          }
        case (Op(typ, es), Op(typ', ps)) =>
          if typ != typ' || |es| != |ps| {
            if |es| != |ps| && MatchesReordered(es, ps, Anything) {
              LengthsAgree(es, ps);
            }
            assert |es| != |ps| ==> !SurelyOperands(es, ps);
            ok := false;
          } else {
            ok := MatchOperands(es, ps);
          }
        case (Extend(inner, bits, signed), Extend(inner', bits', signed')) =>
          ok := bits' == bits && signed' == signed;
          if ok {
            ok := Match(inner, inner');
          }
        case _ =>
          ok := false;
      }
    }

    /** Compares sorted copies of the operand lists, never the lists themselves. */
    method MatchOperands(es: seq<Expr>, ps: seq<Expr>) returns (ok: bool)
      modifies this
      ensures forall c :: c !in CapturesOf(ps) ==> Captured(values, c) == Captured(old(values), c)
      ensures ok ==> MatchesReordered(es, ps, Anything)
      ensures ok && AtMostOnce(CapturesOf(ps)) ==> MatchesReordered(es, ps, Recorded(values, false))
      ensures MatchesReordered(es, ps, Anything) && Told(es) && Told(ps) ==> ok
      ensures SurelyOperands(es, ps) ==> ok
      decreases SizeSum(es), 2
    {
      if |es| != |ps| {
        if MatchesReordered(es, ps, Anything) {
          LengthsAgree(es, ps);
        }
        return false;
      }
      var es' := SortByRank(es);
      var ps' := SortByRank(ps);
      RearrangedSize(es', es);
      RearrangedSize(ps', ps);
      RearrangedCaptures(ps', ps);
      if MatchesReordered(es, ps, Anything) && Told(es) && Told(ps) {
        Aligned(es, ps, es', ps', Anything);
        OperandsUnambiguous(es, es');
        OperandsUnambiguous(ps, ps');
      }
      assert RankOrder(es', es) && RankOrder(ps', ps);
      ok := MatchInOrder(es', ps');
    }

    method MatchInOrder(es: seq<Expr>, ps: seq<Expr>) returns (ok: bool)
      requires |es| == |ps|
      modifies this
      ensures forall c :: c !in CapturesOf(ps) ==> Captured(values, c) == Captured(old(values), c)
      ensures ok ==> MatchesPointwise(es, ps, Anything)
      ensures ok && AtMostOnce(CapturesOf(ps)) ==> MatchesPointwise(es, ps, Recorded(values, false))
      ensures MatchesPointwise(es, ps, Anything) && AllUnambiguous(es) && AllUnambiguous(ps) ==> ok
      ensures SurelyPointwise(es, ps) ==> ok
      decreases SizeSum(es), 1
    {
      for i := 0 to |es|
        invariant forall c :: c !in CapturesOf(ps) ==> Captured(values, c) == Captured(old(values), c)
        invariant forall k :: 0 <= k < i ==> Matches(es[k], ps[k], Anything)
        invariant AtMostOnce(CapturesOf(ps)) ==> forall k :: 0 <= k < i ==> Matches(es[k], ps[k], Recorded(values, false))
      {
        MemberSize(es, es[i]);
        CapturesOfOne(ps, i);
        ghost var before := values;
        var one := Match(es[i], ps[i]);
        if !one {
          return false;
        }
        if AtMostOnce(CapturesOf(ps)) {
          LinearPart(ps, i);
          EarlierStillMatch(es, ps, i, before, values);
        }
      }
      return true;
    }
  }

  /** Writing the captures of operand i disturbs no operand before it. */
  lemma EarlierStillMatch(es: seq<Expr>, ps: seq<Expr>, i: nat, before: map<nat, Word>, after: map<nat, Word>)
    requires |es| == |ps| && i < |es| && AtMostOnce(CapturesOf(ps))
    requires forall k :: 0 <= k < i ==> Matches(es[k], ps[k], Recorded(before, false))
    requires forall c :: c !in Captures(ps[i]) ==> Captured(after, c) == Captured(before, c)
    requires Matches(es[i], ps[i], Recorded(after, false))
    ensures forall k :: 0 <= k <= i ==> Matches(es[k], ps[k], Recorded(after, false))
  {
    forall k | 0 <= k < i ensures Matches(es[k], ps[k], Recorded(after, false)) {
      CapturesOfTwo(ps, k, i);
      forall c | c in Captures(ps[k]) ensures Captured(before, c) == Captured(after, c) {
        assert (Captures(ps[k]) + Captures(ps[i]))[c] <= CapturesOf(ps)[c] <= 1;
      }
      MatchesFrame(es[k], ps[k], Recorded(before, false), Recorded(after, false));
    }
  }

  lemma LinearPart(ps: seq<Expr>, i: nat)
    requires i < |ps| && AtMostOnce(CapturesOf(ps))
    ensures Linear(ps[i])
  {
    CapturesOfOne(ps, i);
    forall c ensures Captures(ps[i])[c] <= 1 {
      assert Captures(ps[i])[c] <= CapturesOf(ps)[c];
    }
  }

  lemma LengthsAgree(es: seq<Expr>, ps: seq<Expr>)
    requires MatchesReordered(es, ps, Anything)
    ensures |es| == |ps|
  {
    var es', ps' :| Rearranged(es', es) && Rearranged(ps', ps)
      && (RearrangedSize(es', es); MatchesPointwise(es', ps', Anything));
    RearrangedSize(es', es);
    RearrangedSize(ps', ps);
  }

  predicate AllUnambiguous(es: seq<Expr>) {
    forall i :: 0 <= i < |es| ==> Unambiguous(es[i])
  }

  predicate Told(es: seq<Expr>) {
    DistinctKinds(es) && AllUnambiguous(es)
  }

  lemma OperandsUnambiguous(es: seq<Expr>, es': seq<Expr>)
    requires Rearranged(es', es) && AllUnambiguous(es)
    ensures AllUnambiguous(es')
  {
    forall i | 0 <= i < |es'| ensures Unambiguous(es'[i]) {
      var j := Position(es', es, i);
    }
  }

  const ReadAndAdd: seq<Expr> := [Memory(0, Immediate(2), 8), Immediate(3)]
  const ReadAndAddPattern: seq<Expr> := [Memory(0, Capture(0), 8), Capture(0)]

  lemma {:induction false} NoSingleValue(m: map<nat, Word>)
    ensures !MatchesReordered(ReadAndAdd, ReadAndAddPattern, Recorded(m, false))
  {
    var es, ps := ReadAndAdd, ReadAndAddPattern;
    if MatchesReordered(es, ps, Recorded(m, false)) {
      HitsMatch(Op(Sum, es), Op(Sum, ps), m, false, 2);
      HitsOfTwo(es, m, 2);
      HitsOfTwo(ps, m, 2);
    }
  }

  lemma HitsOfTwo(es: seq<Expr>, m: map<nat, Word>, v: Word)
    requires |es| == 2
    ensures HitsOf(es, m, v) == Hits(es[0], m, v) + Hits(es[1], m, v)
  {
    var one := es[..1];
    assert one[..0] == [];
    assert HitsOf(one, m, v) == HitsOf([], m, v) + Hits(one[0], m, v);
  }

  lemma ReadAndAddMatches()
    ensures MatchesReordered(ReadAndAdd, ReadAndAddPattern, Anything)
  {
    var es, ps := ReadAndAdd, ReadAndAddPattern;
    RearrangedSize(es, es);
    assert Matches(es[0], ps[0], Anything);
    assert Rearranged(es, es) && Rearranged(ps, ps) && MatchesPointwise(es, ps, Anything);
  }

  lemma ReadAndAddRepeats()
    ensures CapturesOf(ReadAndAddPattern)[0] >= 2
  {
    var ps := ReadAndAddPattern;
    CapturesOfTwo(ps, 0, 1);
    assert CapturesOf(ps)[0] >= (Captures(ps[0]) + Captures(ps[1]))[0];
  }

  /** A capture used twice is overwritten: the algorithm accepts, yet no value of the capture fits. */
  lemma {:induction false} RepeatedCapture()
    ensures !AtMostOnce(CapturesOf(ReadAndAddPattern)) && Told(ReadAndAdd) && Told(ReadAndAddPattern)
    ensures MatchesReordered(ReadAndAdd, ReadAndAddPattern, Anything)
    ensures forall m :: !MatchesReordered(ReadAndAdd, ReadAndAddPattern, Recorded(m, false))
  {
    var es, ps := ReadAndAdd, ReadAndAddPattern;
    ReadAndAddRepeats();
    ReadAndAddMatches();
    forall m ensures !MatchesReordered(es, ps, Recorded(m, false)) {
      NoSingleValue(m);
    }
  }

  // ------------------------------------------------------------------ when a single value fits

  /** Some value for every capture makes pattern and expression match. */
  ghost predicate Fits(e: Expr, p: Expr) {
    exists m :: Matches(e, p, Recorded(m, false))
  }

  /** How often the word occurs as a constant, captures read from `m`. */
  function Hits(e: Expr, m: map<nat, Word>, v: Word): nat
    decreases e, 1
  {
    match e
    case Immediate(w) => if w == v then 1 else 0
    case Named(_) => 0
    case Capture(id) => if Captured(m, id) == v then 1 else 0
    case Memory(_, at, _) => Hits(at, m, v)
    case Op(_, es) => HitsOf(es, m, v)
    case Extend(inner, _, _) => Hits(inner, m, v)
  }

  function HitsOf(es: seq<Expr>, m: map<nat, Word>, v: Word): nat
    decreases es, 0
  {
    if es == [] then 0 else HitsOf(es[..|es| - 1], m, v) + Hits(es[|es| - 1], m, v)
  }

  lemma {:induction false} HitsConcat(a: seq<Expr>, b: seq<Expr>, m: map<nat, Word>, v: Word)
    ensures HitsOf(a + b, m, v) == HitsOf(a, m, v) + HitsOf(b, m, v)
  {
    if b == [] {
      assert a + b == a;
    } else {
      assert (a + b)[..|a + b| - 1] == a + b[..|b| - 1];
      HitsConcat(a, b[..|b| - 1], m, v);
    }
  }

  lemma {:induction false} RearrangedHits(a: seq<Expr>, b: seq<Expr>, m: map<nat, Word>, v: Word)
    requires Rearranged(a, b)
    ensures HitsOf(a, m, v) == HitsOf(b, m, v)
  {
    RearrangedSize(a, b);
    if a != [] {
      var l, r := SplitLast(a, b);
      var x := a[|a| - 1];
      RearrangedHits(a[..|a| - 1], l + r, m, v);
      HitsConcat(l, r, m, v);
      HitsConcat(l, [x], m, v);
      HitsConcat(l + [x], r, m, v);
      assert [x][..0] == [] && HitsOf([x], m, v) == Hits(x, m, v);
    }
  }

  /** A match with recorded values has every constant as often as the pattern. */
  lemma {:induction false} HitsMatch(e: Expr, p: Expr, m: map<nat, Word>, widths: bool, v: Word)
    requires Matches(e, p, Recorded(m, widths))
    ensures Hits(e, m, v) == Hits(p, m, v)
    decreases Size(e), 0
  {
    match e {
      case Op(typ, es) =>
        var es', ps' :| Rearranged(es', es) && Rearranged(ps', p.operands)
          && (RearrangedSize(es', es); MatchesPointwise(es', ps', Recorded(m, widths)));
        RearrangedSize(es', es);
        HitsPointwise(es', ps', m, widths, v);
        RearrangedHits(es', es, m, v);
        RearrangedHits(ps', p.operands, m, v);
      case Memory(_, at, _) => HitsMatch(at, p.at, m, widths, v);
      case Extend(inner, _, _) => HitsMatch(inner, p.inner, m, widths, v);
      case _ =>
    }
  }

  lemma {:induction false} HitsPointwise(es: seq<Expr>, ps: seq<Expr>, m: map<nat, Word>, widths: bool, v: Word)
    requires MatchesPointwise(es, ps, Recorded(m, widths))
    ensures HitsOf(es, m, v) == HitsOf(ps, m, v)
    decreases SizeSum(es), 1
  {
    if es != [] {
      var last := |es| - 1;
      MemberSize(es, es[last]);
      HitsMatch(es[last], ps[last], m, widths, v);
      assert SizeSum(es) == SizeSum(es[..last]) + Size(es[last]);
      HitsPointwise(es[..last], ps[..last], m, widths, v);
    }
  }

  /** How often the word is written as a constant. */
  function Written(e: Expr, v: Word): nat
    decreases e, 1
  {
    match e
    case Immediate(w) => if w == v then 1 else 0
    case Memory(_, at, _) => Written(at, v)
    case Op(_, es) => WrittenOf(es, v)
    case Extend(inner, _, _) => Written(inner, v)
    case _ => 0
  }

  function WrittenOf(es: seq<Expr>, v: Word): nat
    decreases es, 0
  {
    if es == [] then 0 else WrittenOf(es[..|es| - 1], v) + Written(es[|es| - 1], v)
  }

  /** The value of a capture is hit wherever the capture occurs. */
  lemma {:induction false} HitsRepeated(p: Expr, m: map<nat, Word>, c: nat)
    ensures Hits(p, m, Captured(m, c)) >= Written(p, Captured(m, c)) + Captures(p)[c]
    decreases p, 1
  {
    match p {
      case Op(_, ps) => HitsRepeatedOf(ps, m, c);
      case Memory(_, at, _) => HitsRepeated(at, m, c);
      case Extend(inner, _, _) => HitsRepeated(inner, m, c);
      case _ =>
    }
  }

  lemma {:induction false} HitsRepeatedOf(ps: seq<Expr>, m: map<nat, Word>, c: nat)
    ensures HitsOf(ps, m, Captured(m, c)) >= WrittenOf(ps, Captured(m, c)) + CapturesOf(ps)[c]
    decreases ps, 0
  {
    if ps != [] {
      HitsRepeatedOf(ps[..|ps| - 1], m, c);
      HitsRepeated(ps[|ps| - 1], m, c);
    }
  }

  /** The pattern with its captures replaced by the words from `k` on, a different one each time. */
  function Filled(p: Expr, k: nat): Expr
    requires k + |Captures(p)| <= WORD
    decreases p, 1
  {
    match p
    case Capture(_) => Immediate(k)
    case Memory(segment, at, size) => Memory(segment, Filled(at, k), size)
    case Op(typ, ps) => Op(typ, FilledAll(ps, k))
    case Extend(inner, bits, signed) => Extend(Filled(inner, k), bits, signed)
    case _ => p
  }

  function FilledAll(ps: seq<Expr>, k: nat): (es: seq<Expr>)
    requires k + |CapturesOf(ps)| <= WORD
    ensures |es| == |ps|
    decreases ps, 0
  {
    if ps == [] then []
    else
      var init := ps[..|ps| - 1];
      FilledAll(init, k) + [Filled(ps[|ps| - 1], k + |CapturesOf(init)|)]
  }

  lemma {:induction false} FilledMatches(p: Expr, k: nat)
    requires k + |Captures(p)| <= WORD
    ensures Matches(Filled(p, k), p, Anything)
    decreases p, 1
  {
    match p {
      case Op(_, ps) =>
        FilledAllMatch(ps, k);
        var es := FilledAll(ps, k);
        RearrangedSize(es, es);
        assert Rearranged(es, es) && Rearranged(ps, ps);
      case Memory(_, at, _) => FilledMatches(at, k);
      case Extend(inner, _, _) => FilledMatches(inner, k);
      case _ =>
    }
  }

  lemma {:induction false} FilledAllMatch(ps: seq<Expr>, k: nat)
    requires k + |CapturesOf(ps)| <= WORD
    ensures MatchesPointwise(FilledAll(ps, k), ps, Anything)
    decreases ps, 0
  {
    if ps != [] {
      var init := ps[..|ps| - 1];
      FilledAllMatch(init, k);
      FilledMatches(ps[|ps| - 1], k + |CapturesOf(init)|);
      var es := FilledAll(ps, k);
      forall i | 0 <= i < |es| ensures Matches(es[i], ps[i], Anything) {
        if i < |init| {
          assert es[i] == FilledAll(init, k)[i] && ps[i] == init[i];
        }
      }
    }
  }

  /** No word is filled in twice. */
  lemma {:induction false} FilledHits(p: Expr, k: nat, m: map<nat, Word>, v: Word)
    requires k + |Captures(p)| <= WORD
    ensures Hits(Filled(p, k), m, v) == Written(p, v) + if k <= v < k + |Captures(p)| then 1 else 0
    decreases p, 1
  {
    match p {
      case Op(_, ps) => FilledAllHits(ps, k, m, v);
      case Memory(_, at, _) => FilledHits(at, k, m, v);
      case Extend(inner, _, _) => FilledHits(inner, k, m, v);
      case _ =>
    }
  }

  lemma {:induction false} FilledAllHits(ps: seq<Expr>, k: nat, m: map<nat, Word>, v: Word)
    requires k + |CapturesOf(ps)| <= WORD
    ensures HitsOf(FilledAll(ps, k), m, v) == WrittenOf(ps, v) + if k <= v < k + |CapturesOf(ps)| then 1 else 0
    decreases ps, 0
  {
    if ps != [] {
      var init, last := ps[..|ps| - 1], ps[|ps| - 1];
      FilledAllHits(init, k, m, v);
      FilledHits(last, k + |CapturesOf(init)|, m, v);
      var es := FilledAll(ps, k);
      assert es[..|es| - 1] == FilledAll(init, k);
    }
  }

  /** If captures occur once each, the values they stand for can be put together. */
  lemma {:induction false} LinearFits(e: Expr, p: Expr) returns (m: map<nat, Word>)
    requires Matches(e, p, Anything) && Linear(p)
    ensures Matches(e, p, Recorded(m, false))
    decreases Size(e), 0
  {
    m := map[];
    match e {
      case Immediate(v) =>
        if p.Capture? {
          m := map[p.id := v];
        }
      case Op(typ, es) =>
        var es', ps' :| Rearranged(es', es) && Rearranged(ps', p.operands)
          && (RearrangedSize(es', es); MatchesPointwise(es', ps', Anything));
        RearrangedSize(es', es);
        RearrangedCaptures(ps', p.operands);
        m := LinearFitsAll(es', ps');
      case Memory(_, at, _) => m := LinearFits(at, p.at);
      case Extend(inner, _, _) => m := LinearFits(inner, p.inner);
      case _ =>
    }
  }

  lemma {:induction false} LinearFitsAll(es: seq<Expr>, ps: seq<Expr>) returns (m: map<nat, Word>)
    requires MatchesPointwise(es, ps, Anything) && AtMostOnce(CapturesOf(ps))
    ensures MatchesPointwise(es, ps, Recorded(m, false))
    decreases SizeSum(es), 1
  {
    m := map[];
    for i := 0 to |es|
      invariant forall k :: 0 <= k < i ==> Matches(es[k], ps[k], Recorded(m, false))
    {
      MemberSize(es, es[i]);
      LinearPart(ps, i);
      var one := LinearFits(es[i], ps[i]);
      var m' := Joined(m, one, Captures(ps[i]));
      MatchesFrame(es[i], ps[i], Recorded(one, false), Recorded(m', false));
      EarlierStillMatch(es, ps, i, m, m');
      m := m';
    }
  }

  /** The values of `one` for the given captures, those of `m` for all others. */
  function Joined(m: map<nat, Word>, one: map<nat, Word>, captures: multiset<nat>): (r: map<nat, Word>)
    ensures forall c :: Captured(r, c) == if c in captures then Captured(one, c) else Captured(m, c)
  {
    map c | c in m.Keys + one.Keys :: if c in captures then Captured(one, c) else Captured(m, c)
  }

  /**
   Captures can be given one value each for whatever the pattern accepts, exactly if none of them is
   used twice. (There are no more captures than words.)
   */
  lemma LinearIff(p: Expr)
    requires |Captures(p)| <= WORD
    ensures Linear(p) <==> forall e :: Matches(e, p, Anything) ==> Fits(e, p)
  {
    if Linear(p) {
      forall e | Matches(e, p, Anything) ensures Fits(e, p) {
        var m := LinearFits(e, p);
      }
    } else {
      NeverFits(p);
    }
  }

  lemma NeverFits(p: Expr)
    requires |Captures(p)| <= WORD && !Linear(p)
    ensures Matches(Filled(p, 0), p, Anything) && !Fits(Filled(p, 0), p)
  {
    var e := Filled(p, 0);
    FilledMatches(p, 0);
    if Fits(e, p) {
      var m :| Matches(e, p, Recorded(m, false));
      var c :| Captures(p)[c] > 1;
      var v := Captured(m, c);
      HitsMatch(e, p, m, false, v);
      HitsRepeated(p, m, c);
      FilledHits(p, 0, m, v);
    }
  }
}
