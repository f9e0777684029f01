/**
 The normal form kept by the constructors of asm/expression: what shape a sum, a product or an
 extension built from normal arguments can have.
 */
module Canonical {
  import opened Words
  import opened Expressions
  import opened Simplify

  /**
   An immediate occurs only as the last operand and is not neutral; sums do not nest, and a product of
   two does not begin with a sum.
   */
  predicate GoodOperands(typ: OpType, es: seq<Expr>) {
    && |es| >= 2
    && (forall i :: 0 <= i < |es| - 1 ==> !es[i].Immediate?)
    && es[|es| - 1] != Immediate(if typ == Sum then 0 else 1)
    && (typ == Sum ==> forall i :: 0 <= i < |es| ==> !IsSum(es[i]))
    && (typ == Product && |es| == 2 ==> !IsSum(es[0]))
  }

  predicate Normal(e: Expr) {
    match e
    case Immediate(_) => true
    case Named(_) => true
    case Capture(_) => true
    case Memory(_, at, _) => Normal(at)
    case Op(typ, es) => GoodOperands(typ, es) && forall i :: 0 <= i < |es| ==> Normal(es[i])
    case Extend(inner, bits, signed) =>
      && Normal(inner)
      && (!signed ==> 0 < bits < 64 && !inner.Immediate? && !(inner.Extend? && !inner.signed))
  }

  predicate AllNormal(es: seq<Expr>) {
    forall i :: 0 <= i < |es| ==> Normal(es[i])
  }

  lemma {:induction false} FlattenNormal(vs: seq<Expr>)
    requires AllNormal(vs)
    ensures AllNormal(Flatten(vs))
    ensures forall e :: e in Flatten(vs) ==> !IsSum(e)
  {
    if vs != [] {
      FlattenNormal(vs[..|vs| - 1]);
    }
  }

  lemma CombineNormal(typ: OpType, oss: seq<Expr>, v: Word)
    requires AllNormal(oss)
    requires forall e :: e in oss ==> !e.Immediate? && (typ == Sum ==> !IsSum(e))
    requires typ == Product && oss != [] ==> !(|oss| == (if v != 1 then 1 else 2) && IsSum(oss[0]))
    ensures Normal(Combine(typ, oss, v))
  {
  }

  lemma MembersNormal(es: seq<Expr>, part: seq<Expr>)
    requires AllNormal(es)
    requires forall e :: e in part ==> e in es
    ensures AllNormal(part)
  {
    forall i | 0 <= i < |part| ensures Normal(part[i]) {
      assert part[i] in es;
    }
  }

  lemma AddedNormal(vs: seq<Expr>)
    requires AllNormal(vs)
    ensures Normal(Added(vs))
  {
    var flat := Flatten(vs);
    FlattenNormal(vs);
    MembersNormal(flat, NonImmediates(flat));
    CombineNormal(Sum, NonImmediates(flat), ImmediateSum(flat));
  }

  lemma {:induction false} MultipliedNormal(vs: seq<Expr>)
    requires AllNormal(vs)
    ensures Normal(Multiplied(vs))
    decreases SizeSum(vs), 0
  {
    MembersNormal(vs, NonImmediates(vs));
    if HasZero(vs) {
    } else if Distributes(vs) {
      var f := Factors(vs);
      DistributionShrinks(vs);
      DistributedNormal(f[0].operands, f[1]);
      AddedNormal(Distributed(f[0].operands, f[1]));
    } else {
      CombineNormal(Product, NonImmediates(vs), ImmediateProduct(vs));
    }
  }

  lemma {:induction false} DistributedNormal(terms: seq<Expr>, factor: Expr)
    requires AllNormal(terms) && Normal(factor)
    ensures AllNormal(Distributed(terms, factor))
    decreases SizeSum(terms) + Size(factor), |terms| + 1
  {
    if terms != [] {
      var last := |terms| - 1;
      PairSize(terms[last], factor);
      DistributedNormal(terms[..last], factor);
      MultipliedNormal([terms[last], factor]);
    }
  }

  lemma ZeroExtendNormal(v: Expr, bits: nat)
    requires Normal(v)
    ensures Normal(ZeroExtend(v, bits))
  {
  }

  // ------------------------------------------------------------------ nested sums collapse

  lemma {:induction false} FlattenConcat(a: seq<Expr>, b: seq<Expr>)
    ensures Flatten(a + b) == Flatten(a) + Flatten(b)
  {
    if b == [] {
      assert a + b == a;
    } else {
      var init, last := b[..|b| - 1], b[|b| - 1];
      assert a + b == (a + init) + [last] && b == init + [last];
      FlattenConcat(a, init);
      FlattenMore(a + init, last);
      FlattenMore(init, last);
    }
  }

  lemma FlattenMore(a: seq<Expr>, e: Expr)
    ensures Flatten(a + [e]) == Flatten(a) + if IsSum(e) then e.operands else [e]
  {
    assert (a + [e])[..|a|] == a;
  }

  lemma FoldConcat(a: seq<Expr>, b: seq<Expr>)
    ensures NonImmediates(a + b) == NonImmediates(a) + NonImmediates(b)
    ensures ImmediateSum(a + b) == Plus(ImmediateSum(a), ImmediateSum(b))
  {
    KeptConcat(a, b);
    SumConcat(a, b);
  }

  lemma {:induction false} KeptConcat(a: seq<Expr>, b: seq<Expr>)
    ensures NonImmediates(a + b) == NonImmediates(a) + NonImmediates(b)
  {
    if b == [] {
      assert a + b == a;
    } else {
      var init, last := b[..|b| - 1], b[|b| - 1];
      assert a + b == (a + init) + [last] && b == init + [last];
      KeptConcat(a, init);
      FoldMore(a + init, last);
      FoldMore(init, last);
    }
  }

  lemma {:induction false} SumConcat(a: seq<Expr>, b: seq<Expr>)
    ensures ImmediateSum(a + b) == Plus(ImmediateSum(a), ImmediateSum(b))
  {
    if b == [] {
      assert a + b == a;
    } else {
      var init, last := b[..|b| - 1], b[|b| - 1];
      assert a + b == (a + init) + [last] && b == init + [last];
      SumConcat(a, init);
      FoldMore(a + init, last);
      FoldMore(init, last);
    }
  }

  lemma FoldMore(a: seq<Expr>, e: Expr)
    ensures NonImmediates(a + [e]) == NonImmediates(a) + if e.Immediate? then [] else [e]
    ensures ImmediateSum(a + [e]) == Plus(ImmediateSum(a), if e.Immediate? then e.value else 0)
  {
    assert (a + [e])[..|a|] == a;
  }

  lemma {:induction false} FoldNonImmediates(a: seq<Expr>)
    requires forall e :: e in a ==> !e.Immediate?
    ensures NonImmediates(a) == a && ImmediateSum(a) == 0
  {
    if a != [] {
      FoldNonImmediates(a[..|a| - 1]);
      assert a == a[..|a| - 1] + [a[|a| - 1]];
    }
  }

  lemma FlattenSingle(e: Expr)
    ensures Flatten([e]) == if IsSum(e) then e.operands else [e]
  {
    assert [e][..0] == [];
  }

  /** Folding the operands of an already built sum gives back its terms and its constant. */
  lemma AddedFolds(vs: seq<Expr>)
    requires AllNormal(vs)
    ensures NonImmediates(Flatten([Added(vs)])) == NonImmediates(Flatten(vs))
    ensures ImmediateSum(Flatten([Added(vs)])) == ImmediateSum(Flatten(vs))
  {
    var oss, v := NonImmediates(Flatten(vs)), ImmediateSum(Flatten(vs));
    var c := Immediate(v);
    FlattenNormal(vs);
    FlattenSingle(Added(vs));
    FoldNonImmediates(oss);
    FoldConcat(oss, [c]);
    assert NonImmediates([c]) == [] && ImmediateSum([c]) == v by {
      assert [c][..0] == [];
    }
    if |oss| == 1 {
      assert oss == [oss[0]];
    }
  }

  /** A sum of sums is the sum of all the terms: the order in which additions are made never shows. */
  lemma AddNested(vs: seq<Expr>, ws: seq<Expr>)
    requires AllNormal(vs)
    ensures Added([Added(vs)] + ws) == Added(vs + ws)
  {
    FlattenConcat([Added(vs)], ws);
    FlattenConcat(vs, ws);
    FoldConcat(Flatten([Added(vs)]), Flatten(ws));
    FoldConcat(Flatten(vs), Flatten(ws));
    AddedFolds(vs);
  }
}
