/**
 The laws by which the constructors of asm/expression rewrite their operands: nested sums are spliced
 in, constants are folded into one at the end, products distribute over a leading sum, and what is
 left is kept in order. Together they say what every call gives, operand by operand.
 */
module Algebra {
  import opened Words
  import opened Expressions
  import opened Simplify
  import opened Canonical

  /** Neither constants nor sums. */
  predicate Terms(vs: seq<Expr>) {
    forall i :: 0 <= i < |vs| ==> !vs[i].Immediate? && !IsSum(vs[i])
  }

  predicate NoConstants(vs: seq<Expr>) {
    forall i :: 0 <= i < |vs| ==> !vs[i].Immediate?
  }

  predicate NoSums(vs: seq<Expr>) {
    forall i :: 0 <= i < |vs| ==> !IsSum(vs[i])
  }

  lemma {:induction false} FlattenTerms(vs: seq<Expr>)
    requires NoSums(vs)
    ensures Flatten(vs) == vs
  {
    if vs != [] {
      var init, last := vs[..|vs| - 1], vs[|vs| - 1];
      assert vs == init + [last];
      FlattenTerms(init);
      FlattenMore(init, last);
    }
  }

  lemma {:induction false} KeptTerms(vs: seq<Expr>)
    requires NoConstants(vs)
    ensures NonImmediates(vs) == vs && ImmediateSum(vs) == 0 && ImmediateProduct(vs) == 1
  {
    if vs != [] {
      var init, last := vs[..|vs| - 1], vs[|vs| - 1];
      assert vs == init + [last];
      KeptTerms(init);
      FoldMore(init, last);
    }
  }

  // ------------------------------------------------------------------ sums

  /** Terms are kept in order; one alone stays itself, none is zero. */
  lemma SumOfTerms(vs: seq<Expr>)
    requires Terms(vs)
    ensures Added(vs) == if vs == [] then Immediate(0) else if |vs| == 1 then vs[0] else Op(Sum, vs)
  {
    FlattenTerms(vs);
    KeptTerms(vs);
  }

  /** A constant comes last, unless it is zero. */
  lemma SumWithConstant(vs: seq<Expr>, c: Word)
    requires Terms(vs)
    ensures Added(vs + [Immediate(c)])
         == if vs == [] then Immediate(c) else if c == 0 then Added(vs) else Op(Sum, vs + [Immediate(c)])
  {
    ConstantBehind(vs, c);
    if c == 0 {
      FlattenTerms(vs);
      KeptTerms(vs);
    }
  }

  lemma ConstantBehind(vs: seq<Expr>, c: Word)
    requires Terms(vs)
    ensures var flat := Flatten(vs + [Immediate(c)]); NonImmediates(flat) == vs && ImmediateSum(flat) == c
  {
    FlattenTerms(vs);
    FlattenMore(vs, Immediate(c));
    KeptTerms(vs);
    FoldMore(vs, Immediate(c));
  }

  /** A sum among the operands is replaced by its terms. */
  lemma SumSpliced(a: seq<Expr>, terms: seq<Expr>, b: seq<Expr>)
    requires NoSums(terms)
    ensures Added(a + [Op(Sum, terms)] + b) == Added(a + terms + b)
  {
    FlattenTerms(terms);
    FlattenConcat(a + [Op(Sum, terms)], b);
    FlattenMore(a, Op(Sum, terms));
    FlattenConcat(a + terms, b);
    FlattenConcat(a, terms);
  }

  /** Constants move to the end. */
  lemma SumConstantLast(a: seq<Expr>, c: Word, b: seq<Expr>)
    ensures Added(a + [Immediate(c)] + b) == Added(a + b + [Immediate(c)])
  {
    FlattenConcat(a + [Immediate(c)], b);
    FlattenMore(a, Immediate(c));
    FlattenConcat(a, b);
    FlattenMore(a + b, Immediate(c));
    SumConstantMoves(Flatten(a), c, Flatten(b));
  }

  lemma SumConstantMoves(a: seq<Expr>, c: Word, b: seq<Expr>)
    ensures NonImmediates(a + [Immediate(c)] + b) == NonImmediates(a + b + [Immediate(c)])
    ensures ImmediateSum(a + [Immediate(c)] + b) == ImmediateSum(a + b + [Immediate(c)])
  {
    FoldConcat(a + [Immediate(c)], b);
    FoldMore(a, Immediate(c));
    FoldMore(a + b, Immediate(c));
    FoldConcat(a, b);
  }

  /** Two constants are one. */
  lemma SumConstantsFold(a: seq<Expr>, c: Word, d: Word)
    ensures Added(a + [Immediate(c)] + [Immediate(d)]) == Added(a + [Immediate(Plus(c, d))])
  {
    FlattenMore(a + [Immediate(c)], Immediate(d));
    FlattenMore(a, Immediate(c));
    FlattenMore(a, Immediate(Plus(c, d)));
    ConstantsSum(Flatten(a), c, d);
  }

  lemma ConstantsSum(a: seq<Expr>, c: Word, d: Word)
    ensures NonImmediates(a + [Immediate(c)] + [Immediate(d)]) == NonImmediates(a + [Immediate(Plus(c, d))])
    ensures ImmediateSum(a + [Immediate(c)] + [Immediate(d)]) == ImmediateSum(a + [Immediate(Plus(c, d))])
  {
    FoldMore(a + [Immediate(c)], Immediate(d));
    FoldMore(a, Immediate(c));
    FoldMore(a, Immediate(Plus(c, d)));
  }

  // ------------------------------------------------------------------ products

  lemma ProductMore(vs: seq<Expr>, e: Expr)
    ensures ImmediateProduct(vs + [e]) == if e.Immediate? then Times(ImmediateProduct(vs), e.value) else ImmediateProduct(vs)
  {
    assert (vs + [e])[..|vs|] == vs;
  }

  lemma {:induction false} ProductConcat(a: seq<Expr>, b: seq<Expr>)
    ensures ImmediateProduct(a + b) == Times(ImmediateProduct(a), ImmediateProduct(b))
  {
    if b == [] {
      assert a + b == a;
      TimesOne(ImmediateProduct(a));
    } else {
      var init, last := b[..|b| - 1], b[|b| - 1];
      assert a + b == (a + init) + [last] && b == init + [last];
      ProductConcat(a, init);
      ProductMore(a + init, last);
      ProductMore(init, last);
      if last.Immediate? {
        TimesAssoc(ImmediateProduct(a), ImmediateProduct(init), last.value);
      }
    }
  }

  /** Factors without constants are kept in order, unless there are two and the first is a sum. */
  lemma ProductOfFactors(vs: seq<Expr>)
    requires NoConstants(vs) && !(|vs| == 2 && IsSum(vs[0]))
    ensures Multiplied(vs) == if vs == [] then Immediate(1) else if |vs| == 1 then vs[0] else Op(Product, vs)
  {
    KeptTerms(vs);
  }

  /** A constant comes last, unless it is one; zero takes everything. */
  lemma ProductWithConstant(vs: seq<Expr>, c: Word)
    requires NoConstants(vs) && !(|vs| == 1 && IsSum(vs[0]))
    ensures Multiplied(vs + [Immediate(c)])
         == if vs == [] || c == 0 then Immediate(c) else if c == 1 then Multiplied(vs) else Op(Product, vs + [Immediate(c)])
  {
    ConstantParts(vs, c);
    KeptTerms(vs);
    if c == 1 {
      SameFactors(vs + [Immediate(1)], vs);
    } else if c != 0 {
      OneProduct(vs + [Immediate(c)], vs, c);
    }
  }

  lemma ConstantParts(vs: seq<Expr>, c: Word)
    requires NoConstants(vs)
    ensures var all := vs + [Immediate(c)];
            HasZero(all) == (c == 0) && NonImmediates(all) == vs && ImmediateProduct(all) == c
  {
    KeptTerms(vs);
    FoldMore(vs, Immediate(c));
    ProductMore(vs, Immediate(c));
    TimesOne(c);
    assert (vs + [Immediate(c)])[|vs|] == Immediate(c);
  }

  lemma OneProduct(all: seq<Expr>, vs: seq<Expr>, c: Word)
    requires !HasZero(all) && NonImmediates(all) == vs && ImmediateProduct(all) == c && c != 1
    requires !(|vs| == 1 && IsSum(vs[0]))
    ensures Multiplied(all) == if vs == [] then Immediate(c) else Op(Product, vs + [Immediate(c)])
  {
  }

  /** Only the zero, the folded constant and the other factors count. */
  lemma SameFactors(vs: seq<Expr>, ws: seq<Expr>)
    requires HasZero(vs) == HasZero(ws) && NonImmediates(vs) == NonImmediates(ws) && ImmediateProduct(vs) == ImmediateProduct(ws)
    ensures Multiplied(vs) == Multiplied(ws)
  {
  }

  /** Constants move to the end. */
  lemma ProductConstantLast(a: seq<Expr>, c: Word, b: seq<Expr>)
    ensures Multiplied(a + [Immediate(c)] + b) == Multiplied(a + b + [Immediate(c)])
  {
    SumConstantMoves(a, c, b);
    ProductConcat(a + [Immediate(c)], b);
    ProductMore(a, Immediate(c));
    ProductMore(a + b, Immediate(c));
    ProductConcat(a, b);
    var p, q := ImmediateProduct(a), ImmediateProduct(b);
    TimesAssoc(p, c, q);
    TimesComm(c, q);
    TimesAssoc(p, q, c);
    SameFactors(a + [Immediate(c)] + b, a + b + [Immediate(c)]);
  }

  /** Two constants are one; they may wrap around to zero only if one of them is zero. */
  lemma ProductConstantsFold(a: seq<Expr>, c: Word, d: Word)
    requires Times(c, d) == 0 ==> c == 0 || d == 0
    ensures Multiplied(a + [Immediate(c)] + [Immediate(d)]) == Multiplied(a + [Immediate(Times(c, d))])
  {
    FoldMore(a + [Immediate(c)], Immediate(d));
    FoldMore(a, Immediate(c));
    FoldMore(a, Immediate(Times(c, d)));
    ConstantsProduct(a, c, d);
    ZeroTimes(c, d);
    SameFactors(a + [Immediate(c)] + [Immediate(d)], a + [Immediate(Times(c, d))]);
  }

  lemma ConstantsProduct(a: seq<Expr>, c: Word, d: Word)
    ensures ImmediateProduct(a + [Immediate(c)] + [Immediate(d)]) == ImmediateProduct(a + [Immediate(Times(c, d))])
  {
    ProductMore(a + [Immediate(c)], Immediate(d));
    ProductMore(a, Immediate(c));
    ProductMore(a, Immediate(Times(c, d)));
    TimesAssoc(ImmediateProduct(a), c, d);
  }

  lemma ZeroTimes(c: Word, d: Word)
    ensures c == 0 || d == 0 ==> Times(c, d) == 0
  {
  }

  /** A product of a sum and another factor is the sum of the products. */
  lemma ProductDistributes(terms: seq<Expr>, x: Expr, products: seq<Expr>)
    requires x != Immediate(0) && x != Immediate(1)
    requires |products| == |terms| && forall i :: 0 <= i < |terms| ==> products[i] == Multiplied([terms[i], x])
    ensures Multiplied([Op(Sum, terms), x]) == Added(products)
  {
    var s := Op(Sum, terms);
    TwoFactors(s, x);
    DistributedEach(terms, x, products);
  }

  lemma TwoFactors(s: Expr, x: Expr)
    requires IsSum(s) && x != Immediate(0) && x != Immediate(1)
    ensures !HasZero([s, x]) && Distributes([s, x]) && Factors([s, x]) == [s, x]
  {
    assert [s, x] == [] + [s] + [x];
    FoldMore([] + [s], x);
    FoldMore([], s);
    ProductMore([] + [s], x);
    ProductMore([], s);
    if x.Immediate? {
      TimesOne(x.value);
    }
  }

  lemma {:induction false} DistributedEach(terms: seq<Expr>, x: Expr, products: seq<Expr>)
    requires |products| == |terms| && forall i :: 0 <= i < |terms| ==> products[i] == Multiplied([terms[i], x])
    ensures Distributed(terms, x) == products
  {
    if terms != [] {
      var last := |terms| - 1;
      forall i | 0 <= i < last ensures products[..last][i] == Multiplied([terms[..last][i], x]) {
        assert products[i] == Multiplied([terms[i], x]);
      }
      DistributedEach(terms[..last], x, products[..last]);
      DistributedMore(terms, x, products[..last], products[last]);
      assert products == products[..last] + [products[last]];
    }
  }

  lemma DistributedMore(terms: seq<Expr>, x: Expr, before: seq<Expr>, product: Expr)
    requires terms != [] && before == Distributed(terms[..|terms| - 1], x) && product == Multiplied([terms[|terms| - 1], x])
    ensures Distributed(terms, x) == before + [product]
  {
  }
}
