/**
 Construction of sums, products and zero extensions (asm/expression/add.go, mul.go, extend.go,
 imm.go). The methods follow the loops of the source; each is proved equal to a function, and the
 functions are proved to keep the meaning of their arguments modulo 2^64 and to build canonical trees.
 */
module Simplify {
  import opened Words
  import opened Expressions

  const ALL_ONES: Word := WORD - 1

  /** One level of nested sums opened up. */
  function Flatten(vs: seq<Expr>): seq<Expr> {
    if vs == [] then []
    else
      var last := vs[|vs| - 1];
      Flatten(vs[..|vs| - 1]) + if IsSum(last) then last.operands else [last]
  }

  function NonImmediates(vs: seq<Expr>): (r: seq<Expr>)
    ensures |r| <= |vs|
    ensures forall e :: e in r ==> e in vs && !e.Immediate?
  {
    if vs == [] then []
    else
      var last := vs[|vs| - 1];
      var rest := NonImmediates(vs[..|vs| - 1]);
      if last.Immediate? then rest else rest + [last]
  }

  function ImmediateSum(vs: seq<Expr>): Word {
    if vs == [] then 0
    else
      var last := vs[|vs| - 1];
      var rest := ImmediateSum(vs[..|vs| - 1]);
      if last.Immediate? then Plus(rest, last.value) else rest
  }

  function ImmediateProduct(vs: seq<Expr>): Word {
    if vs == [] then 1
    else
      var last := vs[|vs| - 1];
      var rest := ImmediateProduct(vs[..|vs| - 1]);
      if last.Immediate? then Times(rest, last.value) else rest
  }

  /** The node built from the remaining operands and a constant that is dropped when neutral. */
  function Combine(typ: OpType, oss: seq<Expr>, v: Word): Expr {
    var neutral := if typ == Sum then 0 else 1;
    if oss == [] then Immediate(v)
    else
      var all := if v != neutral then oss + [Immediate(v)] else oss;
      if |all| == 1 then all[0] else Op(typ, all)
  }

  function Added(vs: seq<Expr>): Expr {
    Combine(Sum, NonImmediates(Flatten(vs)), ImmediateSum(Flatten(vs)))
  }

  predicate HasZero(vs: seq<Expr>) {
    Immediate(0) in vs
  }

  /** Factors left after constant folding, the constant last. */
  function Factors(vs: seq<Expr>): seq<Expr> {
    var v := ImmediateProduct(vs);
    if v != 1 then NonImmediates(vs) + [Immediate(v)] else NonImmediates(vs)
  }

  predicate Distributes(vs: seq<Expr>) {
    NonImmediates(vs) != [] && |Factors(vs)| == 2 && IsSum(Factors(vs)[0])
  }

  function Multiplied(vs: seq<Expr>): Expr
    decreases SizeSum(vs), 0
  {
    if HasZero(vs) then Immediate(0)
    else if Distributes(vs) then
      var f := Factors(vs);
      DistributionShrinks(vs);
      Added(Distributed(f[0].operands, f[1]))
    else Combine(Product, NonImmediates(vs), ImmediateProduct(vs))
  }

  function Distributed(terms: seq<Expr>, factor: Expr): (r: seq<Expr>)
    ensures |r| == |terms|
    decreases SizeSum(terms) + Size(factor), |terms| + 1
  {
    if terms == [] then []
    else
      var last := |terms| - 1;
      PairSize(terms[last], factor);
      Distributed(terms[..last], factor) + [Multiplied([terms[last], factor])]
  }

  lemma PairSize(a: Expr, b: Expr)
    ensures SizeSum([a, b]) == Size(a) + Size(b)
  {
    assert [a, b][..1] == [a] && [a][..0] == [];
    assert SizeSum([a]) == Size(a);
  }

  lemma {:induction false} FoldingShrinks(vs: seq<Expr>)
    ensures SizeSum(NonImmediates(vs)) <= SizeSum(vs)
    ensures ImmediateProduct(vs) != 1 ==> SizeSum(NonImmediates(vs)) + 1 <= SizeSum(vs)
  {
    if vs != [] {
      var last := |vs| - 1;
      FoldingShrinks(vs[..last]);
      var rest := NonImmediates(vs[..last]);
      assert (rest + [vs[last]])[..|rest|] == rest;
    }
  }

  lemma DistributionShrinks(vs: seq<Expr>)
    requires Distributes(vs)
    ensures SizeSum(Factors(vs)[0].operands) + Size(Factors(vs)[1]) < SizeSum(vs)
  {
    var f := Factors(vs);
    FoldingShrinks(vs);
    PairSize(f[0], f[1]);
    assert f == [f[0], f[1]];
    if ImmediateProduct(vs) != 1 {
      assert f[..1] == NonImmediates(vs);
    }
  }

  // ------------------------------------------------------------------ the source's loops

  /** One operand: folded if it is a constant, else kept. */
  method AddOne(it: Expr, oss: seq<Expr>, v: Word, ghost before: seq<Expr>) returns (oss': seq<Expr>, v': Word)
    requires oss == NonImmediates(before) && v == ImmediateSum(before)
    ensures oss' == NonImmediates(before + [it]) && v' == ImmediateSum(before + [it])
  {
    assert (before + [it])[..|before|] == before;
    if it.Immediate? {
      oss', v' := oss, Plus(v, it.value);
    } else {
      oss', v' := oss + [it], v;
    }
  }

  /** The operands of a nested sum, one by one. */
  method AddOperands(operands: seq<Expr>, oss0: seq<Expr>, v0: Word, ghost before: seq<Expr>) returns (oss: seq<Expr>, v: Word)
    requires oss0 == NonImmediates(before) && v0 == ImmediateSum(before)
    ensures oss == NonImmediates(before + operands) && v == ImmediateSum(before + operands)
  {
    oss, v := oss0, v0;
    assert before + operands[..0] == before;
    for j := 0 to |operands|
      invariant oss == NonImmediates(before + operands[..j]) && v == ImmediateSum(before + operands[..j])
    {
      assert before + operands[..j + 1] == before + operands[..j] + [operands[j]];
      oss, v := AddOne(operands[j], oss, v, before + operands[..j]);
    }
    assert operands[..|operands|] == operands;
  }

  method Add(vs: seq<Expr>) returns (r: Expr)
    ensures r == Added(vs)
  {
    var oss: seq<Expr>, v: Word := [], 0;
    for i := 0 to |vs|
      invariant oss == NonImmediates(Flatten(vs[..i])) && v == ImmediateSum(Flatten(vs[..i]))
    {
      var it := vs[i];
      assert vs[..i + 1][..i] == vs[..i];
      if IsSum(it) {
        oss, v := AddOperands(it.operands, oss, v, Flatten(vs[..i]));
      } else {
        oss, v := AddOne(it, oss, v, Flatten(vs[..i]));
      }
    }
    assert vs[..|vs|] == vs;
    if |oss| == 0 {
      return Immediate(v);
    }
    if v != 0 {
      oss := oss + [Immediate(v)];
    }
    if |oss| == 1 {
      return oss[0];
    }
    return Op(Sum, oss);
  }

  /** Folds the constants, or finds a zero. */
  method Fold(vs: seq<Expr>) returns (zero: bool, oss: seq<Expr>, v: Word)
    ensures zero == HasZero(vs)
    ensures !zero ==> oss == NonImmediates(vs) && v == ImmediateProduct(vs)
  {
    zero, oss, v := false, [], 1;
    for i := 0 to |vs|
      invariant oss == NonImmediates(vs[..i]) && v == ImmediateProduct(vs[..i])
      invariant !zero && !HasZero(vs[..i])
    {
      var it := vs[i];
      assert vs[..i + 1][..i] == vs[..i];
      if it == Immediate(0) {
        return true, oss, v;
      }
      if it == Immediate(1) {
        continue;
      }
      if it.Immediate? {
        v := Times(v, it.value);
      } else {
        oss := oss + [it];
      }
    }
    assert vs[..|vs|] == vs;
  }

  method Multiply(vs: seq<Expr>) returns (r: Expr)
    ensures r == Multiplied(vs)
    decreases SizeSum(vs), 0
  {
    var zero, oss, v := Fold(vs);
    if zero {
      return Immediate(0);
    }
    if |oss| == 0 {
      return Immediate(v);
    }
    if v != 1 {
      oss := oss + [Immediate(v)];
    }
    if |oss| == 1 {
      return oss[0];
    }
    if |oss| == 2 && IsSum(oss[0]) {
      DistributionShrinks(vs);
      var res := MultiplyEach(oss[0].operands, oss[1]);
      r := Add(res);
      return;
    }
    return Op(Product, oss);
  }

  method MultiplyEach(terms: seq<Expr>, factor: Expr) returns (res: seq<Expr>)
    ensures res == Distributed(terms, factor)
    decreases SizeSum(terms) + Size(factor), 1
  {
    res := [];
    for k := 0 to |terms|
      invariant res == Distributed(terms[..k], factor)
    {
      MemberSize(terms, terms[k]);
      PairSize(terms[k], factor);
      assert terms[..k + 1][..k] == terms[..k];
      var product := Multiply([terms[k], factor]);
      res := res + [product];
    }
    assert terms[..|terms|] == terms;
  }

  function ZeroExtend(v: Expr, bits: nat): Expr {
    if bits == 0 then Immediate(0)
    else if bits >= 64 then v
    else match v
      case Immediate(w) => Immediate(ZeroExtended(w, bits))
      case Extend(inner, innerBits, signed) =>
        if signed then Extend(v, bits, false)
        else if innerBits <= bits then v
        else Extend(inner, bits, false)
      case _ => Extend(v, bits, false)
  }

  function SignExtend(v: Expr, bits: nat): Expr {
    Extend(v, bits, true)
  }

  // ------------------------------------------------------------------ meaning

  lemma {:induction false} FlattenEval(vs: seq<Expr>, env: Env)
    ensures EvalSum(Flatten(vs), env) == EvalSum(vs, env)
  {
    if vs != [] {
      var last := vs[|vs| - 1];
      FlattenEval(vs[..|vs| - 1], env);
      EvalSumConcat(Flatten(vs[..|vs| - 1]), if IsSum(last) then last.operands else [last], env);
      EvalSingleton(last, env);
    }
  }

  lemma {:induction false} FoldSumEval(vs: seq<Expr>, env: Env)
    ensures EvalSum(vs, env) == Plus(EvalSum(NonImmediates(vs), env), ImmediateSum(vs))
  {
    if vs != [] {
      var last := vs[|vs| - 1];
      FoldSumEval(vs[..|vs| - 1], env);
      EvalSumConcat(NonImmediates(vs[..|vs| - 1]), [last], env);
      EvalSingleton(last, env);
    }
  }

  lemma {:induction false} FoldProductEval(vs: seq<Expr>, env: Env)
    ensures EvalProduct(vs, env) == Times(EvalProduct(NonImmediates(vs), env), ImmediateProduct(vs))
  {
    if vs != [] {
      var last := vs[|vs| - 1];
      var rest := vs[..|vs| - 1];
      FoldProductEval(rest, env);
      var p, c, x := EvalProduct(NonImmediates(rest), env), ImmediateProduct(rest), Eval(last, env);
      if last.Immediate? {
        TimesAssoc(p, c, x);
      } else {
        EvalProductConcat(NonImmediates(rest), [last], env);
        EvalSingleton(last, env);
        TimesAssoc(p, c, x);
        TimesComm(c, x);
        TimesAssoc(p, x, c);
      }
    }
  }

  lemma CombineEval(typ: OpType, oss: seq<Expr>, v: Word, env: Env)
    ensures typ == Sum ==> Eval(Combine(typ, oss, v), env) == Plus(EvalSum(oss, env), v)
    ensures typ == Product ==> Eval(Combine(typ, oss, v), env) == Times(EvalProduct(oss, env), v)
  {
    var c := Immediate(v);
    EvalSingleton(c, env);
    EvalSumConcat(oss, [c], env);
    EvalProductConcat(oss, [c], env);
    TimesOne(v);
    TimesOne(EvalProduct(oss, env));
    if |oss| == 1 {
      EvalSingleton(oss[0], env);
      assert oss == [oss[0]];
    }
  }

  /** A sum built by `Add` denotes the sum of its arguments modulo 2^64. */
  lemma AddedEval(vs: seq<Expr>, env: Env)
    ensures Eval(Added(vs), env) == EvalSum(vs, env)
  {
    var flat := Flatten(vs);
    CombineEval(Sum, NonImmediates(flat), ImmediateSum(flat), env);
    FoldSumEval(flat, env);
    FlattenEval(vs, env);
  }

  lemma {:induction false} ZeroProduct(vs: seq<Expr>, env: Env)
    requires HasZero(vs)
    ensures EvalProduct(vs, env) == 0
  {
    var last := |vs| - 1;
    if vs[last] == Immediate(0) {
      assert EvalProduct(vs[..last], env) * 0 == 0;
    } else {
      assert vs == vs[..last] + [vs[last]];
      ZeroProduct(vs[..last], env);
      assert 0 * Eval(vs[last], env) == 0;
    }
  }

  /** A product built by `Multiply` denotes the product of its arguments modulo 2^64. */
  lemma {:induction false} MultipliedEval(vs: seq<Expr>, env: Env)
    ensures Eval(Multiplied(vs), env) == EvalProduct(vs, env)
    decreases SizeSum(vs), 0
  {
    if HasZero(vs) {
      ZeroProduct(vs, env);
    } else {
      FoldProductEval(vs, env);
      if Distributes(vs) {
        var f := Factors(vs);
        DistributionShrinks(vs);
        DistributedEval(f[0].operands, f[1], env);
        AddedEval(Distributed(f[0].operands, f[1]), env);
        FactorsEval(vs, env);
        PairProduct(f[0], f[1], env);
        assert f == [f[0], f[1]];
      } else {
        CombineEval(Product, NonImmediates(vs), ImmediateProduct(vs), env);
      }
    }
  }

  lemma PairProduct(a: Expr, b: Expr, env: Env)
    ensures EvalProduct([a, b], env) == Times(Eval(a, env), Eval(b, env))
  {
    assert [a, b] == [a] + [b];
    EvalProductConcat([a], [b], env);
    EvalSingleton(a, env);
    EvalSingleton(b, env);
  }

  lemma FactorsEval(vs: seq<Expr>, env: Env)
    ensures EvalProduct(Factors(vs), env) == Times(EvalProduct(NonImmediates(vs), env), ImmediateProduct(vs))
  {
    EvalProductConcat(NonImmediates(vs), [Immediate(ImmediateProduct(vs))], env);
    EvalSingleton(Immediate(ImmediateProduct(vs)), env);
    TimesOne(EvalProduct(NonImmediates(vs), env));
  }

  lemma {:induction false} DistributedEval(terms: seq<Expr>, factor: Expr, env: Env)
    ensures EvalSum(Distributed(terms, factor), env) == Times(EvalSum(terms, env), Eval(factor, env))
    decreases SizeSum(terms) + Size(factor), |terms| + 1
  {
    if terms != [] {
      var last := |terms| - 1;
      var t := terms[last];
      PairSize(t, factor);
      DistributedEval(terms[..last], factor, env);
      MultipliedEval([t, factor], env);
      PairProduct(t, factor, env);
      EvalSumConcat(Distributed(terms[..last], factor), [Multiplied([t, factor])], env);
      EvalSingleton(Multiplied([t, factor]), env);
      TimesPlus(EvalSum(terms[..last], env), Eval(t, env), Eval(factor, env));
    }
  }

  /** `ZeroExtend` denotes the low bits of its argument, also when it merges nested extensions. */
  lemma ZeroExtendEval(v: Expr, bits: nat, env: Env)
    ensures Eval(ZeroExtend(v, bits), env) == ZeroExtended(Eval(v, env), bits)
  {
    if 0 < bits < 64 && v.Extend? && !v.signed {
      var w := Eval(v.inner, env);
      if v.bits <= bits {
        ModPow2Nested(w, v.bits, bits);
      } else if v.bits < 64 {
        ModPow2Nested(w, bits, v.bits);
      }
    }
  }
}
