/**
 Symbolic 64-bit values (asm/expression): the expression tree and what it denotes.

 An expression denotes a word in an environment that gives every named value, every capture
 and every memory read a word. Memory is constant: a read is a function of the segment, the
 address and the access width in bytes.
 */
module Expressions {
  import opened Words

  datatype OpType = Sum | Product

  /** `Named` and `Capture` objects are compared by identity in the source; here by `id`. */
  datatype Expr =
    | Immediate(value: Word)
    | Named(id: nat)
    | Capture(id: nat)
    | Memory(segment: nat, at: Expr, sizeBytes: nat)
    | Op(typ: OpType, operands: seq<Expr>)
    | Extend(inner: Expr, bits: nat, signed: bool)

  predicate IsSum(e: Expr) {
    e.Op? && e.typ == Sum
  }

  datatype Env = Env(names: nat -> Word, captures: map<nat, Word>, mem: (nat, Word, nat) -> Word)

  /** A capture that was never written still holds the zero value. */
  function Captured(captures: map<nat, Word>, id: nat): Word {
    if id in captures then captures[id] else 0
  }

  function ZeroExtended(w: Word, bits: nat): (r: Word)
    ensures r <= w
  {
    if bits >= 64 then w
    else
      ModAtMost(w, Pow2(bits));
      w % Pow2(bits)
  }

  function SignExtended(w: Word, bits: nat): Word {
    if bits == 0 || bits >= 64 then w
    else if w % Pow2(bits) < Pow2(bits - 1) then ZeroExtended(w, bits)
    else Wrap(w % Pow2(bits) - Pow2(bits))
  }

  function Eval(e: Expr, env: Env): Word
    decreases e, 1
  {
    match e
    case Immediate(v) => v
    case Named(id) => env.names(id)
    case Capture(id) => Captured(env.captures, id)
    case Memory(segment, at, size) => env.mem(segment, Eval(at, env), size)
    case Op(Sum, es) => EvalSum(es, env)
    case Op(Product, es) => EvalProduct(es, env)
    case Extend(inner, bits, signed) =>
      if signed then SignExtended(Eval(inner, env), bits) else ZeroExtended(Eval(inner, env), bits)
  }

  function EvalSum(es: seq<Expr>, env: Env): Word
    decreases es, 0
  {
    if es == [] then 0
    else Plus(EvalSum(es[..|es| - 1], env), Eval(es[|es| - 1], env))
  }

  function EvalProduct(es: seq<Expr>, env: Env): Word
    decreases es, 0
  {
    if es == [] then 1
    else Times(EvalProduct(es[..|es| - 1], env), Eval(es[|es| - 1], env))
  }

  /** Number of nodes, the measure on which simplification and matching terminate. */
  function Size(e: Expr): (n: nat)
    ensures n >= 1
    decreases e, 1
  {
    match e
    case Immediate(_) => 1
    case Named(_) => 1
    case Capture(_) => 1
    case Memory(_, at, _) => 1 + Size(at)
    case Op(_, es) => 1 + SizeSum(es)
    case Extend(inner, _, _) => 1 + Size(inner)
  }

  function SizeSum(es: seq<Expr>): nat
    decreases es, 0
  {
    if es == [] then 0 else SizeSum(es[..|es| - 1]) + Size(es[|es| - 1])
  }

  lemma {:induction false} MemberSize(es: seq<Expr>, e: Expr)
    requires e in es
    ensures Size(e) <= SizeSum(es)
  {
    var last := |es| - 1;
    if es[last] != e {
      assert es == es[..last] + [es[last]];
      MemberSize(es[..last], e);
    }
  }

  lemma {:induction false} EvalSumConcat(a: seq<Expr>, b: seq<Expr>, env: Env)
    ensures EvalSum(a + b, env) == Plus(EvalSum(a, env), EvalSum(b, env))
  {
    if b == [] {
      assert a + b == a;
    } else {
      var last := |b| - 1;
      assert (a + b)[..|a + b| - 1] == a + b[..last];
      EvalSumConcat(a, b[..last], env);
    }
  }

  lemma {:induction false} EvalProductConcat(a: seq<Expr>, b: seq<Expr>, env: Env)
    ensures EvalProduct(a + b, env) == Times(EvalProduct(a, env), EvalProduct(b, env))
  {
    if b == [] {
      assert a + b == a;
    } else {
      var last := |b| - 1;
      assert (a + b)[..|a + b| - 1] == a + b[..last];
      EvalProductConcat(a, b[..last], env);
      TimesAssoc(EvalProduct(a, env), EvalProduct(b[..last], env), Eval(b[last], env));
    }
  }

  lemma {:induction false} EvalSingleton(e: Expr, env: Env)
    ensures EvalSum([e], env) == Eval(e, env) && EvalProduct([e], env) == Eval(e, env)
  {
    assert [e][..0] == [];
  }
}
