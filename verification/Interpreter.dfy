/**
 Symbolic execution of x86-64 code (asm/amd/interpreter.go, asm/amd/regs_state.go) and the proof
 that it simulates the processor.
 */
module Interpreter {
  import opened Words
  import opened Bytes
  import opened Expressions
  import opened Simplify
  import opened Canonical
  import opened X86
  import opened Wrappers

  // ------------------------------------------------------------------ one step, as a function

  function GetX86(regs: seq<Expr>, r: Reg): Expr
    requires |regs| == REGISTERS
  {
    if Width(r) != 64 then ZeroExtend(regs[Index(r)], Width(r)) else regs[Index(r)]
  }

  function SetX86(regs: seq<Expr>, r: Reg, v: Expr): seq<Expr>
    requires |regs| == REGISTERS
  {
    regs[Index(r) := if Width(r) != 64 then ZeroExtend(v, Width(r)) else v]
  }

  /** Recovers the sign of a 32-bit displacement that arrives zero extended. */
  function ImmFromDisp(disp: Word): Expr {
    if disp <= 0xFFFF_FFFF then
      Immediate(if disp < 0x8000_0000 then disp else Wrap(disp - 0x1_0000_0000))
    else Immediate(disp)
  }

  function MemTerms(regs: seq<Expr>, m: Mem): seq<Expr>
    requires |regs| == REGISTERS
  {
    (if m.disp != 0 then [ImmFromDisp(m.disp)] else [])
    + (if !m.base.NoReg? then [GetX86(regs, m.base)] else [])
    + (if !m.index.NoReg? then [Multiplied([GetX86(regs, m.index), Immediate(m.scale)])] else [])
  }

  function MemAddress(regs: seq<Expr>, m: Mem): Expr
    requires |regs| == REGISTERS
  {
    Added(MemTerms(regs, m))
  }

  /** 2^count, converted to a word: fractions are cut off, and what does not fit is up to the platform. */
  function ShiftFactor(i: Inst, count: Word): Word {
    if count < 64 then Wrap(Pow2(count)) else if count >= 0x8000_0000_0000_0000 then 0 else i.overflow
  }

  /** The expression an instruction writes to `dst`, if it is one the interpreter handles. */
  datatype Effect = Keep | Write(v: Expr)

  /** For RIP-relative loads the address is the updated RIP plus the displacement. */
  function LoadAddress(regs: seq<Expr>, m: Mem): Expr
    requires |regs| == REGISTERS
  {
    if m.base.Rip? then Added([GetX86(regs, Rip), ImmFromDisp(m.disp)]) else MemAddress(regs, m)
  }

  function LoadedValue(regs: seq<Expr>, i: Inst, m: Mem): Expr
    requires |regs| == REGISTERS
  {
    var v := Memory(m.segment, LoadAddress(regs, m), i.memBytes);
    if i.op == MOVSX || i.op == MOVSXD then SignExtend(v, i.dataSize) else ZeroExtend(v, i.dataSize)
  }

  function AddEffect(regs: seq<Expr>, i: Inst, dst: Reg): Effect
    requires |regs| == REGISTERS
  {
    if i.src.OtherArg? then Keep
    else
      var right := RightOperand(regs, i);
      var right' := if i.op == SUB then Multiplied([Immediate(ALL_ONES), right]) else right;
      Write(Added([GetX86(regs, dst), right']))
  }

  function StepEffect(regs: seq<Expr>, i: Inst): Effect
    requires |regs| == REGISTERS
  {
    if !i.dst.RegArg? then Keep
    else
      var dst := i.dst.reg;
      match i.op
      case ADD => AddEffect(regs, i, dst)
      case SUB => AddEffect(regs, i, dst)
      case SHL =>
        if i.src.ImmArg? then Write(Multiplied([GetX86(regs, dst), Immediate(ShiftFactor(i, i.src.value))])) else Keep
      case MOV => MoveEffect(regs, i)
      case MOVZX => MoveEffect(regs, i)
      case MOVSXD => MoveEffect(regs, i)
      case MOVSX => MoveEffect(regs, i)
      case XOR => if i.src == i.dst then Write(Immediate(0)) else Keep
      case AND => if i.src == ImmArg(3) then Write(ZeroExtend(GetX86(regs, dst), 2)) else Keep
      case LEA => if i.src.MemArg? then Write(MemAddress(regs, i.src.mem)) else Keep
      case NOP => Keep
      case UNHANDLED => Keep
  }

  function MoveEffect(regs: seq<Expr>, i: Inst): Effect
    requires |regs| == REGISTERS
  {
    match i.src
    case ImmArg(v) => Write(Immediate(v))
    case RegArg(r) => Write(GetX86(regs, r))
    case MemArg(m) => Write(LoadedValue(regs, i, m))
    case OtherArg => Keep
  }

  datatype Symbolic = Symbolic(regs: seq<Expr>, pc: nat)

  function Advanced(s: Symbolic, codeAddress: Expr, i: Inst): (regs: seq<Expr>)
    requires |s.regs| == REGISTERS
    ensures |regs| == REGISTERS
  {
    SetX86(s.regs, Rip, Added([codeAddress, Immediate(Wrap(s.pc + i.len))]))
  }

  function Applied(regs: seq<Expr>, dst: Arg, effect: Effect): (r: seq<Expr>)
    requires |regs| == REGISTERS
    ensures |r| == REGISTERS
  {
    if effect.Write? && dst.RegArg? then SetX86(regs, dst.reg, effect.v) else regs
  }

  /** The instruction pointer moves first, then the destination is written. */
  function SymStep(s: Symbolic, codeAddress: Expr, i: Inst): (r: Symbolic)
    requires |s.regs| == REGISTERS
    ensures |r.regs| == REGISTERS
  {
    var regs := Advanced(s, codeAddress, i);
    Symbolic(Applied(regs, i.dst, StepEffect(regs, i)), s.pc + i.len)
  }

  function SymRun(s: Symbolic, codeAddress: Expr, trace: seq<Inst>): (r: Symbolic)
    requires |s.regs| == REGISTERS
    ensures |r.regs| == REGISTERS
  {
    if trace == [] then s
    else SymStep(SymRun(s, codeAddress, trace[..|trace| - 1]), codeAddress, trace[|trace| - 1])
  }

  function ExecRun(m: Machine, trace: seq<Inst>): (r: Machine)
    requires |m.regs| == REGISTERS
    ensures |r.regs| == REGISTERS && r.mem == m.mem
  {
    if trace == [] then m
    else Exec(ExecRun(m, trace[..|trace| - 1]), trace[|trace| - 1])
  }

  // ------------------------------------------------------------------ simulation

  /** The symbolic general purpose registers denote the machine's; both agree on the code position. */
  ghost predicate Simulates(s: Symbolic, codeAddress: Expr, m: Machine, env: Env) {
    && |s.regs| == REGISTERS && Valid(m) && env.mem == m.mem
    && (forall r :: 1 <= r <= 16 ==> Eval(s.regs[r], env) == m.regs[r])
    && m.regs[RIP_INDEX] == Wrap(Eval(codeAddress, env) + s.pc)
  }

  /** All registers, the instruction pointer included. */
  ghost predicate Denotes(regs: seq<Expr>, concrete: seq<Word>, env: Env) {
    && |regs| == REGISTERS && |concrete| == REGISTERS
    && forall r :: 1 <= r < REGISTERS ==> Eval(regs[r], env) == concrete[r]
  }

  lemma GetEval(regs: seq<Expr>, concrete: seq<Word>, r: Reg, env: Env)
    requires Denotes(regs, concrete, env) && Mapped(r)
    ensures Eval(GetX86(regs, r), env) == Read(concrete, r)
  {
    ZeroExtendEval(regs[Index(r)], Width(r), env);
  }

  lemma SetEval(regs: seq<Expr>, concrete: seq<Word>, r: Reg, v: Expr, w: Word, env: Env)
    requires Denotes(regs, concrete, env) && Mapped(r) && Width(r) >= 32
    requires ZeroExtended(Eval(v, env), Width(r)) == ZeroExtended(w, Width(r))
    ensures Denotes(SetX86(regs, r, v), Written(concrete, r, w), env)
  {
    ZeroExtendEval(v, Width(r), env);
  }

  lemma PairSum(a: Expr, b: Expr, env: Env)
    ensures EvalSum([a, b], env) == Plus(Eval(a, env), Eval(b, env))
  {
    assert [a, b] == [a] + [b];
    EvalSumConcat([a], [b], env);
    EvalSingleton(a, env);
    EvalSingleton(b, env);
  }

  lemma {:induction false} DisplacementEval(disp: Word, env: Env)
    ensures Eval(ImmFromDisp(disp), env) == Displacement(disp)
  {
    if disp < 0x1_0000_0000 {
      SignOf32(disp);
    }
  }

  lemma {:induction false} SignOf32(d: Word)
    requires d < 0x1_0000_0000
    ensures SignExtended(d, 32) == if d < 0x8000_0000 then d else Wrap(d - 0x1_0000_0000)
  {
    Pow2Word();
    assert Pow2(31) == 0x8000_0000;
    assert d % Pow2(32) == d;
    assert ZeroExtended(d, 32) == d;
  }

  /** A 32-bit displacement is recovered from either encoding the decoder may produce. */
  lemma DisplacementRecovered(d: int, env: Env)
    requires -0x8000_0000 <= d < 0x8000_0000
    ensures Eval(ImmFromDisp(Wrap(d)), env) == Wrap(d)
    ensures Eval(ImmFromDisp(d % 0x1_0000_0000), env) == Wrap(d)
  {
    if d < 0 {
      DivModUnique(d, WORD, -1, d + WORD);
      DivModUnique(d, 0x1_0000_0000, -1, d + 0x1_0000_0000);
    }
  }

  /** An absolute 64-bit address passes through exactly when it is outside [2^31, 2^32). */
  lemma AbsoluteAddress(a: Word)
    ensures ImmFromDisp(a) == Immediate(a) <==> !(0x8000_0000 <= a < 0x1_0000_0000)
  {
    if 0x8000_0000 <= a < 0x1_0000_0000 {
      DivModUnique(a - 0x1_0000_0000, WORD, -1, a - 0x1_0000_0000 + WORD);
    }
  }

  /** An absolute operand is the decoded displacement alone, with its sign recovered. */
  lemma AbsoluteEval(regs: seq<Expr>, m: Mem, env: Env)
    requires |regs| == REGISTERS && AddressForm(m) && m.absolute
    ensures Eval(MemAddress(regs, m), env) == Displacement(m.disp)
    ensures Displacement(m.disp) == m.disp <==> !Misread(m)
  {
    AddedEval(MemTerms(regs, m), env);
    DisplacementEval(m.disp, env);
    AbsoluteAddress(m.disp);
    if m.disp != 0 {
      assert MemTerms(regs, m) == [ImmFromDisp(m.disp)];
      EvalSingleton(ImmFromDisp(m.disp), env);
    } else {
      assert MemTerms(regs, m) == [];
    }
  }

  lemma AddressEval(regs: seq<Expr>, concrete: seq<Word>, m: Mem, env: Env)
    requires Denotes(regs, concrete, env) && AddressForm(m) && !Misread(m)
    ensures Eval(MemAddress(regs, m), env) == EffectiveAddress(concrete, m)
  {
    if m.absolute {
      AbsoluteEval(regs, m, env);
    } else {
      RelativeEval(regs, concrete, m, env);
    }
  }

  lemma RelativeEval(regs: seq<Expr>, concrete: seq<Word>, m: Mem, env: Env)
    requires Denotes(regs, concrete, env) && AddressForm(m) && !m.absolute
    ensures Eval(MemAddress(regs, m), env) == EffectiveAddress(concrete, m)
  {
    var disp := if m.disp != 0 then [ImmFromDisp(m.disp)] else [];
    var base := if !m.base.NoReg? then [GetX86(regs, m.base)] else [];
    var index := if !m.index.NoReg? then [Multiplied([GetX86(regs, m.index), Immediate(m.scale)])] else [];
    assert MemTerms(regs, m) == disp + base + index;
    AddedEval(MemTerms(regs, m), env);
    EvalSumConcat(disp + base, index, env);
    EvalSumConcat(disp, base, env);
    assert EvalSum(disp, env) == Displacement(m.disp) by {
      DisplacementEval(m.disp, env);
      EvalSingleton(ImmFromDisp(m.disp), env);
    }
    if !m.base.NoReg? {
      GetEval(regs, concrete, m.base, env);
      EvalSingleton(base[0], env);
    }
    if !m.index.NoReg? {
      GetEval(regs, concrete, m.index, env);
      MultipliedEval([GetX86(regs, m.index), Immediate(m.scale)], env);
      PairProduct(GetX86(regs, m.index), Immediate(m.scale), env);
      EvalSingleton(index[0], env);
    }
  }

  lemma RipAddressEval(regs: seq<Expr>, concrete: seq<Word>, m: Mem, env: Env)
    requires Denotes(regs, concrete, env) && AddressForm(m) && m.base.Rip?
    ensures Eval(Added([GetX86(regs, Rip), ImmFromDisp(m.disp)]), env) == EffectiveAddress(concrete, m)
  {
    AddedEval([GetX86(regs, Rip), ImmFromDisp(m.disp)], env);
    PairSum(GetX86(regs, Rip), ImmFromDisp(m.disp), env);
    GetEval(regs, concrete, Rip, env);
    DisplacementEval(m.disp, env);
  }

  /** Memory loaded by a move, zero extended, is what the processor loads. */
  lemma LoadEval(regs: seq<Expr>, concrete: seq<Word>, i: Inst, m: Mem, env: Env)
    requires Denotes(regs, concrete, env) && AddressForm(m) && !Misread(m) && Loads(env.mem)
    requires i.memBytes <= 8 && 8 * i.memBytes <= i.dataSize && i.op != MOVSX && i.op != MOVSXD
    ensures Eval(LoadedValue(regs, i, m), env) == env.mem(m.segment, EffectiveAddress(concrete, m), i.memBytes)
  {
    LoadAddressEval(regs, concrete, m, env);
    ZeroExtendEval(Memory(m.segment, LoadAddress(regs, m), i.memBytes), i.dataSize, env);
    NarrowStays(env.mem(m.segment, EffectiveAddress(concrete, m), i.memBytes), 8 * i.memBytes, i.dataSize);
  }

  lemma NarrowStays(w: Word, narrow: nat, wide: nat)
    requires w < Pow2(narrow) && narrow <= wide
    ensures ZeroExtended(w, wide) == w
  {
    if wide < 64 {
      Pow2Monotone(narrow, wide);
      DivModUnique(w, Pow2(wide), 0, w);
    }
  }

  lemma {:induction false} NegationEval(x: Expr, env: Env)
    ensures Eval(Multiplied([Immediate(ALL_ONES), x]), env) == Minus(0, Eval(x, env))
  {
    MultipliedEval([Immediate(ALL_ONES), x], env);
    PairProduct(Immediate(ALL_ONES), x, env);
    TimesAllOnes(Eval(x, env));
  }

  lemma TimesAllOnes(v: Word)
    ensures Times(ALL_ONES, v) == Minus(0, v)
  {
    assert ALL_ONES * v == (0 - v) + WORD * v;
    ModShift(0 - v, v, WORD);
    PlusWrap(0, v);
  }

  /** The right operand of an addition, before it is negated for a subtraction. */
  function RightOperand(regs: seq<Expr>, i: Inst): Expr
    requires |regs| == REGISTERS && !i.src.OtherArg?
  {
    match i.src
    case ImmArg(v) => Immediate(v)
    case RegArg(r) => GetX86(regs, r)
    case MemArg(m) => Memory(m.segment, MemAddress(regs, m), i.memBytes)
  }

  lemma RightOperandEval(regs: seq<Expr>, m: Machine, i: Inst, env: Env)
    requires Denotes(regs, m.regs, env) && env.mem == m.mem && ReadableSource(i)
    ensures Eval(RightOperand(regs, i), env) == Operand(m.regs, m.mem, i)
  {
    match i.src {
      case RegArg(r) => GetEval(regs, m.regs, r, env);
      case MemArg(mem) => AddressEval(regs, m.regs, mem, env);
      case ImmArg(_) =>
    }
  }

  lemma AddEffectEval(regs: seq<Expr>, m: Machine, i: Inst, env: Env)
    requires Denotes(regs, m.regs, env) && env.mem == m.mem && Handled(i) && (i.op == ADD || i.op == SUB)
    ensures AddEffect(regs, i, i.dst.reg).Write?
    ensures Eval(AddEffect(regs, i, i.dst.reg).v, env) == Result(m.regs, m.mem, i, i.dst.reg)
  {
    var dst, right := i.dst.reg, RightOperand(regs, i);
    GetEval(regs, m.regs, dst, env);
    RightOperandEval(regs, m, i, env);
    if i.op == SUB {
      DifferenceEval(GetX86(regs, dst), right, env);
    } else {
      SumEval(GetX86(regs, dst), right, env);
    }
  }

  lemma SumEval(a: Expr, b: Expr, env: Env)
    ensures Eval(Added([a, b]), env) == Plus(Eval(a, env), Eval(b, env))
  {
    AddedEval([a, b], env);
    PairSum(a, b, env);
  }

  /** Adding -1 * b subtracts b modulo 2^64. */
  lemma DifferenceEval(a: Expr, b: Expr, env: Env)
    ensures Eval(Added([a, Multiplied([Immediate(ALL_ONES), b])]), env) == Minus(Eval(a, env), Eval(b, env))
  {
    SumEval(a, Multiplied([Immediate(ALL_ONES), b]), env);
    NegationEval(b, env);
  }

  lemma MoveEffectEval(regs: seq<Expr>, m: Machine, i: Inst, env: Env)
    requires Denotes(regs, m.regs, env) && env.mem == m.mem && Loads(m.mem)
    requires Handled(i) && (i.op == MOV || i.op == MOVZX)
    ensures MoveEffect(regs, i).Write?
    ensures Eval(MoveEffect(regs, i).v, env) == Result(m.regs, m.mem, i, i.dst.reg)
  {
    match i.src {
      case RegArg(r) => GetEval(regs, m.regs, r, env);
      case MemArg(mem) => LoadEval(regs, m.regs, i, mem, env);
      case ImmArg(_) =>
    }
  }

  lemma ShiftEval(regs: seq<Expr>, concrete: seq<Word>, i: Inst, dst: Reg, count: Word, env: Env)
    requires Denotes(regs, concrete, env) && Mapped(dst) && count < Width(dst)
    ensures Eval(Multiplied([GetX86(regs, dst), Immediate(ShiftFactor(i, count))]), env)
         == Wrap(Read(concrete, dst) * Pow2(count % Width(dst)))
  {
    var d, f := GetX86(regs, dst), Immediate(ShiftFactor(i, count));
    MultipliedEval([d, f], env);
    PairProduct(d, f, env);
    GetEval(regs, concrete, dst, env);
    DivModUnique(count, Width(dst), 0, count);
    WrapTimes(Read(concrete, dst), Pow2(count));
  }

  lemma MaskEval(x: Expr, env: Env)
    ensures Eval(ZeroExtend(x, 2), env) == Wrap(BitAnd(Eval(x, env), 3))
  {
    ZeroExtendEval(x, 2, env);
    assert Pow2(2) == 4;
    BitAndThree(Eval(x, env));
    DivModUnique(Eval(x, env) % 4, WORD, 0, Eval(x, env) % 4);
  }

  /** What the handled instruction writes denotes what the processor writes. */
  lemma EffectEval(regs: seq<Expr>, m: Machine, i: Inst, env: Env)
    requires Denotes(regs, m.regs, env) && env.mem == m.mem && Loads(m.mem)
    requires Handled(i) && i.op != NOP
    ensures StepEffect(regs, i).Write?
    ensures Eval(StepEffect(regs, i).v, env) == Result(m.regs, m.mem, i, i.dst.reg)
  {
    var dst := i.dst.reg;
    if i.op == ADD || i.op == SUB {
      AddEffectEval(regs, m, i, env);
    } else if i.op == MOV || i.op == MOVZX {
      MoveEffectEval(regs, m, i, env);
    } else if i.op == SHL {
      ShiftEval(regs, m.regs, i, dst, i.src.value, env);
    } else if i.op == XOR {
      BitXorSelf(Read(m.regs, dst));
    } else if i.op == AND {
      GetEval(regs, m.regs, dst, env);
      MaskEval(GetX86(regs, dst), env);
    } else {
      AddressEval(regs, m.regs, i.src.mem, env);
    }
  }

  lemma {:induction false} RipStep(s: Symbolic, codeAddress: Expr, m: Machine, i: Inst, env: Env)
    requires Simulates(s, codeAddress, m, env)
    ensures Denotes(Advanced(s, codeAddress, i), AdvancedMachine(m, i).regs, env)
    ensures AdvancedMachine(m, i).regs[RIP_INDEX] == Wrap(Eval(codeAddress, env) + (s.pc + i.len))
  {
    RipAdvances(s, codeAddress, m.regs, i.len, m.regs[RIP_INDEX], Wrap(m.regs[RIP_INDEX] + i.len), env);
  }

  lemma {:induction false} RipAdvances(s: Symbolic, codeAddress: Expr, concrete: seq<Word>, len: nat, was: Word, v: Word, env: Env)
    requires |s.regs| == |concrete| == REGISTERS && was == Wrap(Eval(codeAddress, env) + s.pc) && v == Wrap(was + len)
    requires forall r :: 1 <= r <= 16 ==> Eval(s.regs[r], env) == concrete[r]
    ensures v == Wrap(Eval(codeAddress, env) + (s.pc + len))
    ensures Denotes(SetX86(s.regs, Rip, Added([codeAddress, Immediate(Wrap(s.pc + len))])), concrete[RIP_INDEX := v], env)
  {
    RipMoves(codeAddress, s.pc, len, was, env);
    RipWritten(s.regs, concrete, Added([codeAddress, Immediate(Wrap(s.pc + len))]), v, env);
  }

  lemma RipWritten(regs: seq<Expr>, concrete: seq<Word>, rip: Expr, v: Word, env: Env)
    requires |regs| == |concrete| == REGISTERS && Eval(rip, env) == v
    requires forall r :: 1 <= r <= 16 ==> Eval(regs[r], env) == concrete[r]
    ensures Denotes(SetX86(regs, Rip, rip), concrete[RIP_INDEX := v], env)
  {
  }

  lemma {:induction false} RipMoves(codeAddress: Expr, pc: nat, len: nat, was: Word, env: Env)
    requires was == Wrap(Eval(codeAddress, env) + pc)
    ensures Eval(Added([codeAddress, Immediate(Wrap(pc + len))]), env) == Wrap(Eval(codeAddress, env) + (pc + len))
    ensures Wrap(was + len) == Wrap(Eval(codeAddress, env) + (pc + len))
  {
    var a := Eval(codeAddress, env);
    SumEval(codeAddress, Immediate(Wrap(pc + len)), env);
    PlusWrap(a, Wrap(pc + len));
    WrapPlus(a, pc + len);
    WrapPlus(a + pc, len);
  }

  /** Writing the same value on both sides keeps the agreement. */
  lemma AppliedDenotes(regs: seq<Expr>, m: Machine, i: Inst, effect: Effect, env: Env)
    requires Denotes(regs, m.regs, env)
    requires i.op != NOP ==>
      && i.dst.RegArg? && Mapped(i.dst.reg) && Width(i.dst.reg) >= 32 && effect.Write?
      && Eval(effect.v, env) == Result(m.regs, m.mem, i, i.dst.reg)
    requires i.op == NOP ==> effect.Keep?
    ensures Denotes(Applied(regs, i.dst, effect), ExecAt(m, i).regs, env)
  {
    if i.op != NOP {
      SetEval(regs, m.regs, i.dst.reg, effect.v, Result(m.regs, m.mem, i, i.dst.reg), env);
    }
  }

  lemma RipUntouched(m: Machine, i: Inst)
    requires |m.regs| == REGISTERS && Handled(i)
    ensures ExecAt(m, i).regs[RIP_INDEX] == m.regs[RIP_INDEX]
  {
  }

  /** One handled instruction keeps the simulation, the instruction pointer included. */
  lemma {:induction false} StepSimulates(s: Symbolic, codeAddress: Expr, m: Machine, i: Inst, env: Env)
    requires Simulates(s, codeAddress, m, env) && Handled(i)
    ensures Simulates(SymStep(s, codeAddress, i), codeAddress, Exec(m, i), env)
    ensures Denotes(SymStep(s, codeAddress, i).regs, Exec(m, i).regs, env)
  {
    StepDenotes(s, codeAddress, m, i, env);
  }

  lemma {:induction false} StepDenotes(s: Symbolic, codeAddress: Expr, m: Machine, i: Inst, env: Env)
    requires Simulates(s, codeAddress, m, env) && Handled(i)
    ensures Denotes(SymStep(s, codeAddress, i).regs, Exec(m, i).regs, env)
    ensures Exec(m, i).regs[RIP_INDEX] == Wrap(Eval(codeAddress, env) + (s.pc + i.len))
  {
    RipStep(s, codeAddress, m, i, env);
    RipUntouched(AdvancedMachine(m, i), i);
    var regs, m' := Advanced(s, codeAddress, i), AdvancedMachine(m, i);
    if i.op != NOP {
      EffectEval(regs, m', i, env);
    }
    AppliedDenotes(regs, m', i, StepEffect(regs, i), env);
  }

  /** Over any straight-line run of handled instructions the symbolic registers denote the machine's. */
  lemma {:induction false} RunSimulates(s: Symbolic, codeAddress: Expr, m: Machine, trace: seq<Inst>, env: Env)
    requires Simulates(s, codeAddress, m, env)
    requires forall k :: 0 <= k < |trace| ==> Handled(trace[k])
    ensures Simulates(SymRun(s, codeAddress, trace), codeAddress, ExecRun(m, trace), env)
    ensures trace != [] ==> Denotes(SymRun(s, codeAddress, trace).regs, ExecRun(m, trace).regs, env)
  {
    if trace != [] {
      var last := |trace| - 1;
      RunSimulates(s, codeAddress, m, trace[..last], env);
      StepSimulates(SymRun(s, codeAddress, trace[..last]), codeAddress, ExecRun(m, trace[..last]), trace[last], env);
    }
  }

  /** A fresh interpreter names its registers; the code address is one more name. */
  const FRESH: Symbolic := Symbolic(seq(REGISTERS, i requires 0 <= i < REGISTERS => Named(i)), 0)
  const CODE_ADDRESS: Expr := Named(REGISTERS)

  function InitialEnv(m: Machine): Env
    requires |m.regs| == REGISTERS
  {
    Env((id: nat) => if id < |m.regs| then m.regs[id] else m.regs[RIP_INDEX], map[], m.mem)
  }

  lemma FreshSimulates(m: Machine)
    requires Valid(m)
    ensures Simulates(FRESH, CODE_ADDRESS, m, InitialEnv(m)) && Denotes(FRESH.regs, m.regs, InitialEnv(m))
  {
    DivModUnique(m.regs[RIP_INDEX], WORD, 0, m.regs[RIP_INDEX]);
  }

  /** From any machine state, running handled code symbolically computes the machine's registers, all of them. */
  lemma FreshRunSimulates(m: Machine, trace: seq<Inst>)
    requires Valid(m)
    requires forall k :: 0 <= k < |trace| ==> Handled(trace[k])
    ensures Denotes(SymRun(FRESH, CODE_ADDRESS, trace).regs, ExecRun(m, trace).regs, InitialEnv(m))
  {
    FreshSimulates(m);
    RunSimulates(FRESH, CODE_ADDRESS, m, trace, InitialEnv(m));
  }

  // ------------------------------------------------------------------ every instruction, executed or not

  /** What all slots denote, that of the unmapped registers included. */
  ghost predicate Means(regs: seq<Expr>, slots: seq<Word>, env: Env) {
    |regs| == 18 && |slots| == 18 && forall r :: 0 <= r < 18 ==> Eval(regs[r], env) == slots[r]
  }

  lemma {:induction false} LowMeans(regs: seq<Expr>, slots: seq<Word>, r: Reg, env: Env)
    requires Means(regs, slots, env)
    ensures Eval(GetX86(regs, r), env) == Low(slots, r)
  {
    assert Index(r) == Slot(r) && Width(r) == Bits(r);
    ZeroExtendEval(regs[Index(r)], Width(r), env);
  }

  lemma {:induction false} AddressMeans(regs: seq<Expr>, slots: seq<Word>, m: Mem, env: Env)
    requires Means(regs, slots, env)
    ensures Eval(MemAddress(regs, m), env) == MeantAddress(slots, m, false)
  {
    var disp := if m.disp != 0 then [ImmFromDisp(m.disp)] else [];
    var base := if !m.base.NoReg? then [GetX86(regs, m.base)] else [];
    var index := if !m.index.NoReg? then [Multiplied([GetX86(regs, m.index), Immediate(m.scale)])] else [];
    assert MemTerms(regs, m) == disp + base + index;
    AddedEval(MemTerms(regs, m), env);
    EvalSumConcat(disp + base, index, env);
    EvalSumConcat(disp, base, env);
    DispMeans(m.disp, env);
    if !m.base.NoReg? {
      LowMeans(regs, slots, m.base, env);
      EvalSingleton(base[0], env);
    }
    if !m.index.NoReg? {
      IndexMeans(regs, slots, m, env);
      EvalSingleton(index[0], env);
    }
  }

  lemma {:induction false} DispMeans(disp: Word, env: Env)
    ensures EvalSum(if disp != 0 then [ImmFromDisp(disp)] else [], env) == Displacement(disp)
  {
    DisplacementEval(disp, env);
    EvalSingleton(ImmFromDisp(disp), env);
  }

  lemma {:induction false} IndexMeans(regs: seq<Expr>, slots: seq<Word>, m: Mem, env: Env)
    requires Means(regs, slots, env)
    ensures Eval(Multiplied([GetX86(regs, m.index), Immediate(m.scale)]), env) == Times(Low(slots, m.index), m.scale)
  {
    LowMeans(regs, slots, m.index, env);
    MultipliedEval([GetX86(regs, m.index), Immediate(m.scale)], env);
    PairProduct(GetX86(regs, m.index), Immediate(m.scale), env);
  }

  lemma {:induction false} LoadAddressMeans(regs: seq<Expr>, slots: seq<Word>, m: Mem, env: Env)
    requires Means(regs, slots, env)
    ensures Eval(LoadAddress(regs, m), env) == MeantAddress(slots, m, true)
  {
    if m.base.Rip? {
      SumEval(GetX86(regs, Rip), ImmFromDisp(m.disp), env);
      LowMeans(regs, slots, Rip, env);
      DisplacementEval(m.disp, env);
    } else {
      AddressMeans(regs, slots, m, env);
    }
  }

  lemma {:induction false} SourceMeans(regs: seq<Expr>, slots: seq<Word>, i: Inst, env: Env)
    requires Means(regs, slots, env) && !i.src.OtherArg?
    ensures Eval(RightOperand(regs, i), env) == MeantSource(slots, env.mem, i)
  {
    match i.src {
      case RegArg(r) => LowMeans(regs, slots, r, env);
      case MemArg(m) => AddressMeans(regs, slots, m, env);
      case ImmArg(_) =>
    }
  }

  lemma {:induction false} AddMeans(regs: seq<Expr>, slots: seq<Word>, i: Inst, env: Env)
    requires Means(regs, slots, env) && Executed(i) && (i.op == ADD || i.op == SUB)
    ensures StepEffect(regs, i).Write? && Eval(StepEffect(regs, i).v, env) == Meant(slots, env.mem, i)
  {
    SourceMeans(regs, slots, i, env);
    LowMeans(regs, slots, i.dst.reg, env);
    if i.op == SUB {
      DifferenceEval(GetX86(regs, i.dst.reg), RightOperand(regs, i), env);
    } else {
      SumEval(GetX86(regs, i.dst.reg), RightOperand(regs, i), env);
    }
  }

  lemma {:induction false} ShiftMeans(regs: seq<Expr>, slots: seq<Word>, i: Inst, env: Env)
    requires Means(regs, slots, env) && Executed(i) && i.op == SHL
    ensures StepEffect(regs, i).Write? && Eval(StepEffect(regs, i).v, env) == Meant(slots, env.mem, i)
  {
    var d, f := GetX86(regs, i.dst.reg), Immediate(ShiftFactor(i, i.src.value));
    LowMeans(regs, slots, i.dst.reg, env);
    MultipliedEval([d, f], env);
    PairProduct(d, f, env);
  }

  lemma {:induction false} MoveMeans(regs: seq<Expr>, slots: seq<Word>, i: Inst, env: Env)
    requires Means(regs, slots, env) && Executed(i) && (i.op == MOV || i.op == MOVZX || i.op == MOVSX || i.op == MOVSXD)
    ensures MoveEffect(regs, i).Write? && Eval(MoveEffect(regs, i).v, env) == Meant(slots, env.mem, i)
  {
    match i.src {
      case RegArg(r) => LowMeans(regs, slots, r, env);
      case MemArg(m) => LoadMeans(regs, slots, i, m, env);
      case ImmArg(_) =>
    }
  }

  /** A loaded value, extended as the move says. */
  function Extended(v: Word, i: Inst): Word {
    if i.op == MOVSX || i.op == MOVSXD then SignExtended(v, i.dataSize) else ZeroExtended(v, i.dataSize)
  }

  lemma {:induction false} LoadMeans(regs: seq<Expr>, slots: seq<Word>, i: Inst, m: Mem, env: Env)
    requires Means(regs, slots, env)
    ensures Eval(LoadedValue(regs, i, m), env) == Extended(env.mem(m.segment, MeantAddress(slots, m, true), i.memBytes), i)
  {
    LoadAddressMeans(regs, slots, m, env);
    ZeroExtendEval(Memory(m.segment, LoadAddress(regs, m), i.memBytes), i.dataSize, env);
  }

  lemma {:induction false} MaskMeans(regs: seq<Expr>, slots: seq<Word>, r: Reg, env: Env)
    requires Means(regs, slots, env)
    ensures Eval(ZeroExtend(GetX86(regs, r), 2), env) == Low(slots, r) % 4
  {
    LowMeans(regs, slots, r, env);
    ZeroExtendEval(GetX86(regs, r), 2, env);
    assert Pow2(2) == 4;
  }

  lemma {:induction false} EffectMeans(regs: seq<Expr>, slots: seq<Word>, i: Inst, env: Env)
    requires Means(regs, slots, env) && Executed(i)
    ensures StepEffect(regs, i).Write? && Eval(StepEffect(regs, i).v, env) == Meant(slots, env.mem, i)
  {
    if i.op == ADD || i.op == SUB {
      AddMeans(regs, slots, i, env);
    } else if i.op == SHL {
      ShiftMeans(regs, slots, i, env);
    } else if i.op == AND {
      MaskMeans(regs, slots, i.dst.reg, env);
    } else if i.op == LEA {
      AddressMeans(regs, slots, i.src.mem, env);
    } else if i.op != XOR {
      MoveMeans(regs, slots, i, env);
    }
  }

  lemma {:induction false} NotExecuted(regs: seq<Expr>, i: Inst)
    requires |regs| == 18 && !Executed(i)
    ensures Applied(regs, i.dst, StepEffect(regs, i)) == regs
  {
  }

  /** The slots after RIP has moved behind the instruction. */
  function Moved(slots: seq<Word>, rip: Word): seq<Word>
    requires |slots| == 18
  {
    slots[17 := rip]
  }

  /**
   For every instruction and every state: RIP moves behind the instruction; one that is not executed
   leaves every other register as it is, expression by expression; an executed one changes its
   destination alone, which then denotes the meant value cut to its width.
   */
  lemma {:induction false} EveryStep(s: Symbolic, codeAddress: Expr, i: Inst, slots: seq<Word>, env: Env)
    requires Means(s.regs, slots, env)
    ensures var t := SymStep(s, codeAddress, i); var rip := Wrap(Eval(codeAddress, env) + (s.pc + i.len));
            && t.pc == s.pc + i.len && |t.regs| == 18
            && (forall r :: 0 <= r <= 16 && !(Executed(i) && Slot(i.dst.reg) == r) ==> t.regs[r] == s.regs[r])
            && (!(Executed(i) && i.dst.reg.Rip?) ==> Eval(t.regs[17], env) == rip)
            && (Executed(i) ==>
                  Eval(t.regs[Slot(i.dst.reg)], env) == ZeroExtended(Meant(Moved(slots, rip), env.mem, i), Bits(i.dst.reg)))
  {
    var rip := Wrap(Eval(codeAddress, env) + (s.pc + i.len));
    var regs := Advanced(s, codeAddress, i);
    AdvancedMeans(s, codeAddress, i, slots, env, rip, regs);
    if Executed(i) {
      ExecutedMeans(regs, Moved(slots, rip), i, env);
    } else {
      NotExecuted(regs, i);
    }
  }

  lemma {:induction false} AdvancedMeans(s: Symbolic, codeAddress: Expr, i: Inst, slots: seq<Word>, env: Env, rip: Word, regs: seq<Expr>)
    requires Means(s.regs, slots, env) && rip == Wrap(Eval(codeAddress, env) + (s.pc + i.len)) && regs == Advanced(s, codeAddress, i)
    ensures Means(regs, Moved(slots, rip), env) && Eval(regs[17], env) == rip
    ensures forall r :: 0 <= r <= 16 ==> regs[r] == s.regs[r]
  {
    RipMeans(codeAddress, s.pc + i.len, env);
  }

  lemma {:induction false} ExecutedMeans(regs: seq<Expr>, slots: seq<Word>, i: Inst, env: Env)
    requires Means(regs, slots, env) && Executed(i)
    ensures var t := Applied(regs, i.dst, StepEffect(regs, i)); var d := Slot(i.dst.reg);
            && |t| == 18 && Eval(t[d], env) == ZeroExtended(Meant(slots, env.mem, i), Bits(i.dst.reg))
            && forall k :: 0 <= k < 18 && k != d ==> t[k] == regs[k]
  {
    EffectMeans(regs, slots, i, env);
    DestinationMeans(regs, i.dst.reg, StepEffect(regs, i).v, env);
  }

  lemma {:induction false} DestinationMeans(regs: seq<Expr>, r: Reg, v: Expr, env: Env)
    requires |regs| == 18
    ensures var t := SetX86(regs, r, v);
            |t| == 18 && Eval(t[Slot(r)], env) == ZeroExtended(Eval(v, env), Bits(r)) && forall k :: 0 <= k < 18 && k != Slot(r) ==> t[k] == regs[k]
  {
    assert Index(r) == Slot(r) && Width(r) == Bits(r);
    ZeroExtendEval(v, Width(r), env);
  }

  lemma {:induction false} RipMeans(codeAddress: Expr, n: nat, env: Env)
    ensures Eval(Added([codeAddress, Immediate(Wrap(n))]), env) == Wrap(Eval(codeAddress, env) + n)
  {
    SumEval(codeAddress, Immediate(Wrap(n)), env);
    PlusWrap(Eval(codeAddress, env), Wrap(n));
    WrapPlus(Eval(codeAddress, env), n);
  }

  // ------------------------------------------------------------------ where the simulation stops

  lemma LoadAddressEval(regs: seq<Expr>, concrete: seq<Word>, m: Mem, env: Env)
    requires Denotes(regs, concrete, env) && AddressForm(m) && !Misread(m)
    ensures Eval(LoadAddress(regs, m), env) == EffectiveAddress(concrete, m)
  {
    if m.base.Rip? {
      RipAddressEval(regs, concrete, m, env);
    } else {
      AddressEval(regs, concrete, m, env);
    }
  }

  lemma OperandBelow(m: Machine, i: Inst)
    requires Valid(m) && SignExtendingMove(i)
    ensures Operand(m.regs, m.mem, i) < Pow2(SourceBits(i))
  {
  }

  /** Extending the sign from bit d - 1 leaves values below 2^(d-1) alone. */
  lemma SmallUnsigned(b: Word, s: nat, d: nat)
    requires b < Pow2(s) && s < d <= 64
    ensures ZeroExtended(SignExtended(b, d), d) == b
  {
    Pow2Monotone(s, d - 1);
    Pow2Monotone(d - 1, d);
    NarrowStays(b, s, d);
    if d < 64 {
      DivModUnique(b, Pow2(d), 0, b);
    }
  }

  lemma MovsxRegister(regs: seq<Expr>, m: Machine, i: Inst, env: Env)
    requires Denotes(regs, m.regs, env) && env.mem == m.mem && Valid(m) && SignExtendingMove(i) && i.src.RegArg?
    ensures MoveEffect(regs, i).Write? && Eval(MoveEffect(regs, i).v, env) == Operand(m.regs, m.mem, i)
  {
    GetEval(regs, m.regs, i.src.reg, env);
  }

  lemma {:induction false} MovsxMemory(regs: seq<Expr>, m: Machine, i: Inst, env: Env)
    requires Denotes(regs, m.regs, env) && env.mem == m.mem && Valid(m) && SignExtendingMove(i) && !i.src.RegArg?
    ensures MoveEffect(regs, i).Write?
    ensures ZeroExtended(Eval(MoveEffect(regs, i).v, env), Width(i.dst.reg)) == Operand(m.regs, m.mem, i)
  {
    var v := Memory(i.src.mem.segment, LoadAddress(regs, i.src.mem), i.memBytes);
    MovsxLoads(regs, m, i, env);
    OperandBelow(m, i);
    ExtendedSmall(v, SourceBits(i), i.dataSize, env);
  }

  lemma {:induction false} ExtendedSmall(e: Expr, s: nat, d: nat, env: Env)
    requires Eval(e, env) < Pow2(s) && s < d <= 64
    ensures ZeroExtended(Eval(Extend(e, d, true), env), d) == Eval(e, env)
  {
    SmallUnsigned(Eval(e, env), s, d);
  }

  lemma MovsxLoads(regs: seq<Expr>, m: Machine, i: Inst, env: Env)
    requires Denotes(regs, m.regs, env) && env.mem == m.mem && SignExtendingMove(i) && !i.src.RegArg?
    ensures var v := Memory(i.src.mem.segment, LoadAddress(regs, i.src.mem), i.memBytes);
            Eval(v, env) == Operand(m.regs, m.mem, i) && MoveEffect(regs, i) == Write(Extend(v, i.dataSize, true))
  {
    LoadAddressEval(regs, m.regs, i.src.mem, env);
  }

  /** The operand a sign-extending move reads, as the interpreter represents it. */
  lemma {:induction false} MovsxEffectEval(regs: seq<Expr>, m: Machine, i: Inst, env: Env)
    requires Denotes(regs, m.regs, env) && env.mem == m.mem && Valid(m) && SignExtendingMove(i)
    ensures MoveEffect(regs, i).Write?
    ensures ZeroExtended(Eval(MoveEffect(regs, i).v, env), Width(i.dst.reg)) == Operand(m.regs, m.mem, i)
  {
    if i.src.RegArg? {
      MovsxRegister(regs, m, i, env);
      OperandBelow(m, i);
      NarrowStays(Operand(m.regs, m.mem, i), SourceBits(i), Width(i.dst.reg));
    } else {
      MovsxMemory(regs, m, i, env);
    }
  }

  /** Extending the sign of a value below 2^s to at least d > s bits leaves it alone iff its sign bit is clear. */
  lemma SignBitClear(b: Word, s: nat, d: nat)
    requires 0 < s < d <= 64 && b < Pow2(s)
    ensures ZeroExtended(SignExtended(b, s), d) == b <==> b < Pow2(s - 1)
  {
    Pow2Word();
    Pow2Monotone(s, d);
    Pow2Monotone(d, 64);
    DivModUnique(b, Pow2(s), 0, b);
    if b < Pow2(s - 1) {
      NarrowStays(b, s, d);
    } else {
      var x := b - Pow2(s);
      DivModUnique(x, WORD, -1, x + WORD);
      if d < 64 {
        WrapLow(x, d);
        DivModUnique(x, Pow2(d), -1, x + Pow2(d));
      }
    }
  }

  /** Writing a value and a possibly different one agrees iff the low bits written agree. */
  lemma AppliedDenotesIff(regs: seq<Expr>, concrete: seq<Word>, dst: Arg, effect: Effect, w: Word, env: Env)
    requires Denotes(regs, concrete, env) && effect.Write?
    requires dst.RegArg? && dst.reg.Gpr? && Mapped(dst.reg) && Width(dst.reg) >= 32
    ensures Denotes(Applied(regs, dst, effect), Written(concrete, dst.reg, w), env)
            <==> ZeroExtended(Eval(effect.v, env), Width(dst.reg)) == ZeroExtended(w, Width(dst.reg))
  {
    ZeroExtendEval(effect.v, Width(dst.reg), env);
    assert Applied(regs, dst, effect)[dst.reg.num] == SetX86(regs, dst.reg, effect.v)[dst.reg.num];
  }

  lemma MovsxExecuted(regs: seq<Expr>, m: Machine, i: Inst)
    requires |regs| == |m.regs| == REGISTERS && SignExtendingMove(i)
    ensures StepEffect(regs, i) == MoveEffect(regs, i)
    ensures ExecAt(m, i).regs == Written(m.regs, i.dst.reg, SignExtended(Operand(m.regs, m.mem, i), SourceBits(i)))
  {
  }

  /** The same, from registers that already include the advanced instruction pointer. */
  lemma MovsxExact(regs: seq<Expr>, m: Machine, i: Inst, env: Env)
    requires Denotes(regs, m.regs, env) && env.mem == m.mem && Valid(m) && SignExtendingMove(i)
    ensures Denotes(Applied(regs, i.dst, StepEffect(regs, i)), ExecAt(m, i).regs, env)
            <==> Operand(m.regs, m.mem, i) < Pow2(SourceBits(i) - 1)
  {
    MovsxEffectEval(regs, m, i, env);
    OperandBelow(m, i);
    var b := Operand(m.regs, m.mem, i);
    SignBitClear(b, SourceBits(i), Width(i.dst.reg));
    AppliedDenotesIff(regs, m.regs, i.dst, MoveEffect(regs, i), SignExtended(b, SourceBits(i)), env);
    MovsxExecuted(regs, m, i);
  }

  /** Sign-extending moves are only approximated: they are exact iff the source's sign bit is clear. */
  lemma {:induction false} SignExtendingMoveExact(s: Symbolic, codeAddress: Expr, m: Machine, i: Inst, env: Env)
    requires Simulates(s, codeAddress, m, env) && SignExtendingMove(i)
    ensures Denotes(SymStep(s, codeAddress, i).regs, Exec(m, i).regs, env)
            <==> Operand(AdvancedMachine(m, i).regs, m.mem, i) < Pow2(SourceBits(i) - 1)
  {
    RipStep(s, codeAddress, m, i, env);
    MovsxExact(Advanced(s, codeAddress, i), AdvancedMachine(m, i), i, env);
  }

  lemma {:induction false} AbsoluteLoaded(regs: seq<Expr>, i: Inst, env: Env)
    requires |regs| == REGISTERS && AbsoluteLoad(i) && Loads(env.mem)
    ensures StepEffect(regs, i).Write?
    ensures var m := i.src.mem; Eval(StepEffect(regs, i).v, env) == env.mem(m.segment, Displacement(m.disp), i.memBytes)
  {
    var m := i.src.mem;
    AbsoluteEval(regs, m, env);
    var v := Memory(m.segment, LoadAddress(regs, m), i.memBytes);
    assert StepEffect(regs, i) == Write(ZeroExtend(v, i.dataSize));
    ZeroExtendEval(v, i.dataSize, env);
    NarrowStays(Eval(v, env), 8 * i.memBytes, i.dataSize);
  }

  /** After a load from an absolute address the simulation goes on exactly if the address it recovered holds the same. */
  lemma {:induction false} AbsoluteLoadExact(s: Symbolic, codeAddress: Expr, m: Machine, i: Inst, env: Env)
    requires Simulates(s, codeAddress, m, env) && AbsoluteLoad(i)
    ensures var o := i.src.mem;
            Denotes(SymStep(s, codeAddress, i).regs, Exec(m, i).regs, env)
            <==> m.mem(o.segment, Displacement(o.disp), i.memBytes) == m.mem(o.segment, o.disp, i.memBytes)
  {
    RipStep(s, codeAddress, m, i, env);
    var regs, m', o := Advanced(s, codeAddress, i), AdvancedMachine(m, i), i.src.mem;
    AbsoluteLoaded(regs, i, env);
    AbsoluteExecuted(m', i);
    AppliedDenotesIff(regs, m'.regs, i.dst, StepEffect(regs, i), m.mem(o.segment, o.disp, i.memBytes), env);
    LoadStays(m.mem, o.segment, Displacement(o.disp), i.memBytes, Width(i.dst.reg));
    LoadStays(m.mem, o.segment, o.disp, i.memBytes, Width(i.dst.reg));
  }

  lemma AbsoluteExecuted(m: Machine, i: Inst)
    requires |m.regs| == REGISTERS && AbsoluteLoad(i)
    ensures ExecAt(m, i).regs == Written(m.regs, i.dst.reg, m.mem(i.src.mem.segment, i.src.mem.disp, i.memBytes))
  {
  }

  lemma LoadStays(mem: (nat, Word, nat) -> Word, segment: nat, at: Word, n: nat, bits: nat)
    requires Loads(mem) && n <= 8 && 8 * n <= bits
    ensures ZeroExtended(mem(segment, at, n), bits) == mem(segment, at, n)
  {
    NarrowStays(mem(segment, at, n), 8 * n, bits);
  }

  /** From every state the instruction keeps the simulation. */
  ghost predicate AlwaysSimulated(i: Inst) {
    forall s, codeAddress, m, env :: Simulates(s, codeAddress, m, env) ==> Denotes(SymStep(s, codeAddress, i).regs, Exec(m, i).regs, env)
  }

  /** A memory that holds a one at the given address only. */
  function OneAt(a: Word): (nat, Word, nat) -> Word {
    (_, at, n) => if at == a && n > 0 then 1 else 0
  }

  lemma OneAtLoads(a: Word)
    ensures Loads(OneAt(a))
  {
    forall segment: nat, at: Word, n: nat | n <= 8 ensures OneAt(a)(segment, at, n) < Pow2(8 * n) {
      Pow2Monotone(if n > 0 then 1 else 0, 8 * n);
    }
  }

  /** A load from an absolute address is simulated from every state exactly if the address is not misread. */
  lemma AbsoluteLoadIff(i: Inst)
    requires AbsoluteLoad(i)
    ensures AlwaysSimulated(i) <==> !Misread(i.src.mem)
  {
    var o := i.src.mem;
    if !Misread(o) {
      forall s, codeAddress, m, env | Simulates(s, codeAddress, m, env)
        ensures Denotes(SymStep(s, codeAddress, i).regs, Exec(m, i).regs, env) {
        StepSimulates(s, codeAddress, m, i, env);
      }
    } else {
      var m := Machine(seq(REGISTERS, _ => 0), OneAt(o.disp));
      OneAtLoads(o.disp);
      FreshSimulates(m);
      AbsoluteLoadExact(FRESH, CODE_ADDRESS, m, i, InitialEnv(m));
      AbsoluteEval(FRESH.regs, o, InitialEnv(m));
    }
  }

  /** 8- and 16-bit writes clear the upper bits symbolically: exact iff those bits were already clear. */
  lemma {:induction false} NarrowWriteExact(regs: seq<Expr>, concrete: seq<Word>, r: Reg, v: Expr, env: Env)
    requires Denotes(regs, concrete, env) && Mapped(r) && Width(r) < 32
    ensures Denotes(SetX86(regs, r, v), Written(concrete, r, Eval(v, env)), env)
            <==> concrete[Index(r)] < Pow2(Width(r))
  {
    var i, bits := Index(r), Width(r);
    var w, x := concrete[i], ZeroExtended(Eval(v, env), bits);
    ZeroExtendEval(v, bits, env);
    UpperBitsKept(w, x, bits);
    OneWritten(regs, concrete, i, ZeroExtend(v, bits), Plus(w - ZeroExtended(w, bits), x), env);
    NarrowWritten(concrete, r, Eval(v, env));
  }

  lemma NarrowWritten(concrete: seq<Word>, r: Reg, v: Word)
    requires |concrete| == REGISTERS && Mapped(r) && Width(r) < 32
    ensures var w, bits := concrete[Index(r)], Width(r);
            Written(concrete, r, v) == concrete[Index(r) := Plus(w - ZeroExtended(w, bits), ZeroExtended(v, bits))]
  {
  }

  /** Writing one register on both sides agrees iff the values do. */
  lemma OneWritten(regs: seq<Expr>, concrete: seq<Word>, i: nat, e: Expr, w: Word, env: Env)
    requires Denotes(regs, concrete, env) && 1 <= i < REGISTERS
    ensures Denotes(regs[i := e], concrete[i := w], env) <==> Eval(e, env) == w
  {
    assert regs[i := e][i] == e && concrete[i := w][i] == w;
  }

  /** Keeping the upper bits changes nothing iff there are none. */
  lemma UpperBitsKept(w: Word, x: Word, bits: nat)
    requires bits < 64
    ensures Plus(w - ZeroExtended(w, bits), x) == x <==> w < Pow2(bits)
  {
    var low := ZeroExtended(w, bits);
    if w < Pow2(bits) {
      DivModUnique(w, Pow2(bits), 0, w);
    } else {
      assert low < Pow2(bits) <= w;
    }
  }

  /**
   AH, BH, CH and DH are not in the table of registers, so a write to one of them is lost: it is exact
   iff the byte already had its new value.
   */
  lemma HighByteWriteExact(regs: seq<Expr>, concrete: seq<Word>, id: nat, v: Expr, n: nat, byte: nat, env: Env)
    requires Denotes(regs, concrete, env) && 1 <= n <= 16 && byte < 256
    ensures Denotes(SetX86(regs, Unmapped(id), v), HighWritten(concrete, n, byte), env) <==> HighByte(concrete[n]) == byte
  {
    var w := concrete[n];
    var x := w + 256 * (byte - HighByte(w));
    assert Denotes(SetX86(regs, Unmapped(id), v), concrete, env);
    OneWritten(SetX86(regs, Unmapped(id), v), concrete, n, SetX86(regs, Unmapped(id), v)[n], Wrap(x), env);
    MovedByte(w, byte - HighByte(w));
    assert SetX86(regs, Unmapped(id), v)[n := SetX86(regs, Unmapped(id), v)[n]] == SetX86(regs, Unmapped(id), v);
  }

  lemma MovedByte(w: Word, d: int)
    requires -256 < d < 256
    ensures Wrap(w + 256 * d) == w <==> d == 0
  {
    var x := w + 256 * d;
    DivModUnique(x, WORD, if x < 0 then -1 else if x < WORD then 0 else 1, if x < 0 then x + WORD else if x < WORD then x else x - WORD);
  }

  // ------------------------------------------------------------------ states that show it

  /** A machine with one register set. */
  function OneSet(r: nat, v: Word): Machine
    requires r < REGISTERS
  {
    Machine(seq(REGISTERS, i => if i == r then v else 0), (_, _, _) => 0)
  }

  const MOVSX_ECX_AL: Inst := Inst(MOVSX, 3, RegArg(Gpr(2, 32)), RegArg(Gpr(1, 8)), 0, 32, 0)

  lemma MovsxOperand(m: Machine, i: Inst)
    requires m == OneSet(1, 0x80) && i == MOVSX_ECX_AL
    ensures SignExtendingMove(i) && Operand(AdvancedMachine(m, i).regs, m.mem, i) == 0x80 && SourceBits(i) == 8
  {
    var regs := AdvancedMachine(m, i).regs;
    assert regs[1] == 0x80;
    assert Pow2(8) == 256;
  }

  /** MOVSX ECX, AL with 0x80 in AL. */
  lemma SignLost(m: Machine, i: Inst)
    requires m == OneSet(1, 0x80) && i == MOVSX_ECX_AL
    ensures SignExtendingMove(i) && Simulates(FRESH, CODE_ADDRESS, m, InitialEnv(m))
    ensures !Denotes(SymStep(FRESH, CODE_ADDRESS, i).regs, Exec(m, i).regs, InitialEnv(m))
  {
    MovsxOperand(m, i);
    OneSetFresh(1, 0x80);
    SignExtendingMoveExact(FRESH, CODE_ADDRESS, m, i, InitialEnv(m));
    assert Pow2(7) == 128;
  }

  /** A write of zero to AL with 0x100 in RAX. */
  lemma UpperBitsLost()
    ensures var m := OneSet(1, 0x100);
            && Denotes(FRESH.regs, m.regs, InitialEnv(m))
            && !Denotes(SetX86(FRESH.regs, Gpr(1, 8), Immediate(0)), Written(m.regs, Gpr(1, 8), 0), InitialEnv(m))
  {
    var m := OneSet(1, 0x100);
    OneSetFresh(1, 0x100);
    NarrowWriteExact(FRESH.regs, m.regs, Gpr(1, 8), Immediate(0), InitialEnv(m));
    assert Pow2(8) == 256;
  }

  lemma OneSetFresh(r: nat, v: Word)
    requires r < REGISTERS
    ensures var m := OneSet(r, v);
            Simulates(FRESH, CODE_ADDRESS, m, InitialEnv(m)) && Denotes(FRESH.regs, m.regs, InitialEnv(m))
  {
    FreshSimulates(OneSet(r, v));
  }

  // ------------------------------------------------------------------ normal form over whole runs

  lemma GetNormal(regs: seq<Expr>, r: Reg)
    requires |regs| == REGISTERS && AllNormal(regs)
    ensures Normal(GetX86(regs, r))
  {
    ZeroExtendNormal(regs[Index(r)], Width(r));
  }

  lemma MemAddressNormal(regs: seq<Expr>, m: Mem)
    requires |regs| == REGISTERS && AllNormal(regs)
    ensures Normal(MemAddress(regs, m))
  {
    GetNormal(regs, m.base);
    GetNormal(regs, m.index);
    MultipliedNormal([GetX86(regs, m.index), Immediate(m.scale)]);
    AddedNormal(MemTerms(regs, m));
  }

  lemma RightOperandNormal(regs: seq<Expr>, i: Inst)
    requires |regs| == REGISTERS && AllNormal(regs) && !i.src.OtherArg?
    ensures Normal(RightOperand(regs, i))
  {
    if i.src.MemArg? {
      MemAddressNormal(regs, i.src.mem);
    } else if i.src.RegArg? {
      GetNormal(regs, i.src.reg);
    }
  }

  lemma {:induction false} AddEffectNormal(regs: seq<Expr>, i: Inst)
    requires |regs| == REGISTERS && AllNormal(regs) && !i.src.OtherArg? && i.dst.RegArg?
    ensures var right := RightOperand(regs, i); var negated := Multiplied([Immediate(ALL_ONES), right]);
            && Normal(Added([GetX86(regs, i.dst.reg), right])) && Normal(Added([GetX86(regs, i.dst.reg), negated]))
  {
    var right := RightOperand(regs, i);
    var left, negated := GetX86(regs, i.dst.reg), Multiplied([Immediate(ALL_ONES), right]);
    GetNormal(regs, i.dst.reg);
    RightOperandNormal(regs, i);
    MultipliedNormal([Immediate(ALL_ONES), right]);
    AddedNormal([left, right]);
    AddedNormal([left, negated]);
  }

  lemma MoveEffectNormal(regs: seq<Expr>, i: Inst)
    requires |regs| == REGISTERS && AllNormal(regs)
    ensures MoveEffect(regs, i).Write? ==> Normal(MoveEffect(regs, i).v)
  {
    if i.src.MemArg? {
      LoadNormal(regs, i, i.src.mem);
    } else if i.src.RegArg? {
      GetNormal(regs, i.src.reg);
    }
  }

  lemma {:induction false} EffectNormal(regs: seq<Expr>, i: Inst)
    requires |regs| == REGISTERS && AllNormal(regs) && StepEffect(regs, i).Write?
    ensures Normal(StepEffect(regs, i).v)
  {
    GetNormal(regs, i.dst.reg);
    MoveEffectNormal(regs, i);
    if i.op == ADD || i.op == SUB {
      AddEffectNormal(regs, i);
    } else if i.op == SHL {
      MultipliedNormal([GetX86(regs, i.dst.reg), Immediate(ShiftFactor(i, i.src.value))]);
    } else if i.op == AND {
      ZeroExtendNormal(GetX86(regs, i.dst.reg), 2);
    } else if i.op == LEA {
      MemAddressNormal(regs, i.src.mem);
    }
  }

  lemma LoadNormal(regs: seq<Expr>, i: Inst, m: Mem)
    requires |regs| == REGISTERS && AllNormal(regs)
    ensures Normal(LoadedValue(regs, i, m))
  {
    MemAddressNormal(regs, m);
    GetNormal(regs, Rip);
    AddedNormal([GetX86(regs, Rip), ImmFromDisp(m.disp)]);
    ZeroExtendNormal(Memory(m.segment, LoadAddress(regs, m), i.memBytes), i.dataSize);
  }

  lemma AppliedNormal(regs: seq<Expr>, dst: Arg, effect: Effect)
    requires |regs| == REGISTERS && AllNormal(regs)
    requires effect.Write? ==> Normal(effect.v)
    ensures AllNormal(Applied(regs, dst, effect))
  {
    if effect.Write? && dst.RegArg? {
      ZeroExtendNormal(effect.v, Width(dst.reg));
    }
  }

  lemma {:induction false} AdvancedNormal(s: Symbolic, codeAddress: Expr, i: Inst)
    requires |s.regs| == REGISTERS && AllNormal(s.regs) && Normal(codeAddress)
    ensures AllNormal(Advanced(s, codeAddress, i))
  {
    SumNormal(codeAddress, Wrap(s.pc + i.len));
    OneNormal(s.regs, RIP_INDEX, Added([codeAddress, Immediate(Wrap(s.pc + i.len))]));
  }

  lemma {:induction false} SumNormal(e: Expr, w: Word)
    requires Normal(e)
    ensures Normal(Added([e, Immediate(w)]))
  {
    AddedNormal([e, Immediate(w)]);
  }

  lemma {:induction false} OneNormal(regs: seq<Expr>, r: nat, e: Expr)
    requires r < |regs| && AllNormal(regs) && Normal(e)
    ensures AllNormal(regs[r := e])
  {
  }

  lemma {:induction false} StepNormal(s: Symbolic, codeAddress: Expr, i: Inst)
    requires |s.regs| == REGISTERS && AllNormal(s.regs) && Normal(codeAddress)
    ensures AllNormal(SymStep(s, codeAddress, i).regs)
  {
    var regs := Advanced(s, codeAddress, i);
    AdvancedNormal(s, codeAddress, i);
    if StepEffect(regs, i).Write? {
      EffectNormal(regs, i);
    }
    AppliedNormal(regs, i.dst, StepEffect(regs, i));
  }

  /** Whatever code runs, handled or not, the symbolic registers stay in normal form. */
  lemma {:induction false} RunNormal(s: Symbolic, codeAddress: Expr, trace: seq<Inst>)
    requires |s.regs| == REGISTERS && AllNormal(s.regs) && Normal(codeAddress)
    ensures AllNormal(SymRun(s, codeAddress, trace).regs)
  {
    if trace != [] {
      var last := |trace| - 1;
      RunNormal(s, codeAddress, trace[..last]);
      StepNormal(SymRun(s, codeAddress, trace[..last]), codeAddress, trace[last]);
    }
  }

  // ------------------------------------------------------------------ the interpreter object

  datatype Decoded = Undecodable | Decoded(inst: Inst)

  /** The decoder is foreign; an instruction it returns is made of at least one of the given bytes. */
  ghost predicate IsDecoder(decode: seq<Byte> -> Decoded) {
    forall code :: decode(code).Decoded? ==> 0 < decode(code).inst.len <= |code|
  }

  const ENDBR64: seq<Byte> := [0xf3, 0x0f, 0x1e, 0xfa]

  /** The instruction at the front of the code, with endbr64 skipped as a no-op. */
  function Fetch(decode: seq<Byte> -> Decoded, code: seq<Byte>): Decoded {
    if ENDBR64 <= code then Decoded(Inst(NOP, 4, OtherArg, OtherArg, 0, 0, 0)) else decode(code)
  }

  /** Code that begins with the four bytes of endbr64 gives a no-op of four bytes; any other code goes to the decoder. */
  lemma EndbrSkipped(decode: seq<Byte> -> Decoded, code: seq<Byte>)
    ensures if |code| >= 4 && code[0] == 0xf3 && code[1] == 0x0f && code[2] == 0x1e && code[3] == 0xfa
            then Fetch(decode, code).Decoded? && Fetch(decode, code).inst.op == NOP && Fetch(decode, code).inst.len == 4
            else Fetch(decode, code) == decode(code)
  {
  }

  /** `trace` is the straight-line decoding of `code` up to the suffix `rest`. */
  ghost predicate Decodes(decode: seq<Byte> -> Decoded, code: seq<Byte>, trace: seq<Inst>, rest: seq<Byte>) {
    if trace == [] then rest == code
    else exists before :: (
      && Decodes(decode, code, trace[..|trace| - 1], before)
      && before != [] && Fetch(decode, before) == Decoded(trace[|trace| - 1])
      && trace[|trace| - 1].len <= |before| && rest == before[trace[|trace| - 1].len..])
  }

  /** No instruction of the trace ends the loop. */
  ghost predicate Unbroken(breakLoop: Inst -> bool, trace: seq<Inst>) {
    trace == [] || (!breakLoop(trace[|trace| - 1]) && Unbroken(breakLoop, trace[..|trace| - 1]))
  }

  lemma DecodesMore(decode: seq<Byte> -> Decoded, code: seq<Byte>, trace: seq<Inst>, before: seq<Byte>, i: Inst)
    requires Decodes(decode, code, trace, before)
    requires before != [] && Fetch(decode, before) == Decoded(i) && i.len <= |before|
    ensures Decodes(decode, code, trace + [i], before[i.len..])
  {
    assert (trace + [i])[..|trace|] == trace;
  }

  lemma RunMore(s: Symbolic, codeAddress: Expr, trace: seq<Inst>, i: Inst, breakLoop: Inst -> bool)
    requires |s.regs| == REGISTERS && Unbroken(breakLoop, trace)
    ensures SymRun(s, codeAddress, trace + [i]) == SymStep(SymRun(s, codeAddress, trace), codeAddress, i)
    ensures breakLoop(i) ==> Unbroken(breakLoop, (trace + [i])[..|trace + [i]| - 1])
    ensures !breakLoop(i) ==> Unbroken(breakLoop, trace + [i])
  {
    assert (trace + [i])[..|trace|] == trace;
  }

  datatype Outcome = Stepped(inst: Inst) | EndOfCode | DecodeError

  class Interpreter {
    const regs: array<Expr>
    var code: seq<Byte>
    var codeAddress: Expr
    var pc: nat

    ghost predicate Valid()
      reads this
    {
      regs.Length == REGISTERS
    }

    ghost function State(): (s: Symbolic)
      reads this, regs
      requires Valid()
      ensures |s.regs| == REGISTERS
    {
      Symbolic(regs[..], pc)
    }

    constructor (code: seq<Byte>, codeAddress: Expr)
      ensures Valid() && fresh(regs)
      ensures this.code == code && this.codeAddress == codeAddress && pc == 0
      ensures forall r :: 0 <= r < REGISTERS ==> regs[r] == Named(r)
    {
      regs := new Expr[REGISTERS](i => Named(i));
      this.code, this.codeAddress, pc := code, codeAddress, 0;
    }

    method ResetCode(code: seq<Byte>, address: Expr)
      requires Valid()
      modifies this
      ensures Valid() && this.code == code && codeAddress == address && pc == 0
    {
      this.code, codeAddress, pc := code, address, 0;
    }

    method SetReg(r: Reg, v: Expr)
      requires Valid()
      modifies regs
      ensures regs[..] == SetX86(old(regs[..]), r, v)
    {
      regs[Index(r)] := if Width(r) != 64 then ZeroExtend(v, Width(r)) else v;
    }

    method AddressOf(m: Mem) returns (e: Expr)
      requires Valid()
      ensures e == MemAddress(regs[..], m)
    {
      var vs: seq<Expr> := [];
      if m.disp != 0 {
        vs := vs + [ImmFromDisp(m.disp)];
      }
      if !m.base.NoReg? {
        vs := vs + [GetX86(regs[..], m.base)];
      }
      if !m.index.NoReg? {
        var scaled := Multiply([GetX86(regs[..], m.index), Immediate(m.scale)]);
        vs := vs + [scaled];
      }
      assert vs == MemTerms(regs[..], m);
      e := Add(vs);
    }

    /** The value written by ADD and SUB, by the moves, and by everything else. */
    method Effect(i: Inst) returns (effect: Effect)
      requires Valid()
      ensures effect == StepEffect(regs[..], i)
    {
      if !i.dst.RegArg? {
        return Keep;
      }
      var dst := i.dst.reg;
      match i.op {
        case ADD | SUB =>
          var right: Expr;
          match i.src {
            case ImmArg(v) => right := Immediate(v);
            case RegArg(r) => right := GetX86(regs[..], r);
            case MemArg(m) =>
              var at := AddressOf(m);
              right := Memory(m.segment, at, i.memBytes);
            case OtherArg => return Keep;
          }
          if i.op == SUB {
            right := Multiply([Immediate(ALL_ONES), right]);
          }
          var sum := Add([GetX86(regs[..], dst), right]);
          effect := Write(sum);
        case SHL =>
          if !i.src.ImmArg? {
            return Keep;
          }
          var product := Multiply([GetX86(regs[..], dst), Immediate(ShiftFactor(i, i.src.value))]);
          effect := Write(product);
        case MOV | MOVZX | MOVSXD | MOVSX =>
          match i.src {
            case ImmArg(v) => effect := Write(Immediate(v));
            case RegArg(r) => effect := Write(GetX86(regs[..], r));
            case MemArg(m) =>
              var at: Expr;
              if m.base == Rip {
                at := Add([GetX86(regs[..], Rip), ImmFromDisp(m.disp)]);
              } else {
                at := AddressOf(m);
              }
              var v := Memory(m.segment, at, i.memBytes);
              v := if i.op == MOVSXD || i.op == MOVSX then SignExtend(v, i.dataSize) else ZeroExtend(v, i.dataSize);
              effect := Write(v);
            case OtherArg => effect := Keep;
          }
        case XOR =>
          effect := if i.src == i.dst then Write(Immediate(0)) else Keep;
        case AND =>
          effect := if i.src == ImmArg(3) then Write(ZeroExtend(GetX86(regs[..], dst), 2)) else Keep;
        case LEA =>
          if !i.src.MemArg? {
            return Keep;
          }
          var at := AddressOf(i.src.mem);
          effect := Write(at);
        case NOP | UNHANDLED =>
          effect := Keep;
      }
    }

    method Step(decode: seq<Byte> -> Decoded) returns (r: Outcome)
      requires Valid() && IsDecoder(decode)
      modifies this`code, this`pc, regs
      ensures Valid()
      ensures r.EndOfCode? <==> old(code) == []
      ensures r.DecodeError? <==> old(code) != [] && Fetch(decode, old(code)).Undecodable?
      ensures !r.Stepped? ==> State() == old(State()) && code == old(code)
      ensures r.Stepped? ==>
                && Fetch(decode, old(code)) == Decoded(r.inst)
                && 0 < r.inst.len <= |old(code)| && code == old(code)[r.inst.len..]
                && State() == SymStep(old(State()), codeAddress, r.inst)
    {
      if |code| == 0 {
        return EndOfCode;
      }
      var fetched := Fetch(decode, code);
      if fetched.Undecodable? {
        return DecodeError;
      }
      var inst := fetched.inst;
      code := code[inst.len..];
      AdvancePc(inst);
      Apply(inst);
      return Stepped(inst);
    }

    method AdvancePc(inst: Inst)
      requires Valid()
      modifies this`pc, regs
      ensures Valid() && pc == old(pc) + inst.len
      ensures regs[..] == Advanced(old(State()), codeAddress, inst)
    {
      pc := pc + inst.len;
      var rip := Add([codeAddress, Immediate(Wrap(pc))]);
      SetReg(Rip, rip);
    }

    method Apply(inst: Inst)
      requires Valid()
      modifies regs
      ensures Valid()
      ensures regs[..] == Applied(old(regs[..]), inst.dst, StepEffect(old(regs[..]), inst))
    {
      var effect := Effect(inst);
      if effect.Write? && inst.dst.RegArg? {
        SetReg(inst.dst.reg, effect.v);
      }
    }

    /**
     Steps until `breakLoop` accepts an instruction or the code ends or cannot be decoded. The last
     instruction is returned either way, if there was one.
     */
    method LoopWithBreak(decode: seq<Byte> -> Decoded, breakLoop: Inst -> bool)
      returns (last: Option<Inst>, outcome: Outcome, ghost trace: seq<Inst>)
      requires Valid() && IsDecoder(decode)
      modifies this`code, this`pc, regs
      ensures Valid()
      ensures Decodes(decode, old(code), trace, code)
      ensures State() == SymRun(old(State()), codeAddress, trace)
      ensures last == if trace == [] then None else Some(trace[|trace| - 1])
      ensures !outcome.Stepped? ==> Unbroken(breakLoop, trace)
      ensures outcome.Stepped? ==>
                trace != [] && outcome.inst == trace[|trace| - 1] && breakLoop(outcome.inst) && Unbroken(breakLoop, trace[..|trace| - 1])
      ensures outcome.EndOfCode? ==> code == []
      ensures outcome.DecodeError? ==> code != [] && Fetch(decode, code).Undecodable?
    {
      last, trace := None, [];
      while true
        invariant Valid()
        invariant last == if trace == [] then None else Some(trace[|trace| - 1])
        invariant Decodes(decode, old(code), trace, code)
        invariant State() == SymRun(old(State()), codeAddress, trace)
        invariant Unbroken(breakLoop, trace)
        decreases |code|
      {
        ghost var before := code;
        outcome := Step(decode);
        if !outcome.Stepped? {
          return;
        }
        DecodesMore(decode, old(code), trace, before, outcome.inst);
        RunMore(old(State()), codeAddress, trace, outcome.inst, breakLoop);
        last, trace := Some(outcome.inst), trace + [outcome.inst];
        if breakLoop(outcome.inst) {
          return;
        }
      }
    }
  }
}
