/**
 The x86-64 instructions the symbolic interpreter understands, as decoded, and what the processor
 does with them: the reference against which symbolic execution is proved.
 */
module X86 {
  import opened Words
  import opened Expressions

  /** General purpose registers are numbered 1 (RAX) to 16 (R15) as in asm/amd/regs_state.go. */
  datatype Reg = NoReg | Gpr(num: nat, bits: nat) | Rip | Unmapped(id: nat)

  const RIP_INDEX: nat := 17
  const REGISTERS: nat := 18

  predicate Mapped(r: Reg) {
    r.Rip? || (r.Gpr? && 1 <= r.num <= 16 && r.bits in {8, 16, 32, 64})
  }

  /**
   A memory operand. `absolute` marks the form of MOV that carries a whole address; the decoder hands
   it over as a displacement without base and index, so the interpreter cannot see the mark.
   */
  datatype Mem = Mem(segment: nat, base: Reg, scale: Word, index: Reg, disp: Word, absolute: bool)

  datatype Arg = RegArg(reg: Reg) | ImmArg(value: Word) | MemArg(mem: Mem) | OtherArg

  datatype Opcode = ADD | SUB | SHL | MOV | MOVZX | MOVSXD | MOVSX | XOR | AND | LEA | NOP | UNHANDLED

  /**
   A decoded instruction. `overflow` is no part of it: it is what the platform makes of a shift factor
   that does not fit 64 bits, and may be anything.
   */
  datatype Inst = Inst(op: Opcode, len: nat, dst: Arg, src: Arg, memBytes: nat, dataSize: nat, overflow: Word)

  /** Memory as the processor loads it: n bytes give a value below 2^(8n). */
  ghost predicate Loads(mem: (nat, Word, nat) -> Word) {
    forall segment: nat, at: Word, n: nat :: n <= 8 ==> mem(segment, at, n) < Pow2(8 * n)
  }

  datatype Machine = Machine(regs: seq<Word>, mem: (nat, Word, nat) -> Word)

  ghost predicate Valid(m: Machine) {
    |m.regs| == REGISTERS && Loads(m.mem)
  }

  function Index(r: Reg): nat {
    if !Mapped(r) then 0 else if r.Rip? then RIP_INDEX else r.num
  }

  function Width(r: Reg): nat {
    if Mapped(r) && r.Gpr? then r.bits else 64
  }

  /** The low bits of the register. */
  function Read(regs: seq<Word>, r: Reg): Word
    requires |regs| == REGISTERS
  {
    ZeroExtended(regs[Index(r)], Width(r))
  }

  /** A 32-bit write clears the upper half, an 8- or 16-bit write keeps the upper bits. */
  function Written(regs: seq<Word>, r: Reg, v: Word): seq<Word>
    requires |regs| == REGISTERS && Mapped(r)
  {
    var i, bits := Index(r), Width(r);
    var was := regs[i];
    regs[i := if bits >= 32 then ZeroExtended(v, bits) else Plus(was - ZeroExtended(was, bits), ZeroExtended(v, bits))]
  }

  /** A write to the second byte of a register, as to AH, BH, CH or DH. */
  function HighWritten(regs: seq<Word>, n: nat, v: nat): seq<Word>
    requires n < |regs| && v < 256
  {
    regs[n := Wrap(regs[n] + 256 * (v - HighByte(regs[n])))]
  }

  function HighByte(w: Word): nat {
    w / 256 % 256
  }

  /** A displacement as decoded: 32-bit ones arrive zero extended, shorter ones sign extended. */
  function Displacement(disp: Word): Word {
    if disp < 0x1_0000_0000 then SignExtended(disp, 32) else disp
  }

  function EffectiveAddress(regs: seq<Word>, m: Mem): Word
    requires |regs| == REGISTERS
  {
    if m.absolute then m.disp
    else
      var base := if m.base.NoReg? then 0 else Read(regs, m.base);
      var index := if m.index.NoReg? then 0 else Times(Read(regs, m.index), m.scale);
      Plus(Plus(Displacement(m.disp), base), index)
  }

  /** The value of a source operand; memory and narrow registers are zero extended. */
  function Operand(regs: seq<Word>, mem: (nat, Word, nat) -> Word, i: Inst): Word
    requires |regs| == REGISTERS
  {
    match i.src
    case RegArg(r) => Read(regs, r)
    case ImmArg(v) => v
    case MemArg(m) => mem(m.segment, EffectiveAddress(regs, m), i.memBytes)
    case OtherArg => 0
  }

  function SourceBits(i: Inst): nat {
    match i.src
    case RegArg(r) => Width(r)
    case MemArg(_) => 8 * i.memBytes
    case _ => 64
  }

  /** The value an instruction writes to its destination register. */
  function Result(regs: seq<Word>, mem: (nat, Word, nat) -> Word, i: Inst, dst: Reg): Word
    requires |regs| == REGISTERS
  {
    var a, b := Read(regs, dst), Operand(regs, mem, i);
    match i.op
    case ADD => Plus(a, b)
    case SUB => Minus(a, b)
    case SHL => Wrap(a * Pow2(b % Width(dst)))
    case MOV => b
    case MOVZX => b
    case MOVSX => SignExtended(b, SourceBits(i))
    case MOVSXD => SignExtended(b, SourceBits(i))
    case XOR => Wrap(BitXor(a, b))
    case AND => Wrap(BitAnd(a, b))
    case LEA => if i.src.MemArg? then EffectiveAddress(regs, i.src.mem) else 0
    case NOP => a
    case UNHANDLED => a
  }

  /** The instruction pointer after fetching, as RIP-relative operands see it. */
  function AdvancedMachine(m: Machine, i: Inst): (r: Machine)
    requires |m.regs| == REGISTERS
    ensures |r.regs| == REGISTERS && r.mem == m.mem
  {
    Machine(m.regs[RIP_INDEX := Wrap(m.regs[RIP_INDEX] + i.len)], m.mem)
  }

  function ExecAt(m: Machine, i: Inst): (r: Machine)
    requires |m.regs| == REGISTERS
    ensures |r.regs| == REGISTERS && r.mem == m.mem
  {
    if i.dst.RegArg? && Mapped(i.dst.reg) && i.op != NOP then
      Machine(Written(m.regs, i.dst.reg, Result(m.regs, m.mem, i, i.dst.reg)), m.mem)
    else m
  }

  /** One processor step. */
  function Exec(m: Machine, i: Inst): (r: Machine)
    requires |m.regs| == REGISTERS
    ensures |r.regs| == REGISTERS && r.mem == m.mem
  {
    ExecAt(AdvancedMachine(m, i), i)
  }

  predicate AddressForm(m: Mem) {
    && (m.base.NoReg? || (Mapped(m.base) && Width(m.base) == 64))
    && (m.index.NoReg? || (Mapped(m.index) && m.index.Gpr? && Width(m.index) == 64))
    && (m.base.Rip? ==> m.index.NoReg?)
    && (m.absolute ==> m.base.NoReg? && m.index.NoReg?)
  }

  /** An absolute address that looks like a negative 32-bit displacement. */
  predicate Misread(m: Mem) {
    m.absolute && 0x8000_0000 <= m.disp < 0x1_0000_0000
  }

  predicate ReadableSource(i: Inst) {
    match i.src
    case RegArg(r) => Mapped(r)
    case ImmArg(_) => true
    case MemArg(m) => AddressForm(m) && !Misread(m) && i.memBytes <= 8
    case OtherArg => false
  }

  /** The forms the interpreter executes exactly: 32/64-bit destinations, no stores, no sign extension. */
  predicate Handled(i: Inst) {
    if i.op == NOP then true
    else
      && i.dst.RegArg? && i.dst.reg.Gpr? && Mapped(i.dst.reg) && Width(i.dst.reg) >= 32
      && ReadableSource(i)
      && match i.op
         case ADD => true
         case SUB => true
         case SHL => i.src.ImmArg? && i.src.value < Width(i.dst.reg)
         case MOV => i.src.MemArg? ==> 8 * i.memBytes <= i.dataSize
         case MOVZX => i.src.MemArg? ==> 8 * i.memBytes <= i.dataSize
         case XOR => i.src == i.dst
         case AND => i.src == ImmArg(3)
         case LEA => i.src.MemArg?
         case _ => false
  }

  /** Sign-extending loads and moves from a narrower operand. */
  predicate SignExtendingMove(i: Inst) {
    && (i.op == MOVSX || i.op == MOVSXD)
    && i.dst.RegArg? && i.dst.reg.Gpr? && Mapped(i.dst.reg) && Width(i.dst.reg) >= 32
    && i.dataSize == Width(i.dst.reg)
    && ReadableSource(i) && !i.src.ImmArg?
    && 0 < SourceBits(i) < Width(i.dst.reg)
  }

  /** A load from an absolute address into a 32- or 64-bit register. */
  predicate AbsoluteLoad(i: Inst) {
    && i.op == MOV && i.dst.RegArg? && i.dst.reg.Gpr? && Mapped(i.dst.reg) && Width(i.dst.reg) >= 32
    && i.src.MemArg? && i.src.mem.absolute && AddressForm(i.src.mem)
    && 8 * i.memBytes == i.dataSize == Width(i.dst.reg)
  }

  // ------------------------------------------------------------------ what the interpreter makes of any instruction

  /** The forms that change a register: ADD and SUB of anything readable, SHL by an immediate, moves of anything readable. */
  predicate Executed(i: Inst) {
    i.dst.RegArg? &&
    match i.op
    case ADD => !i.src.OtherArg?
    case SUB => !i.src.OtherArg?
    case SHL => i.src.ImmArg?
    case MOV => !i.src.OtherArg?
    case MOVZX => !i.src.OtherArg?
    case MOVSX => !i.src.OtherArg?
    case MOVSXD => !i.src.OtherArg?
    case XOR => i.src == i.dst
    case AND => i.src == ImmArg(3)
    case LEA => i.src.MemArg?
    case NOP => false
    case UNHANDLED => false
  }

  /** The slot and width of a register; what is not in the table shares slot 0. */
  function Slot(r: Reg): nat {
    match r
    case Gpr(num, bits) => if 1 <= num <= 16 && bits in {8, 16, 32, 64} then num else 0
    case Rip => 17
    case NoReg => 0
    case Unmapped(_) => 0
  }

  function Bits(r: Reg): nat {
    match r
    case Gpr(num, bits) => if 1 <= num <= 16 && bits in {8, 16, 32, 64} then bits else 64
    case Rip => 64
    case NoReg => 64
    case Unmapped(_) => 64
  }

  function Low(slots: seq<Word>, r: Reg): Word
    requires |slots| == 18
  {
    ZeroExtended(slots[Slot(r)], Bits(r))
  }

  /** The address of a memory operand as the interpreter forms it: moves take RIP and the displacement alone. */
  function MeantAddress(slots: seq<Word>, m: Mem, ripRelative: bool): Word
    requires |slots| == 18
  {
    var disp := if m.disp < 0x1_0000_0000 then SignExtended(m.disp, 32) else m.disp;
    if ripRelative && m.base.Rip? then Plus(slots[17], disp)
    else Plus(Plus(disp, if m.base.NoReg? then 0 else Low(slots, m.base)),
              if m.index.NoReg? then 0 else Times(Low(slots, m.index), m.scale))
  }

  function MeantSource(slots: seq<Word>, mem: (nat, Word, nat) -> Word, i: Inst): Word
    requires |slots| == 18
  {
    match i.src
    case ImmArg(v) => v
    case RegArg(r) => Low(slots, r)
    case MemArg(m) => mem(m.segment, MeantAddress(slots, m, false), i.memBytes)
    case OtherArg => 0
  }

  /** The value an executed instruction gives its destination, before that cuts it to its width. */
  function Meant(slots: seq<Word>, mem: (nat, Word, nat) -> Word, i: Inst): Word
    requires |slots| == 18 && Executed(i)
  {
    var a := Low(slots, i.dst.reg);
    match i.op
    case ADD => Plus(a, MeantSource(slots, mem, i))
    case SUB => Minus(a, MeantSource(slots, mem, i))
    case SHL =>
      Times(a, if i.src.value < 64 then Wrap(Pow2(i.src.value)) else if i.src.value >= 0x8000_0000_0000_0000 then 0 else i.overflow)
    case XOR => 0
    case AND => a % 4
    case LEA => MeantAddress(slots, i.src.mem, false)
    case _ =>
      match i.src
      case ImmArg(v) => v
      case RegArg(r) => Low(slots, r)
      case MemArg(m) =>
        var v := mem(m.segment, MeantAddress(slots, m, true), i.memBytes);
        if i.op == MOVSX || i.op == MOVSXD then SignExtended(v, i.dataSize) else ZeroExtended(v, i.dataSize)
      case OtherArg => 0
  }
}
