/**
 * The x86 instructions a switch dispatch is made of, with the semantics of the Intel SDM, volume 2
 * (`CMP` sets CF and ZF as the unsigned comparison does; `JA` jumps when both are clear), and every
 * other straight-line instruction by what it may write.
 */
module X86Machine {
  import opened Wrappers
  import opened Words

  /** A full 32-bit general register. */
  type Reg = r: nat | r < 8

  /** The part of a register a byte load writes. */
  datatype Dest = Dword(reg: Reg) | Low16(reg: Reg) | LowByte(reg: Reg) | HighByte(reg: Reg)

  datatype Operand = Operand(base: Option<Reg>, index: Option<Reg>, scale: nat, disp: Word)

  datatype Ins =
    | CmpImm(reg: Reg, imm: Word)
    | Ja
    | LoadByte(dest: Dest, from: Operand)
    | JmpIndirect(through: Operand)
    | Plain(writes: set<Reg>, flags: bool)
    | Flow

  /** Execution falls through to the next instruction and nowhere else. */
  predicate Sequential(ins: Ins) {
    ins.CmpImm? || ins.LoadByte? || ins.Plain?
  }

  predicate Writes(ins: Ins, reg: Reg) {
    (ins.LoadByte? && ins.dest.reg == reg) || (ins.Plain? && reg in ins.writes)
  }

  predicate ModifiesFlags(ins: Ins) {
    ins.CmpImm? || (ins.Plain? && ins.flags)
  }

  datatype Machine = Machine(regs: seq<Word>, cf: bool, zf: bool, mem: Word -> Byte) {
    predicate Valid() {
      |regs| == 8
    }
  }

  /** The instructions of an image at rest: its code section holds `data` from `base`. */
  datatype Code = Code(at: int -> (Ins, int), base: nat, data: seq<Byte>)

  ghost predicate Mapped(code: Code, m: Machine) {
    && m.Valid()
    && code.base + |code.data| <= 0x1_0000_0000
    && forall a: Word | code.base <= a < code.base + |code.data| :: m.mem(a) == code.data[a - code.base]
  }

  function Merge(dest: Dest, was: Word, b: Byte): Word {
    match dest
    case Dword(_) => b
    case Low16(_) => was - was % 0x1_0000 + b
    case LowByte(_) => was - was % 0x100 + b
    case HighByte(_) => was - was % 0x1_0000 + b * 0x100 + was % 0x100
  }

  function Address(m: Machine, from: Operand): Word
    requires m.Valid()
  {
    Wrap((if from.base.Some? then m.regs[from.base.value] else 0)
         + (if from.index.Some? then m.regs[from.index.value] * from.scale else 0) + from.disp)
  }

  /** One instruction that falls through, `ja` included when it does not jump. */
  ghost predicate FallsThrough(ins: Ins, m: Machine, m': Machine) {
    && m.Valid() && m'.Valid()
    && match ins
       case CmpImm(reg, imm) => m'.regs == m.regs && m'.cf == (m.regs[reg] < imm) && m'.zf == (m.regs[reg] == imm)
       case Ja => m'.regs == m.regs && m'.cf == m.cf && m'.zf == m.zf && (m.cf || m.zf)
       case LoadByte(dest, from) =>
         && m'.regs == m.regs[dest.reg := Merge(dest, m.regs[dest.reg], m.mem(Address(m, from)))]
         && m'.cf == m.cf && m'.zf == m.zf
       case Plain(writes, flags) =>
         && (forall r: Reg | r !in writes :: m'.regs[r] == m.regs[r])
         && (!flags ==> m'.cf == m.cf && m'.zf == m.zf)
       case _ => true
  }

  function Le32(data: seq<Byte>, off: nat): Word
    requires off + 4 <= |data|
  {
    Le4(data[off], data[off + 1], data[off + 2], data[off + 3])
  }

  /** Where `jmp [through]` goes. */
  function JumpsTo(m: Machine, through: Operand): Word
    requires m.Valid()
  {
    var a := Address(m, through);
    Le4(m.mem(a), m.mem(Wrap(a + 1)), m.mem(Wrap(a + 2)), m.mem(Wrap(a + 3)))
  }
}
