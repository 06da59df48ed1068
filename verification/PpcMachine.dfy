/**
 * The PowerPC instructions that the register tracker understands, with the fixed-point semantics of
 * the Power ISA, Book I (Fixed-Point Facility). Words wrap around.
 */
module PpcMachine {
  import opened Words

  type Half = x: int | 0 <= x < 0x1_0000

  type Reg = r: nat | r < 32
  type CrField = c: nat | c < 8

  /** `rc` records the result in CR0. `Other` is any instruction that only writes what it lists. */
  datatype Ins =
    | Add(rd: Reg, ra: Reg, rb: Reg, rc: bool)
    | Addi(rd: Reg, ra: Reg, simm: Half)
    | Addic(rd: Reg, ra: Reg, simm: Half, rc: bool)
    | Addis(rd: Reg, ra: Reg, simm: Half)
    | Subf(rd: Reg, ra: Reg, rb: Reg, rc: bool)
    | Subfic(rd: Reg, ra: Reg, simm: Half)
    | Ori(ra: Reg, rs: Reg, uimm: Half)
    | Or(ra: Reg, rs: Reg, rb: Reg, rc: bool)
    | Rlwinm(ra: Reg, rs: Reg, sh: nat, mb: nat, me: nat, rc: bool)
    | Rlwnm(ra: Reg, rs: Reg, rb: Reg, mb: nat, me: nat, rc: bool)
    | Mtspr(spr: nat, rs: Reg)
    | Mfspr(rd: Reg, spr: nat)
    | Cmp(crf: CrField, ra: Reg, rb: Reg)
    | Cmpi(crf: CrField, ra: Reg, simm: Half)
    | Cmpl(crf: CrField, ra: Reg, rb: Reg)
    | Cmpli(crf: CrField, ra: Reg, uimm: Half)
    | Lwzx(rd: Reg, ra: Reg, rb: Reg)
    | Other(defs: set<Reg>, fields: set<CrField>)

  datatype Flags = Flags(lt: bool, gt: bool, eq: bool)

  /** `word` is what memory holds; `spr` the special registers other than LR (8) and CTR (9). */
  datatype Machine = Machine(gpr: seq<Word>, cr: seq<Flags>, lr: Word, ctr: Word, spr: nat -> Word,
                             word: Word -> Word) {
    predicate Valid() {
      |gpr| == 32 && |cr| == 8
    }
  }

  /** A 16-bit field, sign-extended. */
  function Sext(simm: Half): Word {
    if simm < 0x8000 then simm else MAX - 0xFFFF + simm
  }

  /** The low five bits, which is all a rotate takes of a register. */
  function Low5(x: Word): (n: nat)
    ensures n < 32
  {
    x % 32
  }

  function Unsigned(x: Word, y: Word): Flags {
    Flags(x < y, x > y, x == y)
  }

  function AsSigned(x: Word): int {
    if x < 0x8000_0000 then x else x - 0x1_0000_0000
  }

  function Signed(x: Word, y: Word): Flags {
    Flags(AsSigned(x) < AsSigned(y), AsSigned(x) > AsSigned(y), x == y)
  }

  predicate WellFormed(ins: Ins) {
    && (ins.Rlwinm? ==> ins.sh < 32 && ins.mb < 32 && ins.me < 32)
    && (ins.Rlwnm? ==> ins.mb < 32 && ins.me < 32)
  }

  /** The condition register fields an instruction writes. */
  predicate WritesField(ins: Ins, crf: CrField) {
    match ins
    case Add(_, _, _, rc) => rc && crf == 0
    case Addic(_, _, _, rc) => rc && crf == 0
    case Subf(_, _, _, rc) => rc && crf == 0
    case Or(_, _, _, rc) => rc && crf == 0
    case Rlwinm(_, _, _, _, _, rc) => rc && crf == 0
    case Rlwnm(_, _, _, _, _, rc) => rc && crf == 0
    case Cmp(f, _, _) => f == crf
    case Cmpi(f, _, _) => f == crf
    case Cmpl(f, _, _) => f == crf
    case Cmpli(f, _, _) => f == crf
    case Other(_, fields) => crf in fields
    case _ => false
  }

  function Base(m: Machine, ra: Reg): Word
    requires m.Valid()
  {
    if ra == 0 then 0 else m.gpr[ra]
  }

  /** The register an instruction writes and the value it gets, if it writes just one. */
  function Written(ins: Ins, m: Machine): (bool, Reg, Word)
    requires m.Valid() && WellFormed(ins)
  {
    match ins
    case Add(rd, ra, rb, _) => (true, rd, Plus(m.gpr[ra], m.gpr[rb]))
    case Addi(rd, ra, simm) => (true, rd, Plus(Base(m, ra), Sext(simm)))
    case Addic(rd, ra, simm, _) => (true, rd, Plus(m.gpr[ra], Sext(simm)))
    case Addis(rd, ra, simm) => (true, rd, Plus(Base(m, ra), Sext(simm) * 0x1_0000))
    case Subf(rd, ra, rb, _) => (true, rd, Minus(m.gpr[rb], m.gpr[ra]))
    case Subfic(rd, ra, simm) => (true, rd, Minus(Sext(simm), m.gpr[ra]))
    case Ori(ra, rs, uimm) => (true, ra, OrWord(m.gpr[rs], uimm))
    case Or(ra, rs, rb, _) => (true, ra, OrWord(m.gpr[rs], m.gpr[rb]))
    case Rlwinm(ra, rs, sh, mb, me, _) => (true, ra, BitAnd(Rotl(m.gpr[rs], sh), Mask(mb, me)))
    case Rlwnm(ra, rs, rb, mb, me, _) => (true, ra, BitAnd(Rotl(m.gpr[rs], Low5(m.gpr[rb])), Mask(mb, me)))
    case Mfspr(rd, spr) => (true, rd, if spr == 8 then m.lr else if spr == 9 then m.ctr else m.spr(spr))
    case Lwzx(rd, ra, rb) => (true, rd, m.word(Plus(Base(m, ra), m.gpr[rb])))
    case _ => (false, 0, 0)
  }

  /** `m'` is a state the machine can be in after `ins`; only CR0 recording is left open. */
  ghost predicate Executes(ins: Ins, m: Machine, m': Machine)
    requires WellFormed(ins)
  {
    && m.Valid() && m'.Valid()
    && (forall c: CrField | !WritesField(ins, c) :: m'.cr[c] == m.cr[c])
    && (!ins.Mtspr? ==> m'.lr == m.lr && m'.ctr == m.ctr)
    && match ins
       case Other(defs, _) => forall r: Reg | r !in defs :: m'.gpr[r] == m.gpr[r]
       case Mtspr(spr, rs) =>
         && m'.gpr == m.gpr
         && m'.lr == (if spr == 8 then m.gpr[rs] else m.lr)
         && m'.ctr == (if spr == 9 then m.gpr[rs] else m.ctr)
       case Cmp(crf, ra, rb) => m'.gpr == m.gpr && m'.cr[crf] == Signed(m.gpr[ra], m.gpr[rb])
       case Cmpi(crf, ra, simm) => m'.gpr == m.gpr && m'.cr[crf] == Signed(m.gpr[ra], Sext(simm))
       case Cmpl(crf, ra, rb) => m'.gpr == m.gpr && m'.cr[crf] == Unsigned(m.gpr[ra], m.gpr[rb])
       case Cmpli(crf, ra, uimm) => m'.gpr == m.gpr && m'.cr[crf] == Unsigned(m.gpr[ra], uimm)
       case _ => m'.gpr == m.gpr[Written(ins, m).1 := Written(ins, m).2]
  }
}
