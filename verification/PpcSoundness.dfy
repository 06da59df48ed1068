/**
 * The register tracker of src/analysis/vm.rs is sound: whatever it claims of a register is true of
 * every machine run that follows the same instructions.
 */
module PpcSoundness {
  import opened Wrappers
  import opened PpcMachine
  import opened PpcVm
  import opened Words

  lemma SubtractIsComplementAdd(a: Word, b: Word)
    ensures Plus(Plus(Not(a), b), 1) == Minus(b, a)
  {
  }

  /** A rotate loses nothing the tracker claims, unless it rotates a range other than by `slwi`. */
  predicate RotateSafe(value: GprValue, sh: nat, mb: nat, me: nat) {
    value.Range? ==> sh < 32 && mb == 0 && me == 31 - sh && Shl(value.max, sh) <= MAX
  }

  lemma RotateAdmitted(value: GprValue, x: Word, sh: nat, mb: nat, me: nat)
    requires mb < 32 && me < 32 && Admits(value, x) && RotateSafe(value, sh, mb, me)
    ensures Admits(RotateValue(value, sh, Mask(mb, me)), BitAnd(Rotl(x, sh), Mask(mb, me)))
  {
    if value.Range? {
      ShlOrder(x, value.max, sh);
      if value.min <= x { ShlOrder(value.min, x, sh); SlwiShifts(value.min, sh); }
      SlwiShifts(x, sh);
      SlwiShifts(value.max, sh);
    }
  }

  /** The instructions whose knowledge is exact or bounded; a rotate of a range must be a plain shift. */
  predicate Safe(s: State, ins: Ins)
    requires s.Valid() && WellFormed(ins)
  {
    match ins
    case Rlwinm(_, rs, sh, mb, me, _) => RotateSafe(s.gpr[rs].value, sh, mb, me)
    case Rlwnm(_, rs, rb, mb, me, _) =>
      s.gpr[rb].value.Constant? ==> RotateSafe(s.gpr[rs].value, Low5(s.gpr[rb].value.value), mb, me)
    case _ => true
  }

  lemma SetSound(s: State, m: Machine, m': Machine, r: Reg, gpr: Gpr, x: Word)
    requires Sound(s, m) && m'.Valid() && m'.lr == m.lr && m'.ctr == m.ctr
    requires m'.gpr == m.gpr[r := x] && Admits(gpr.value, x)
    ensures Sound(Set(s, r, gpr), m')
  {
  }

  lemma PlusWrap(x: Word, y: int)
    ensures Plus(x, Wrap(y)) == Plus(x, y)
  {
  }

  lemma OffsetAdmitted(value: GprValue, x: Word, delta: Word)
    requires Admits(value, x)
    ensures Admits(Offset(value, delta), Plus(x, delta))
  {
  }

  lemma AddAdmitted(left: GprValue, right: GprValue, x: Word, y: Word)
    requires Admits(left, x) && Admits(right, y)
    ensures Admits(AddValue(left, right), Plus(x, y))
  {
    OffsetAdmitted(left, x, y);
    OffsetAdmitted(right, y, x);
  }

  lemma SubtractAdmitted(left: GprValue, right: GprValue, x: Word, y: Word)
    requires Admits(left, x) && Admits(right, y)
    ensures Admits(SubtractFrom(left, right), Minus(y, x))
  {
    SubtractIsComplementAdd(x, y);
  }

  /** The one-register instructions over a constant and a register, or two registers. */
  lemma ArithmeticSound(s: State, site: Site, ins: Ins, m: Machine, m': Machine)
    requires Sound(s, m) && WellFormed(ins) && site.reloc.None? && Executes(ins, m, m')
    requires ins.Add? || ins.Addi? || ins.Addic? || ins.Addis? || ins.Subf? || ins.Subfic?
    ensures Sound(Transfer(s, site, ins), m')
  {
    var r, x := Written(ins, m).1, Written(ins, m).2;
    match ins {
      case Add(rd, ra, rb, _) =>
        AddAdmitted(s.gpr[ra].value, s.gpr[rb].value, m.gpr[ra], m.gpr[rb]);
      case Addi(rd, ra, simm) =>
        OffsetAdmitted(s.gpr[ra].value, m.gpr[ra], Sext(simm));
      case Addic(rd, ra, simm, _) =>
        OffsetAdmitted(s.gpr[ra].value, m.gpr[ra], Sext(simm));
      case Addis(rd, ra, simm) =>
        PlusWrap(Base(m, ra), Sext(simm) * 0x1_0000);
      case Subf(rd, ra, rb, _) =>
        SubtractAdmitted(s.gpr[ra].value, s.gpr[rb].value, m.gpr[ra], m.gpr[rb]);
      case Subfic(rd, ra, simm) =>
        SubtractAdmitted(s.gpr[ra].value, Constant(Sext(simm)), m.gpr[ra], Sext(simm));
    }
    SetSound(s, m, m', r, Transfer(s, site, ins).gpr[r], x);
  }

  lemma OtherWriteSound(s: State, site: Site, ins: Ins, m: Machine, m': Machine)
    requires Sound(s, m) && WellFormed(ins) && site.reloc.None? && Executes(ins, m, m')
    requires ins.Ori? || ins.Or? || ins.Mfspr? || ins.Lwzx?
    ensures Sound(Transfer(s, site, ins), m')
  {
    var r, x := Written(ins, m).1, Written(ins, m).2;
    if ins.Or? {
      OrSame(m.gpr[ins.rs]);
    }
    SetSound(s, m, m', r, Transfer(s, site, ins).gpr[r], x);
  }

  lemma RotateSound(s: State, site: Site, ins: Ins, m: Machine, m': Machine)
    requires Sound(s, m) && WellFormed(ins) && Safe(s, ins) && (ins.Rlwinm? || ins.Rlwnm?) && Executes(ins, m, m')
    ensures Sound(Transfer(s, site, ins), m')
  {
    var r, x := Written(ins, m).1, Written(ins, m).2;
    if ins.Rlwinm? {
      RotateAdmitted(s.gpr[ins.rs].value, m.gpr[ins.rs], ins.sh, ins.mb, ins.me);
    } else if s.gpr[ins.rb].value.Constant? {
      RotateAdmitted(s.gpr[ins.rs].value, m.gpr[ins.rs], Low5(m.gpr[ins.rb]), ins.mb, ins.me);
    }
    SetSound(s, m, m', r, Transfer(s, site, ins).gpr[r], x);
  }

  /** One instruction: sound knowledge stays sound, whatever state the machine ends in. */
  lemma StepSound(s: State, site: Site, ins: Ins, m: Machine, m': Machine)
    requires Sound(s, m) && WellFormed(ins) && Safe(s, ins) && site.reloc.None? && Executes(ins, m, m')
    ensures Sound(Transfer(s, site, ins), m')
  {
    if ins.Add? || ins.Addi? || ins.Addic? || ins.Addis? || ins.Subf? || ins.Subfic? {
      ArithmeticSound(s, site, ins, m, m');
    } else if ins.Ori? || ins.Or? || ins.Mfspr? || ins.Lwzx? {
      OtherWriteSound(s, site, ins, m, m');
    } else if ins.Rlwinm? || ins.Rlwnm? {
      RotateSound(s, site, ins, m, m');
    }
  }

  /** Straight-line code: each instruction with its site. */
  type Program = seq<(Site, Ins)>

  ghost predicate Decodes(program: Program) {
    forall i | 0 <= i < |program| :: WellFormed(program[i].1)
  }

  ghost predicate Executable(program: Program) {
    Decodes(program) && forall i | 0 <= i < |program| :: program[i].0.reloc.None?
  }

  /** `ms` are the states of one machine run of the program, before, between and after. */
  ghost predicate Runs(program: Program, ms: seq<Machine>)
    requires Executable(program)
  {
    && |ms| == |program| + 1
    && (forall m | m in ms :: m.Valid())
    && forall i | 0 <= i < |program| :: Executes(program[i].1, ms[i], ms[i + 1])
  }

  ghost function TransferAll(s: State, program: Program): (r: State)
    requires s.Valid() && Decodes(program)
    ensures r.Valid()
    decreases |program|
  {
    if program == [] then s else TransferAll(Transfer(s, program[0].0, program[0].1), program[1..])
  }

  ghost predicate SafeAll(s: State, program: Program)
    requires s.Valid() && Executable(program)
    decreases |program|
  {
    program == [] ||
    (Safe(s, program[0].1) && SafeAll(Transfer(s, program[0].0, program[0].1), program[1..]))
  }

  lemma RunsTail(program: Program, ms: seq<Machine>)
    requires program != [] && Executable(program) && Runs(program, ms)
    ensures Executable(program[1..]) && Runs(program[1..], ms[1..])
    ensures Executes(program[0].1, ms[0], ms[1])
  {
    forall i | 0 <= i < |program| - 1 ensures Executes(program[1..][i].1, ms[1..][i], ms[1..][i + 1]) {
      assert Executes(program[i + 1].1, ms[i + 1], ms[i + 2]);
    }
  }

  /** Every register claim made at the end of straight-line code is true in every run of it. */
  lemma {:induction false} RunSound(s: State, program: Program, ms: seq<Machine>)
    requires Executable(program) && Runs(program, ms) && Sound(s, ms[0]) && SafeAll(s, program)
    ensures Sound(TransferAll(s, program), ms[|program|])
    decreases |program|
  {
    if program != [] {
      RunsTail(program, ms);
      StepSound(s, program[0].0, program[0].1, ms[0], ms[1]);
      RunSound(Transfer(s, program[0].0, program[0].1), program[1..], ms[1..]);
    }
  }
}
