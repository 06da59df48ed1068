/**
 * Where the register tracker of src/analysis/vm.rs says the halves of an address were loaded, told from the
 * instructions alone: each register is followed back through the last instruction that wrote it. And when
 * the tracker must know a register's value.
 */
module PpcProvenance {
  import opened Wrappers
  import opened Words
  import opened PpcMachine
  import opened PpcVm
  import opened PpcSoundness

  /** What an instruction does to the halves of a register: `Low` adds a lower half to what `from` holds. */
  datatype Role = Leaves | Clears | High | Low(from: Reg) | Copies(from: Reg)

  predicate Writes(ins: Ins, r: Reg) {
    match ins
    case Add(rd, _, _, _) => r == rd
    case Addi(rd, _, _) => r == rd
    case Addic(rd, _, _, _) => r == rd
    case Addis(rd, _, _) => r == rd
    case Subf(rd, _, _, _) => r == rd
    case Subfic(rd, _, _) => r == rd
    case Ori(ra, _, _) => r == ra
    case Or(ra, _, _, _) => r == ra
    case Rlwinm(ra, _, _, _, _, _) => r == ra
    case Rlwnm(ra, _, _, _, _, _) => r == ra
    case Mfspr(rd, _) => r == rd
    case Lwzx(rd, _, _) => r == rd
    case Other(defs, _) => r in defs
    case _ => false
  }

  /** `lis`, or a relocated `addis`, loads an upper half; `addi`, `addic` and `ori` a lower one, but for `li`. */
  function RoleOf(site: Site, ins: Ins, r: Reg): Role {
    if !Writes(ins, r) then Leaves else
      match ins
      case Addis(_, ra, _) => if site.reloc.Some? || ra == 0 then High else Clears
      case Addi(_, ra, _) => if site.reloc.Some? || ra != 0 then Low(ra) else Clears
      case Addic(_, ra, _, _) => Low(ra)
      case Ori(_, rs, _) => Low(rs)
      case Or(_, rs, rb, _) => if rs == rb then Copies(rs) else Clears
      case _ => Clears
  }

  /** The last instruction that writes the register. */
  ghost function LastWrite(program: Program, r: Reg): (i: Option<nat>)
    ensures i.Some? ==> i.value < |program| && Writes(program[i.value].1, r)
                        && forall j | i.value < j < |program| :: !Writes(program[j].1, r)
    ensures i.None? ==> forall j | 0 <= j < |program| :: !Writes(program[j].1, r)
  {
    if program == [] then None
    else if Writes(program[|program| - 1].1, r) then Some(|program| - 1)
    else
      assert forall j | 0 <= j < |program| - 1 :: program[..|program| - 1][j] == program[j];
      LastWrite(program[..|program| - 1], r)
  }

  /** The instructions that built the register, first to last: each but the first reads what the one before wrote. */
  ghost function Built(program: Program, r: Reg): (trail: seq<nat>)
    ensures forall i | i in trail :: i < |program|
    decreases |program|
  {
    match LastWrite(program, r)
    case None => []
    case Some(i) =>
      match RoleOf(program[i].0, program[i].1, r)
      case Low(from) => Built(program[..i], from) + [i]
      case Copies(from) => Built(program[..i], from) + [i]
      case High => [i]
      case _ => []
  }

  /** The instruction passes what is known of the halves of `q` on to `r`. */
  predicate Passes(site: Site, ins: Ins, q: Reg, r: Reg) {
    RoleOf(site, ins, r) == Low(q) || RoleOf(site, ins, r) == Copies(q)
  }

  ghost predicate LoadsHigh(program: Program, i: nat) {
    i < |program| && program[i].1.Addis?
  }

  ghost predicate LoadsLow(program: Program, i: nat) {
    i < |program| && (program[i].1.Addi? || program[i].1.Addic? || program[i].1.Ori?)
  }

  /** The first instruction of the trail, if it loads an upper half. */
  ghost function HighSite(program: Program, trail: seq<nat>): Option<SectionAddress> {
    if trail != [] && LoadsHigh(program, trail[0]) then Some(program[trail[0]].0.at) else None
  }

  /** The first instruction of the trail that loads a lower half. */
  ghost function LowSite(program: Program, trail: seq<nat>): Option<SectionAddress> {
    if trail == [] then None
    else if LoadsLow(program, trail[0]) then Some(program[trail[0]].0.at)
    else LowSite(program, trail[1..])
  }

  ghost predicate NoHalves(s: State) {
    s.Valid() && forall r: Reg :: s.gpr[r].hi == None && s.gpr[r].lo == None
  }

  /** After straight-line code each register's halves are those of the instructions that built it. */
  lemma {:induction false} HalvesAre(s: State, program: Program, r: Reg)
    requires NoHalves(s) && Decodes(program)
    ensures var gpr, trail := TransferAll(s, program).gpr[r], Built(program, r);
            gpr.hi == HighSite(program, trail) && gpr.lo == LowSite(program, trail)
    decreases |program|
  {
    if program != [] {
      var front, last := program[..|program| - 1], program[|program| - 1];
      LastStep(s, program);
      HalvesStep(TransferAll(s, front), last.0, last.1, r);
      match RoleOf(last.0, last.1, r)
      case Leaves =>
        HalvesAre(s, front, r);
        LeftAlone(program, r);
      case Low(from) =>
        HalvesAre(s, front, from);
        Extended(program, r, from);
      case Copies(from) =>
        HalvesAre(s, front, from);
        Extended(program, r, from);
      case _ =>
        Begun(program, r);
    }
  }

  /** What one instruction does to the halves is its role. */
  lemma HalvesStep(s: State, site: Site, ins: Ins, r: Reg)
    requires s.Valid() && WellFormed(ins)
    ensures var gpr := Transfer(s, site, ins).gpr[r];
            (gpr.hi, gpr.lo) ==
            match RoleOf(site, ins, r)
            case Leaves => (s.gpr[r].hi, s.gpr[r].lo)
            case Clears => (None, None)
            case High => (Some(site.at), None)
            case Low(from) => (s.gpr[from].hi, if s.gpr[from].lo.Some? then s.gpr[from].lo else Some(site.at))
            case Copies(from) => (s.gpr[from].hi, s.gpr[from].lo)
  {
  }

  lemma Begun(program: Program, r: Reg)
    requires program != []
    requires var last := program[|program| - 1]; RoleOf(last.0, last.1, r) in {Clears, High}
    ensures var last, trail := program[|program| - 1], Built(program, r);
            && HighSite(program, trail) == (if RoleOf(last.0, last.1, r) == High then Some(last.0.at) else None)
            && LowSite(program, trail) == None
  {
  }

  lemma {:induction false} LastStep(s: State, program: Program)
    requires s.Valid() && Decodes(program) && program != []
    ensures var front, last := program[..|program| - 1], program[|program| - 1];
            && Decodes(front) && TransferAll(s, program) == Transfer(TransferAll(s, front), last.0, last.1)
    decreases |program|
  {
    if |program| > 1 {
      var s1 := Transfer(s, program[0].0, program[0].1);
      LastStep(s1, program[1..]);
      assert program[1..][..|program| - 2] == program[..|program| - 1][1..];
    }
  }

  /** The instruction at the end leaves the register as the ones before it built it. */
  lemma LeftAlone(program: Program, r: Reg)
    requires program != [] && !Writes(program[|program| - 1].1, r)
    ensures var front := program[..|program| - 1];
            && Built(program, r) == Built(front, r)
            && HighSite(program, Built(program, r)) == HighSite(front, Built(front, r))
            && LowSite(program, Built(program, r)) == LowSite(front, Built(front, r))
  {
    var front := program[..|program| - 1];
    var i := LastWrite(front, r);
    if i.Some? {
      assert front[..i.value] == program[..i.value];
    }
    SameSites(front, program, Built(front, r));
  }

  lemma {:induction false} SameSites(front: Program, program: Program, trail: seq<nat>)
    requires front <= program && forall i | i in trail :: i < |front|
    ensures HighSite(program, trail) == HighSite(front, trail) && LowSite(program, trail) == LowSite(front, trail)
  {
    if trail != [] {
      assert trail[0] in trail && forall i | i in trail[1..] :: i in trail;
      SameSites(front, program, trail[1..]);
    }
  }

  /** The instruction at the end adds itself to what its source was built by. */
  lemma Extended(program: Program, r: Reg, from: Reg)
    requires program != []
    requires var last := program[|program| - 1]; Passes(last.0, last.1, from, r)
    ensures var front, last := program[..|program| - 1], program[|program| - 1];
            var trail := Built(front, from);
            && HighSite(program, Built(program, r)) == HighSite(front, trail)
            && LowSite(program, Built(program, r)) ==
               if LowSite(front, trail).Some? then LowSite(front, trail)
               else if RoleOf(last.0, last.1, r) == Low(from) then Some(last.0.at) else None
  {
    var front, n := program[..|program| - 1], |program| - 1;
    var trail := Built(front, from);
    assert Built(program, r) == trail + [n];
    SameSites(front, program, trail);
    LowSiteMore(program, trail, n);
  }

  lemma {:induction false} LowSiteMore(program: Program, trail: seq<nat>, n: nat)
    ensures LowSite(program, trail + [n]) ==
            if LowSite(program, trail).Some? then LowSite(program, trail) else LowSite(program, [n])
  {
    if trail != [] {
      LowSiteMore(program, trail[1..], n);
      assert (trail + [n])[1..] == trail[1..] + [n];
    }
  }

  ghost predicate Reads(program: Program, i: nat, q: Reg) {
    i < |program| && exists r: Reg :: Passes(program[i].0, program[i].1, q, r)
  }

  /** What instruction `j` reads was last written by `i`. */
  ghost predicate Feeds(program: Program, i: nat, j: nat) {
    i < j < |program| && exists q: Reg :: LastWrite(program[..j], q) == Some(i) && Reads(program, j, q)
  }

  lemma FeedsMore(front: Program, program: Program, i: nat, j: nat)
    requires Feeds(front, i, j) && front <= program
    ensures Feeds(program, i, j)
  {
    var q: Reg :| LastWrite(front[..j], q) == Some(i) && Reads(front, j, q);
    assert front[..j] == program[..j] && Reads(program, j, q);
  }

  /** Each link of the trail is the last write of the register that the next one reads. */
  lemma {:induction false} BuiltLinks(program: Program, r: Reg, k: nat)
    requires k + 1 < |Built(program, r)|
    ensures Feeds(program, Built(program, r)[k], Built(program, r)[k + 1])
    decreases |program|
  {
    var trail, i := Built(program, r), LastWrite(program, r).value;
    var from := RoleOf(program[i].0, program[i].1, r).from;
    var before := Built(program[..i], from);
    assert trail == before + [i];
    if k + 1 < |before| {
      BuiltLinks(program[..i], from, k);
      FeedsMore(program[..i], program, trail[k], trail[k + 1]);
    } else {
      BuiltLast(program[..i], from);
      assert Passes(program[i].0, program[i].1, from, r);
      assert LastWrite(program[..i], from) == Some(trail[k]) && Reads(program, i, from);
    }
  }

  lemma BuiltLast(program: Program, r: Reg)
    requires Built(program, r) != []
    ensures LastWrite(program, r) == Some(Built(program, r)[|Built(program, r)| - 1])
  {
  }

  /** `lis rA; addi rB, rA` or `ori`: the register holds the address, and exactly the two sites. */
  lemma PairOfHalves(s: State, high: Site, low: Site, ra: Reg, rb: Reg, upper: Half, lower: Half, ori: bool)
    requires s.Valid() && high.reloc.None? && low.reloc.None? && (ra != 0 || ori)
    ensures var s1 := Transfer(s, high, Addis(ra, 0, upper));
            var s2 := Transfer(s1, low, if ori then Ori(rb, ra, lower) else Addi(rb, ra, lower));
            var value := if ori then OrWord(Wrap(upper * 0x1_0000), lower) else Plus(upper * 0x1_0000, Sext(lower));
            s2.gpr[rb] == Gpr(Constant(value), Some(high.at), Some(low.at))
  {
    Shifted(upper);
  }

  lemma Shifted(upper: Half)
    ensures Plus(0, Wrap(Sext(upper) * 0x1_0000)) == Wrap(upper * 0x1_0000) == upper * 0x1_0000
  {
    if upper >= 0x8000 {
      assert Sext(upper) * 0x1_0000 == upper * 0x1_0000 + 0xFFFF * 0x1_0000_0000;
    }
  }

  /** Relocated, the pair holds the relocation's target. */
  lemma RelocatedPair(s: State, high: Site, low: Site, ra: Reg, rb: Reg, upper: Half, lower: Half, ori: bool)
    requires s.Valid() && high.reloc.Some? && low.reloc.Some?
    ensures var s1 := Transfer(s, high, Addis(ra, 0, upper));
            var s2 := Transfer(s1, low, if ori then Ori(rb, ra, lower) else Addi(rb, ra, lower));
            && s1.gpr[ra] == Gpr(Located(high.reloc.value), Some(high.at), None)
            && s2.gpr[rb] == Gpr(Located(low.reloc.value), Some(high.at), Some(low.at))
  {
  }

  /** Every register the machine reads for the result is known. */
  predicate SourcesKnown(s: State, ins: Ins)
    requires s.Valid()
  {
    match ins
    case Add(_, ra, rb, _) => s.gpr[ra].value.Constant? && s.gpr[rb].value.Constant?
    case Addi(_, ra, _) => ra == 0 || s.gpr[ra].value.Constant?
    case Addis(_, ra, _) => ra == 0 || s.gpr[ra].value.Constant?
    case Addic(_, ra, _, _) => s.gpr[ra].value.Constant?
    case Subf(_, ra, rb, _) => s.gpr[ra].value.Constant? && s.gpr[rb].value.Constant?
    case Subfic(_, ra, _) => s.gpr[ra].value.Constant?
    case Ori(_, rs, _) => s.gpr[rs].value.Constant?
    case Or(_, rs, rb, _) => s.gpr[rs].value.Constant? && s.gpr[rb].value.Constant?
    case Rlwinm(_, rs, _, _, _, _) => s.gpr[rs].value.Constant?
    case Rlwnm(_, rs, rb, _, _, _) => s.gpr[rs].value.Constant? && s.gpr[rb].value.Constant?
    case Mfspr(_, spr) => (spr == 8 && s.lr.Constant?) || (spr == 9 && s.ctr.Constant?)
    case _ => false
  }

  /** The tracker knows the result exactly when it knows all that the machine reads; then it is what the machine has. */
  lemma ConstantIff(s: State, site: Site, ins: Ins, m: Machine, m': Machine)
    requires Sound(s, m) && WellFormed(ins) && site.reloc.None? && Executes(ins, m, m') && Written(ins, m).0
    ensures var rd := Written(ins, m).1;
            && (Transfer(s, site, ins).gpr[rd].value.Constant? <==> SourcesKnown(s, ins))
            && (SourcesKnown(s, ins) ==> Transfer(s, site, ins).gpr[rd].value == Constant(m'.gpr[rd]))
  {
    if SourcesKnown(s, ins) {
      StepSound(s, site, ins, m, m');
    }
  }

  /** The register that holds an address and what an instruction adds to it, if it adds a known word. */
  function Displacement(s: State, ins: Ins): Option<(Reg, Word)>
    requires s.Valid()
  {
    match ins
    case Add(_, ra, rb, _) =>
      if s.gpr[rb].value.Constant? then Some((ra, s.gpr[rb].value.value))
      else if s.gpr[ra].value.Constant? then Some((rb, s.gpr[ra].value.value))
      else None
    case Addi(_, ra, simm) => if ra == 0 then None else Some((ra, Sext(simm)))
    case Addic(_, ra, simm, _) => Some((ra, Sext(simm)))
    case _ => None
  }

  /** An address is known after an addition exactly when it was before, and it has moved by what the machine adds. */
  lemma AddressIff(s: State, site: Site, ins: Ins, a: SectionAddress)
    requires s.Valid() && WellFormed(ins) && site.reloc.None? && (ins.Add? || ins.Addi? || ins.Addic?)
    ensures Transfer(s, site, ins).gpr[ins.rd].value == Located(Address(a)) <==>
            exists was: SectionAddress ::
              && a.section == was.section && Displacement(s, ins).Some?
              && s.gpr[Displacement(s, ins).value.0].value == Located(Address(was))
              && a.address == Plus(was.address, Displacement(s, ins).value.1)
  {
    var d := Displacement(s, ins);
    if d.Some? && s.gpr[d.value.0].value.Located? && s.gpr[d.value.0].value.target.Address? {
      assert s.gpr[d.value.0].value == Located(Address(s.gpr[d.value.0].value.target.at));
    }
  }

  /** A copy keeps all that is known, and so does a move to LR or CTR and back. */
  lemma CopiesKeep(s: State, site: Site, ra: Reg, rs: Reg, rc: bool, spr: nat)
    requires s.Valid() && (spr == 8 || spr == 9)
    ensures Transfer(s, site, Or(ra, rs, rs, rc)).gpr[ra] == s.gpr[rs]
    ensures Transfer(Transfer(s, site, Mtspr(spr, rs)), site, Mfspr(ra, spr)).gpr[ra].value == s.gpr[rs].value
  {
  }

  /** Masking bits of an unknown word bounds it by the mask. */
  lemma MaskBounds(s: State, site: Site, ins: Ins)
    requires s.Valid() && WellFormed(ins) && ins.Rlwinm?
    requires !s.gpr[ins.rs].value.Constant? && !s.gpr[ins.rs].value.Range?
    ensures var value := Transfer(s, site, ins).gpr[ins.ra].value;
            value.Range? && value.min == 0 && value.max == Mask(ins.mb, ins.me)
  {
  }
}
