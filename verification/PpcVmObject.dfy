/**
 * `VM` of src/analysis/vm.rs as the object it is: registers in fixed arrays, updated in place by
 * `step` and cloned for the edges of a branch. `View` is the value the soundness proofs are about.
 */
module PpcVmObject {
  import opened Wrappers
  import opened Words
  import opened PpcMachine
  import opened PpcVm

  class VM {
    const gpr: array<Gpr>
    const cr: array<Cr>
    var lr: GprValue
    var ctr: GprValue

    ghost predicate Valid() {
      gpr.Length == 32 && cr.Length == 8
    }

    ghost function View(): (s: State)
      requires Valid()
      reads this, gpr, cr
      ensures s.Valid()
    {
      State(gpr[..], cr[..], lr, ctr)
    }

    constructor ()
      ensures Valid() && fresh(gpr) && fresh(cr)
      ensures forall r: Reg :: gpr[r] == Direct(Unknown)
      ensures lr == Unknown && ctr == Unknown
    {
      gpr := new Gpr[32](_ => Direct(Unknown));
      cr := new Cr[8](_ => Cr(Unknown, Unknown, false));
      lr, ctr := Unknown, Unknown;
    }

    /** `clone_all`. */
    constructor Clone(from: VM)
      requires from.Valid()
      ensures Valid() && fresh(gpr) && fresh(cr) && View() == from.View()
    {
      gpr := new Gpr[32](i requires 0 <= i < 32 reads from, from.gpr => from.gpr[i]);
      cr := new Cr[8](i requires 0 <= i < 8 reads from, from.cr => from.cr[i]);
      lr, ctr := from.lr, from.ctr;
      new;
      assert gpr[..] == from.gpr[..] && cr[..] == from.cr[..];
    }

    method SetGpr(r: Reg, value: Gpr)
      requires Valid()
      modifies gpr
      ensures View() == Set(old(View()), r, value)
    {
      gpr[r] := value;
    }

    /** The default arm: every register the instruction defines becomes unknown. */
    method ForgetAll(defs: set<Reg>)
      requires Valid()
      modifies gpr
      ensures gpr[..] == Forget(old(gpr[..]), defs)
    {
      for r := 0 to 32
        invariant forall i: Reg :: gpr[i] == if i < r && i in defs then Direct(Unknown) else old(gpr[i])
      {
        if r in defs {
          gpr[r] := Direct(Unknown);
        }
      }
    }

    /** `step` on an instruction that does not branch. */
    method Step(site: Site, ins: Ins)
      requires Valid() && WellFormed(ins)
      modifies this, gpr, cr
      ensures View() == Transfer(old(View()), site, ins)
    {
      match ins {
        case Add(rd, ra, rb, _) =>
          SetGpr(rd, Direct(AddValue(gpr[ra].value, gpr[rb].value)));
        case Addis(rd, ra, simm) =>
          AddShifted(site, rd, ra, simm);
        case Addi(rd, ra, simm) =>
          AddImmediate(site, rd, ra, simm, ra == 0);
        case Addic(rd, ra, simm, _) =>
          AddImmediate(site, rd, ra, simm, false);
        case Subf(rd, ra, rb, _) =>
          SetGpr(rd, Direct(SubtractFrom(gpr[ra].value, gpr[rb].value)));
        case Subfic(rd, ra, simm) =>
          SetGpr(rd, Direct(SubtractFrom(gpr[ra].value, Constant(Sext(simm)))));
        case Ori(ra, rs, uimm) =>
          var value := if site.reloc.Some? then Located(site.reloc.value) else OrValue(gpr[rs].value, Constant(uimm));
          SetGpr(ra, SetLo(value, site.at, gpr[rs]));
        case Or(ra, rs, rb, _) =>
          SetGpr(ra, if rs == rb then gpr[rs] else Direct(OrValue(gpr[rs].value, gpr[rb].value)));
        case Rlwinm(ra, rs, sh, mb, me, _) =>
          Rotate(ra, rs, Some(sh), mb, me);
        case Rlwnm(ra, rs, rb, mb, me, _) =>
          Rotate(ra, rs, if gpr[rb].value.Constant? then Some(Low5(gpr[rb].value.value)) else None, mb, me);
        case Mtspr(spr, rs) =>
          if spr == 8 { lr := gpr[rs].value; }
          if spr == 9 { ctr := gpr[rs].value; }
        case Mfspr(rd, spr) =>
          SetGpr(rd, Direct(if spr == 8 then lr else if spr == 9 then ctr else Unknown));
        case Cmp(_, _, _) => StepCompare(site, ins);
        case Cmpi(_, _, _) => StepCompare(site, ins);
        case Cmpl(_, _, _) => StepCompare(site, ins);
        case Cmpli(_, _, _) => StepCompare(site, ins);
        case Lwzx(rd, ra, rb) =>
          SetGpr(rd, Direct(LoadValue(site, gpr[ra].value, gpr[rb].value)));
        case Other(defs, _) =>
          ForgetAll(defs);
      }
    }

    method StepCompare(site: Site, ins: Ins)
      requires Valid() && (ins.Cmp? || ins.Cmpi? || ins.Cmpl? || ins.Cmpli?)
      modifies gpr, cr
      ensures View() == Transfer(old(View()), site, ins)
    {
      var right := match ins
        case Cmp(_, _, rb) => gpr[rb].value
        case Cmpl(_, _, rb) => gpr[rb].value
        case Cmpi(_, _, simm) => Constant(Sext(simm))
        case Cmpli(_, _, uimm) => Constant(uimm);
      cr[ins.crf] := Cr(gpr[ins.ra].value, right, ins.Cmp? || ins.Cmpi?);
      gpr[ins.ra] := gpr[ins.ra].(value := ComparisonResult(ins.crf));
    }

    method AddShifted(site: Site, rd: Reg, ra: Reg, simm: Half)
      requires Valid()
      modifies gpr
      ensures View() == Transfer(old(View()), site, Addis(rd, ra, simm))
    {
      if site.reloc.Some? {
        SetGpr(rd, SetHi(Located(site.reloc.value), site.at));
      } else {
        var left := if ra == 0 then Constant(0) else gpr[ra].value;
        var value := if left.Constant? then Constant(Plus(left.value, Wrap(Sext(simm) * 0x1_0000))) else Unknown;
        SetGpr(rd, if ra == 0 then SetHi(value, site.at) else Direct(value));
      }
    }

    method AddImmediate(site: Site, rd: Reg, ra: Reg, simm: Half, loadZero: bool)
      requires Valid()
      modifies gpr
      ensures View() == Set(old(View()), rd,
                if site.reloc.Some? then SetLo(Located(site.reloc.value), site.at, old(gpr[ra]))
                else if loadZero then Direct(Constant(Plus(0, Sext(simm))))
                else SetLo(Offset(old(gpr[ra].value), Sext(simm)), site.at, old(gpr[ra])))
    {
      if site.reloc.Some? {
        SetGpr(rd, SetLo(Located(site.reloc.value), site.at, gpr[ra]));
      } else {
        var value := Offset(if loadZero then Constant(0) else gpr[ra].value, Sext(simm));
        SetGpr(rd, if loadZero then Direct(value) else SetLo(value, site.at, gpr[ra]));
      }
    }

    method Rotate(ra: Reg, rs: Reg, shift: Option<nat>, mb: nat, me: nat)
      requires Valid() && mb < 32 && me < 32
      modifies gpr
      ensures View() == Set(old(View()), ra,
                Direct(if shift.Some? then RotateValue(old(gpr[rs].value), shift.value, Mask(mb, me)) else Unknown))
    {
      var value := Unknown;
      if shift.Some? {
        var mask := MaskValue(mb, me);
        value := RotateValue(gpr[rs].value, shift.value, mask);
      }
      SetGpr(ra, Direct(value));
    }

    method SetComparisonResult(value: GprValue, crf: CrField)
      requires Valid()
      modifies gpr
      ensures View() == Settle(old(View()), crf, value)
    {
      for r := 0 to 32
        invariant forall i: Reg :: gpr[i] ==
                    if i < r && old(gpr[i].value) == ComparisonResult(crf) then old(gpr[i]).(value := value)
                        else old(gpr[i])
      {
        if gpr[r].value == ComparisonResult(crf) {
          gpr[r] := gpr[r].(value := value);
        }
      }
      assert gpr[..] == Settle(old(View()), crf, value).gpr;
    }

    /** `step` on `bc bo, bi` without link: a refined clone for each edge. */
    method StepConditional(bo: nat, bi: nat) returns (notTaken: VM, taken: VM)
      requires Valid() && bo < 32 && bi < 32
      ensures notTaken.Valid() && fresh(notTaken) && notTaken.View() == Edge(View(), bo, bi, false)
      ensures taken.Valid() && fresh(taken) && taken.View() == Edge(View(), bo, bi, true)
    {
      notTaken := new VM.Clone(this);
      taken := new VM.Clone(this);
      var crf: CrField := bi / 4;
      var split := SplitByBit(bi % 4, cr[crf].left, cr[crf].right);
      if bo / 2 == 2 {
        notTaken.SetComparisonResult(split.1, crf);
        taken.SetComparisonResult(split.0, crf);
      } else if bo / 2 == 6 {
        notTaken.SetComparisonResult(split.0, crf);
        taken.SetComparisonResult(split.1, crf);
      }
    }
  }
}
