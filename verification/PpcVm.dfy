/**
 * The abstract state of src/analysis/vm.rs as values: what each register is known to hold, what an
 * instruction does to that knowledge, and what each edge of a conditional branch adds to it.
 */
module PpcVm {
  import opened Wrappers
  import opened Words
  import opened PpcMachine

  datatype SectionAddress = SectionAddress(section: nat, address: Word)

  datatype RelocationTarget = Address(at: SectionAddress) | External

  datatype GprValue =
    | Unknown
    | Constant(value: Word)
    | Located(target: RelocationTarget)
    | ComparisonResult(crf: CrField)
    | Range(min: Word, max: Word, step: Word)
    | LoadIndexed(address: RelocationTarget, maxOffset: Option<Word>)

  /** `hi` and `lo` are the instructions that load the halves of an address. */
  datatype Gpr = Gpr(value: GprValue, hi: Option<SectionAddress>, lo: Option<SectionAddress>)

  datatype Cr = Cr(left: GprValue, right: GprValue, signed: bool)

  datatype State = State(gpr: seq<Gpr>, cr: seq<Cr>, lr: GprValue, ctr: GprValue) {
    predicate Valid() {
      |gpr| == 32 && |cr| == 8
    }
  }

  /** Where the instruction is, the relocation there, and the section of each mapped address. */
  datatype Site = Site(at: SectionAddress, reloc: Option<RelocationTarget>, sectionOf: Word -> Option<nat>)

  function Direct(value: GprValue): Gpr {
    Gpr(value, None, None)
  }

  function SetHi(value: GprValue, at: SectionAddress): Gpr {
    Gpr(value, Some(at), None)
  }

  function SetLo(value: GprValue, at: SectionAddress, hi: Gpr): Gpr {
    Gpr(value, hi.hi, if hi.lo.Some? then hi.lo else Some(at))
  }

  /** `section_address_for` in an executable. */
  function SectionAddressFor(site: Site, value: Word): Option<RelocationTarget> {
    if site.reloc.Some? then site.reloc
    else match site.sectionOf(value)
      case Some(section) => Some(Address(SectionAddress(section, value)))
      case None => None
  }

  function AddressOf(site: Site, value: GprValue): Option<RelocationTarget> {
    match value
    case Constant(c) => SectionAddressFor(site, c)
    case Located(target) => Some(target)
    case _ => None
  }

  function Offset(value: GprValue, delta: Word): GprValue {
    match value
    case Constant(c) => Constant(Plus(c, delta))
    case Located(Address(a)) => Located(Address(a.(address := Plus(a.address, delta))))
    case _ => Unknown
  }

  function AddValue(left: GprValue, right: GprValue): GprValue {
    if left.Constant? then Offset(right, left.value)
    else if right.Constant? then Offset(left, right.value)
    else Unknown
  }

  function SubtractFrom(left: GprValue, right: GprValue): GprValue {
    if left.Constant? && right.Constant? then Constant(Plus(Plus(Not(left.value), right.value), 1)) else Unknown
  }

  function OrValue(left: GprValue, right: GprValue): GprValue {
    if left.Constant? && right.Constant? then Constant(OrWord(left.value, right.value)) else Unknown
  }

  function RotateValue(value: GprValue, shift: nat, mask: Word): GprValue {
    match value
    case Constant(c) => Constant(BitAnd(Rotl(c, shift), mask))
    case Range(min, max, step) => Range(BitAnd(Rotl(min, shift), mask), BitAnd(Rotl(max, shift), mask),
                                        Rotl(step, shift))
    case _ => Range(0, mask, Rotl(1, shift))
  }

  function LoadValue(site: Site, base: GprValue, index: GprValue): GprValue {
    match AddressOf(site, base)
    case None => Unknown
    case Some(address) =>
      if index.Range? && index.max < MAX - 4 && index.max % 4 == 0 then
        LoadIndexed(address, if index.max == 0 then None else Some(index.max))
      else LoadIndexed(address, None)
  }

  function Set(s: State, r: Reg, gpr: Gpr): State
    requires s.Valid()
  {
    s.(gpr := s.gpr[r := gpr])
  }

  /** Records a comparison and tags the register compared. */
  function Compare(s: State, crf: CrField, ra: Reg, right: GprValue, signed: bool): State
    requires s.Valid()
  {
    s.(cr := s.cr[crf := Cr(s.gpr[ra].value, right, signed)],
       gpr := s.gpr[ra := s.gpr[ra].(value := ComparisonResult(crf))])
  }

  /** What `VM::step` makes of an instruction that does not branch. */
  function Transfer(s: State, site: Site, ins: Ins): State
    requires s.Valid() && WellFormed(ins)
  {
    match ins
    case Add(rd, ra, rb, _) => Set(s, rd, Direct(AddValue(s.gpr[ra].value, s.gpr[rb].value)))
    case Addis(rd, ra, simm) =>
      if site.reloc.Some? then Set(s, rd, SetHi(Located(site.reloc.value), site.at))
      else if ra == 0 then Set(s, rd, SetHi(Constant(Plus(0, Wrap(Sext(simm) * 0x1_0000))), site.at))
      else Set(s, rd, Direct(if s.gpr[ra].value.Constant?
          then Constant(Plus(s.gpr[ra].value.value, Wrap(Sext(simm) * 0x1_0000))) else Unknown))
    case Addi(rd, ra, simm) =>
      if site.reloc.Some? then Set(s, rd, SetLo(Located(site.reloc.value), site.at, s.gpr[ra]))
      else if ra == 0 then Set(s, rd, Direct(Constant(Plus(0, Sext(simm)))))
      else Set(s, rd, SetLo(Offset(s.gpr[ra].value, Sext(simm)), site.at, s.gpr[ra]))
    case Addic(rd, ra, simm, _) =>
      if site.reloc.Some? then Set(s, rd, SetLo(Located(site.reloc.value), site.at, s.gpr[ra]))
      else Set(s, rd, SetLo(Offset(s.gpr[ra].value, Sext(simm)), site.at, s.gpr[ra]))
    case Subf(rd, ra, rb, _) => Set(s, rd, Direct(SubtractFrom(s.gpr[ra].value, s.gpr[rb].value)))
    case Subfic(rd, ra, simm) => Set(s, rd, Direct(SubtractFrom(s.gpr[ra].value, Constant(Sext(simm)))))
    case Ori(ra, rs, uimm) =>
      if site.reloc.Some? then Set(s, ra, SetLo(Located(site.reloc.value), site.at, s.gpr[rs]))
      else Set(s, ra, SetLo(OrValue(s.gpr[rs].value, Constant(uimm)), site.at, s.gpr[rs]))
    case Or(ra, rs, rb, _) =>
      if rs == rb then Set(s, ra, s.gpr[rs])
      else Set(s, ra, Direct(OrValue(s.gpr[rs].value, s.gpr[rb].value)))
    case Rlwinm(ra, rs, sh, mb, me, _) => Set(s, ra, Direct(RotateValue(s.gpr[rs].value, sh, Mask(mb, me))))
    case Rlwnm(ra, rs, rb, mb, me, _) =>
      Set(s, ra, Direct(if s.gpr[rb].value.Constant?
          then RotateValue(s.gpr[rs].value, Low5(s.gpr[rb].value.value), Mask(mb, me)) else Unknown))
    case Mtspr(spr, rs) =>
      if spr == 8 then s.(lr := s.gpr[rs].value) else if spr == 9 then s.(ctr := s.gpr[rs].value) else s
    case Mfspr(rd, spr) => Set(s, rd, Direct(if spr == 8 then s.lr else if spr == 9 then s.ctr else Unknown))
    case Cmp(crf, ra, rb) => Compare(s, crf, ra, s.gpr[rb].value, true)
    case Cmpi(crf, ra, simm) => Compare(s, crf, ra, Constant(Sext(simm)), true)
    case Cmpl(crf, ra, rb) => Compare(s, crf, ra, s.gpr[rb].value, false)
    case Cmpli(crf, ra, uimm) => Compare(s, crf, ra, Constant(uimm), false)
    case Lwzx(rd, ra, rb) => Set(s, rd, Direct(LoadValue(site, s.gpr[ra].value, s.gpr[rb].value)))
    case Other(defs, _) => s.(gpr := Forget(s.gpr, defs))
  }

  function Forget(gpr: seq<Gpr>, defs: set<Reg>): (r: seq<Gpr>)
    requires |gpr| == 32
    ensures |r| == 32 && forall i: Reg :: r[i] == if i in defs then Direct(Unknown) else gpr[i]
  {
    seq(32, i requires 0 <= i < 32 => if i in defs then Direct(Unknown) else gpr[i])
  }

  function Max(a: Word, b: Word): Word { if a < b then b else a }

  function Min(a: Word, b: Word): Word { if b < a then b else a }

  /** `split_values_by_crb`: the compared value when the condition bit is clear, and when it is set. */
  function SplitByBit(bit: nat, left: GprValue, right: GprValue): (GprValue, GprValue)
    requires bit < 4
  {
    if !right.Constant? then (left, left) else
      var v := right.value;
      if bit == 0 then
        if left.Range? then
          (Range(Max(left.min, v), Max(left.max, v), left.step),
           Range(Min(left.min, Minus(v, 1)), Min(left.max, Minus(v, 1)), left.step))
        else (Range(v, MAX, 1), Range(0, Minus(v, 1), 1))
      else if bit == 1 then
        if left.Range? then
          (Range(Min(left.min, v), Min(left.max, v), left.step),
           Range(Max(left.min, Plus(v, 1)), Max(left.max, Plus(v, 1)), left.step))
        else (Range(0, v, 1), Range(Plus(v, 1), MAX, 1))
      else if bit == 2 then
        (if left.Constant? && left.value == v then Unknown else left, right)
      else (left, left)
  }

  /** `set_comparison_result`: every register tagged with the field takes the value. */
  function Settle(s: State, crf: CrField, value: GprValue): (r: State)
    requires s.Valid()
    ensures r.Valid()
    ensures forall i: Reg ::
              r.gpr[i] == if s.gpr[i].value == ComparisonResult(crf) then s.gpr[i].(value := value) else s.gpr[i]
  {
    s.(gpr := seq(32, i requires 0 <= i < 32 => if s.gpr[i].value == ComparisonResult(crf)
        then s.gpr[i].(value := value) else s.gpr[i]))
  }

  /** The state on an edge of `bc bo, bi`: the five-bit `bo` is `0010x` or `0110x` if the bit decides;
    * only "branch if set" and "if clear" refine it. */
  function Edge(s: State, bo: nat, bi: nat, taken: bool): State
    requires s.Valid() && bo < 32 && bi < 32
  {
    var crf: CrField := bi / 4;
    var split := SplitByBit(bi % 4, s.cr[crf].left, s.cr[crf].right);
    if bo / 2 == 2 then Settle(s, crf, if taken then split.0 else split.1)
    else if bo / 2 == 6 then Settle(s, crf, if taken then split.1 else split.0)
    else s
  }

  /** What a value claims of the word in a register. */
  ghost predicate Admits(value: GprValue, x: Word) {
    match value
    case Constant(c) => x == c
    case Range(min, max, _) => min <= x <= max
    case Located(Address(a)) => x == a.address
    case _ => true
  }

  ghost predicate Sound(s: State, m: Machine) {
    && s.Valid() && m.Valid()
    && (forall r: Reg :: Admits(s.gpr[r].value, m.gpr[r]))
    && Admits(s.lr, m.lr) && Admits(s.ctr, m.ctr)
  }
}
