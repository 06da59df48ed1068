/**
 * Conditional branches: what a comparison taught the tracker is true on the edge it is applied to,
 * and the jump-table idiom that rests on it.
 */
module PpcBranches {
  import opened Wrappers
  import opened Words
  import opened PpcMachine
  import opened PpcVm
  import opened PpcSoundness

  ghost predicate Tagged(value: GprValue, crf: CrField) {
    value == ComparisonResult(crf)
  }

  /** The field holds the comparison of `x` with `y`, and every register tagged with it still holds `x`. */
  ghost predicate Tracks(s: State, m: Machine, crf: CrField, x: Word, y: Word) {
    && s.Valid() && m.Valid()
    && Admits(s.cr[crf].left, x) && Admits(s.cr[crf].right, y)
    && m.cr[crf] == (if s.cr[crf].signed then Signed(x, y) else Unsigned(x, y))
    && (forall r: Reg :: Tagged(s.gpr[r].value, crf) ==> m.gpr[r] == x)
    && (Tagged(s.lr, crf) ==> m.lr == x)
    && (Tagged(s.ctr, crf) ==> m.ctr == x)
  }

  ghost predicate Untagged(s: State, crf: CrField, except: Reg) {
    && s.Valid()
    && (forall r: Reg :: r != except ==> !Tagged(s.gpr[r].value, crf))
    && !Tagged(s.lr, crf) && !Tagged(s.ctr, crf)
  }

  /** A comparison starts tracking, if no other register carries the field's tag from an older one. */
  lemma CompareTracks(s: State, site: Site, ins: Ins, m: Machine, m': Machine) returns (x: Word, y: Word)
    requires Sound(s, m) && WellFormed(ins) && Executes(ins, m, m')
    requires ins.Cmp? || ins.Cmpi? || ins.Cmpl? || ins.Cmpli?
    requires Untagged(s, ins.crf, ins.ra)
    ensures x == m.gpr[ins.ra] && Tracks(Transfer(s, site, ins), m', ins.crf, x, y)
  {
    x := m.gpr[ins.ra];
    match ins
    case Cmp(_, _, rb) => y := m.gpr[rb];
    case Cmpl(_, _, rb) => y := m.gpr[rb];
    case Cmpi(_, _, simm) => y := Sext(simm);
    case Cmpli(_, _, uimm) => y := uimm;
  }

  lemma WriteTracks(s: State, site: Site, ins: Ins, m: Machine, m': Machine, crf: CrField, x: Word, y: Word)
    requires Tracks(s, m, crf, x, y) && WellFormed(ins) && Executes(ins, m, m') && !WritesField(ins, crf)
    requires Written(ins, m).0
    ensures Tracks(Transfer(s, site, ins), m', crf, x, y)
  {
    if ins.Or? { OrSame(m.gpr[ins.rs]); }
    var r := Written(ins, m).1;
    assert Tagged(Transfer(s, site, ins).gpr[r].value, crf) ==> Written(ins, m).2 == x;
    assert Transfer(s, site, ins) == Set(s, r, Transfer(s, site, ins).gpr[r]);
  }

  /** Tracking survives any instruction that leaves the field alone, copies of the tag included. */
  lemma TracksKept(s: State, site: Site, ins: Ins, m: Machine, m': Machine, crf: CrField, x: Word, y: Word)
    requires Tracks(s, m, crf, x, y) && WellFormed(ins) && Executes(ins, m, m') && !WritesField(ins, crf)
    ensures Tracks(Transfer(s, site, ins), m', crf, x, y)
  {
    if Written(ins, m).0 {
      WriteTracks(s, site, ins, m, m', crf, x, y);
    }
  }

  lemma {:induction false} RunTracks(s: State, program: Program, ms: seq<Machine>, crf: CrField, x: Word, y: Word)
    requires Executable(program) && Runs(program, ms) && Tracks(s, ms[0], crf, x, y)
    requires forall i | 0 <= i < |program| :: !WritesField(program[i].1, crf)
    ensures Tracks(TransferAll(s, program), ms[|program|], crf, x, y)
    ensures TransferAll(s, program).cr[crf] == s.cr[crf]
    decreases |program|
  {
    if program != [] {
      RunsTail(program, ms);
      TracksKept(s, program[0].0, program[0].1, ms[0], ms[1], crf, x, y);
      RunTracks(Transfer(s, program[0].0, program[0].1), program[1..], ms[1..], crf, x, y);
    }
  }

  /** The condition bit `bi % 4` of a field: less, greater, equal; summary overflow is not modelled. */
  function FlagBit(flags: Flags, bit: nat): bool
    requires bit < 3
  {
    if bit == 0 then flags.lt else if bit == 1 then flags.gt else flags.eq
  }

  lemma SplitAdmitted(bit: nat, left: GprValue, right: GprValue, x: Word, y: Word)
    requires bit < 3 && Admits(left, x) && Admits(right, y)
    ensures Admits(if FlagBit(Unsigned(x, y), bit) then SplitByBit(bit, left, right).1
              else SplitByBit(bit, left, right).0, x)
  {
  }

  /** Whether `bc bo, bi` is taken, for the two forms of `bo` that test only the bit. */
  predicate Taken(bo: nat, bi: nat, m: Machine)
    requires m.Valid() && bi < 32 && bi % 4 < 3 && (bo / 2 == 2 || bo / 2 == 6)
  {
    FlagBit(m.cr[bi / 4], bi % 4) == (bo / 2 == 6)
  }

  /** On the edge a machine takes, the refined claims are true: unsigned comparisons, and equality always. */
  lemma EdgeSound(s: State, m: Machine, bo: nat, bi: nat, x: Word, y: Word)
    requires bi < 32 && bo < 32 && bi % 4 < 3 && (bo / 2 == 2 || bo / 2 == 6)
    requires Sound(s, m) && Tracks(s, m, bi / 4, x, y)
    requires !s.cr[bi / 4].signed || bi % 4 == 2
    ensures Sound(Edge(s, bo, bi, Taken(bo, bi, m)), m)
  {
    var crf: CrField := bi / 4;
    SplitAdmitted(bi % 4, s.cr[crf].left, s.cr[crf].right, x, y);
  }

  /**
   * A whole stretch: a comparison, any straight-line code that leaves its field alone, and the branch.
   * On whichever edge the machine takes, everything the tracker claims there is true.
   */
  lemma {:induction false} BranchRunSound(s: State, site: Site, compare: Ins, program: Program, m: Machine,
                                          ms: seq<Machine>, bo: nat, bi: nat)
    requires Sound(s, m) && site.reloc.None? && WellFormed(compare) && (compare.Cmpl? || compare.Cmpli?)
    requires Executable(program) && Runs(program, ms) && Executes(compare, m, ms[0])
    requires Untagged(s, compare.crf, compare.ra) && SafeAll(Transfer(s, site, compare), program)
    requires forall i | 0 <= i < |program| :: !WritesField(program[i].1, compare.crf)
    requires bi < 32 && bo < 32 && bi / 4 == compare.crf && bi % 4 < 3 && (bo / 2 == 2 || bo / 2 == 6)
    ensures Sound(Edge(TransferAll(Transfer(s, site, compare), program), bo, bi, Taken(bo, bi, ms[|program|])),
                  ms[|program|])
  {
    var s' := Transfer(s, site, compare);
    var x, y := CompareTracks(s, site, compare, m, ms[0]);
    StepSound(s, site, compare, m, ms[0]);
    RunTracks(s', program, ms, compare.crf, x, y);
    RunSound(s', program, ms);
    EdgeSound(TransferAll(s', program), ms[|program|], bo, bi, x, y);
  }

  /** Both words are non-negative as signed numbers, or both negative: the signed and unsigned orders agree on them. */
  predicate SameHalf(x: Word, y: Word) {
    x < 0x8000_0000 <==> y < 0x8000_0000
  }

  /** The claim that the tracker makes of a register compared with a known word, on the edge where the bit is `flag`. */
  function Claim(bit: nat, left: GprValue, y: Word, flag: bool): GprValue
    requires bit < 2
  {
    var (clear, met) := SplitByBit(bit, left, Constant(y));
    if flag then met else clear
  }

  /** What was known of the register before makes no difference, as long as it was true. */
  lemma SignedClaimIff(bit: nat, left: GprValue, x: Word, y: Word)
    requires bit < 2 && Admits(left, x)
    ensures Admits(Claim(bit, left, y, FlagBit(Signed(x, y), bit)), x) <==>
            SameHalf(x, y) || y == (if bit == 0 then 0 else MAX)
  {
  }

  /**
   * After a signed comparison with a known word the tracker refines by the unsigned order. What it claims is
   * true exactly when the two orders agree on the words compared, or its claim has wrapped to every word.
   */
  lemma SignedEdgeIff(s: State, site: Site, compare: Ins, m: Machine, m': Machine, bo: nat, bit: nat, y: Word)
    requires Sound(s, m) && site.reloc.None? && (compare.Cmp? || compare.Cmpi?) && Executes(compare, m, m')
    requires Untagged(s, compare.crf, compare.ra)
    requires Transfer(s, site, compare).cr[compare.crf].right == Constant(y)
    requires bit < 2 && bo < 32 && (bo / 2 == 2 || bo / 2 == 6)
    ensures var bi := 4 * compare.crf + bit;
            Sound(Edge(Transfer(s, site, compare), bo, bi, Taken(bo, bi, m')), m')
            <==> SameHalf(m.gpr[compare.ra], y) || y == (if bit == 0 then 0 else MAX)
  {
    var c, crf, bi, x := Transfer(s, site, compare), compare.crf, 4 * compare.crf + bit, m.gpr[compare.ra];
    assert bi / 4 == crf && bi % 4 == bit;
    StepSound(s, site, compare, m, m');
    assert m'.cr[crf] == Signed(x, y);
    var flag := FlagBit(m'.cr[crf], bit);
    var edge := Edge(c, bo, bi, Taken(bo, bi, m'));
    var left := s.gpr[compare.ra].value;
    assert edge == Settle(c, crf, Claim(bit, left, y, flag));
    SignedClaimIff(bit, left, x, y);
    SettleSoundIff(c, crf, Claim(bit, left, y, flag), m', compare.ra);
  }

  /** Settling a field that one register is tagged with is sound exactly when the value is true of that register. */
  lemma SettleSoundIff(s: State, crf: CrField, value: GprValue, m: Machine, r: Reg)
    requires Sound(s, m) && Tagged(s.gpr[r].value, crf) && Untagged(s, crf, r)
    ensures Sound(Settle(s, crf, value), m) <==> Admits(value, m.gpr[r])
  {
    var t := Settle(s, crf, value);
    assert t.gpr[r].value == value;
  }

  datatype BranchTarget = UnknownTarget | Jump(target: RelocationTarget) | JumpTable(address: RelocationTarget,
      size: Option<int>)

  /** `bctr` without link; a table's size is the largest offset and one more entry. */
  function BranchToCtr(s: State, site: Site): BranchTarget {
    match s.ctr
    case Constant(c) => (match SectionAddressFor(site, c) case Some(target) => Jump(target) case None => UnknownTarget)
    case Located(target) => Jump(target)
    case LoadIndexed(address, maxOffset) =>
      JumpTable(address, if maxOffset.Some? && maxOffset.value + 4 <= MAX then Some(maxOffset.value + 4) else None)
    case _ => UnknownTarget
  }

  /** `cmplwi rX, N` or `cmplw rX, rC` with rC known to be N. */
  ghost predicate ComparesWith(s: State, compare: Ins, rX: Reg, n: Word) {
    && s.Valid()
    && ((compare.Cmpli? && compare.ra == rX && compare.uimm == n)
        || (compare.Cmpl? && compare.ra == rX && s.gpr[compare.rb].value == Constant(n)))
  }

  /** The tracker's state before `bctr`, after compare, `bgt` not taken, `slwi rI, rX, 2; lwzx rT, rB, rI; mtctr rT`. */
  function AfterIdiom(s: State, site: Site, compare: Ins, rX: Reg, rI: Reg, rB: Reg, rT: Reg): State
    requires s.Valid() && (compare.Cmpl? || compare.Cmpli?)
  {
    AfterLoad(AfterShift(NotTaken(s, site, compare), site, rX, rI), site, rI, rB, rT)
  }

  function NotTaken(s: State, site: Site, compare: Ins): (r: State)
    requires s.Valid() && (compare.Cmpl? || compare.Cmpli?)
    ensures r.Valid()
  {
    Edge(Transfer(s, site, compare), 12, 4 * compare.crf + 1, false)
  }

  function AfterShift(s: State, site: Site, rX: Reg, rI: Reg): (r: State)
    requires s.Valid()
    ensures r.Valid()
  {
    Transfer(s, site, Rlwinm(rI, rX, 2, 0, 29, false))
  }

  function AfterLoad(s: State, site: Site, rI: Reg, rB: Reg, rT: Reg): (r: State)
    requires s.Valid()
    ensures r.ctr == LoadValue(site, s.gpr[rB].value, s.gpr[rI].value)
  {
    Transfer(Transfer(s, site, Lwzx(rT, rB, rI)), site, Mtspr(9, rT))
  }

  lemma ShiftedBound(n: Word)
    ensures n < 0x4000_0000 ==> BitAnd(Rotl(n, 2), Mask(0, 29)) == 4 * n
  {
    assert Shl(n, 2) == 2 * Shl(n, 1) == 4 * n;
    if n < 0x4000_0000 {
      SlwiShifts(n, 2);
    }
  }

  /** The greatest index left on the not-taken edge: N, or less if the register was already known to be less. */
  function Greatest(left: GprValue, n: Word): Word {
    if left.Range? then Min(left.max, n) else n
  }

  /** After the not-taken edge the index is at most that, and the base is as known as before. */
  lemma NotTakenRange(s: State, site: Site, compare: Ins, rX: Reg, rB: Reg, n: Word)
    requires ComparesWith(s, compare, rX, n)
    requires rB != rX && AddressOf(site, s.gpr[rB].value).Some?
    ensures var range := NotTaken(s, site, compare).gpr[rX].value;
            range.Range? && range.max == Greatest(s.gpr[rX].value, n)
    ensures NotTaken(s, site, compare).gpr[rB].value == s.gpr[rB].value
  {
    var c := Transfer(s, site, compare);
    assert c.cr[compare.crf] == Cr(s.gpr[rX].value, Constant(n), false);
    assert (4 * compare.crf + 1) / 4 == compare.crf && (4 * compare.crf + 1) % 4 == 1;
  }

  lemma ShiftedRange(s: State, site: Site, rX: Reg, rI: Reg, rB: Reg, k: Word)
    requires s.Valid() && s.gpr[rX].value.Range? && s.gpr[rX].value.max == k && rB != rI
    ensures var shifted := AfterShift(s, site, rX, rI);
            && shifted.gpr[rI].value.Range? && shifted.gpr[rI].value.max == BitAnd(Rotl(k, 2), Mask(0, 29))
            && shifted.gpr[rB].value == s.gpr[rB].value
  {
  }

  /** The table recovered has exactly one entry for each index up to the greatest, k, exactly when 0 < k < 2^30 - 1. */
  lemma IdiomSize(s: State, site: Site, compare: Ins, rX: Reg, rI: Reg, rB: Reg, rT: Reg, n: Word,
                  base: RelocationTarget)
    requires ComparesWith(s, compare, rX, n)
    requires rB != rX && rB != rI && AddressOf(site, s.gpr[rB].value) == Some(base)
    ensures var k := Greatest(s.gpr[rX].value, n);
            BranchToCtr(AfterIdiom(s, site, compare, rX, rI, rB, rT), site) == JumpTable(base, Some(4 * (k + 1)))
            <==> 0 < k < 0x4000_0000 - 1
  {
    var k := Greatest(s.gpr[rX].value, n);
    NotTakenRange(s, site, compare, rX, rB, n);
    ShiftedBound(k);
    ShiftedRange(NotTaken(s, site, compare), site, rX, rI, rB, k);
    var range := AfterShift(NotTaken(s, site, compare), site, rX, rI).gpr[rI].value;
    LoadSize(site, s.gpr[rB].value, range, base, AfterIdiom(s, site, compare, rX, rI, rB, rT), k);
  }

  lemma LoadSize(site: Site, baseValue: GprValue, range: GprValue, base: RelocationTarget, last: State, k: Word)
    requires AddressOf(site, baseValue) == Some(base) && range.Range?
    requires last.ctr == LoadValue(site, baseValue, range)
    requires k < 0x4000_0000 ==> range.max == 4 * k
    ensures BranchToCtr(last, site) == JumpTable(base, Some(4 * (k + 1))) <==> 0 < k < 0x4000_0000 - 1
  {
  }

  /** The index a machine has on the not-taken edge is no greater than the tracker's greatest. */
  lemma IndexBound(s: State, compare: Ins, rX: Reg, n: Word, m0: Machine, m1: Machine)
    requires Sound(s, m0) && ComparesWith(s, compare, rX, n)
    requires Executes(compare, m0, m1) && !Taken(12, 4 * compare.crf + 1, m1)
    ensures m0.gpr[rX] <= Greatest(s.gpr[rX].value, n) && m1.gpr == m0.gpr
  {
    var bi := 4 * compare.crf + 1;
    assert bi / 4 == compare.crf && bi % 4 == 1;
    assert Admits(s.gpr[rX].value, m0.gpr[rX]);
    assert compare.Cmpl? ==> Admits(s.gpr[compare.rb].value, m0.gpr[compare.rb]);
  }

  /** `slwi rI, rX, 2; lwzx rT, rB, rI; mtctr rT`: what ends up in the count register. */
  lemma LoadedTarget(rX: Reg, rI: Reg, rB: Reg, rT: Reg, index: Word, m1: Machine, m2: Machine, m3: Machine,
                     m4: Machine)
    requires m1.Valid() && m1.gpr[rX] == index < 0x4000_0000 && rB != rI
    requires Executes(Rlwinm(rI, rX, 2, 0, 29, false), m1, m2)
    requires Executes(Lwzx(rT, rB, rI), m2, m3)
    requires Executes(Mtspr(9, rT), m3, m4)
    ensures m2.gpr[rI] == 4 * index && m2.gpr[rB] == m1.gpr[rB] && m4.ctr == m2.word(Plus(Base(m2, rB), 4 * index))
  {
    ShiftedBound(index);
  }

  /**
   * Every machine run that reaches the `bctr` loaded its target from where the instruction reads, at the offset of
   * an entry of the table the tracker recovered. That is where the tracker's table has this entry exactly when rB
   * is not r0 or the base is zero: the instruction reads no register when rB is r0, but the tracker does.
   */
  lemma IdiomInBounds(s: State, site: Site, compare: Ins, rX: Reg, rI: Reg, rB: Reg, rT: Reg, n: Word,
                      base: SectionAddress,
                      m0: Machine, m1: Machine, m2: Machine, m3: Machine, m4: Machine)
    requires Sound(s, m0) && ComparesWith(s, compare, rX, n) && Greatest(s.gpr[rX].value, n) < 0x4000_0000 - 1
    requires rB != rX && rB != rI && site.reloc.None? && AddressOf(site, s.gpr[rB].value) == Some(Address(base))
    requires Executes(compare, m0, m1) && !Taken(12, 4 * compare.crf + 1, m1)
    requires Executes(Rlwinm(rI, rX, 2, 0, 29, false), m1, m2)
    requires Executes(Lwzx(rT, rB, rI), m2, m3)
    requires Executes(Mtspr(9, rT), m3, m4)
    ensures m2.gpr[rI] == 4 * m0.gpr[rX] < 4 * (Greatest(s.gpr[rX].value, n) + 1)
    ensures m4.ctr == m2.word(Plus(Base(m2, rB), m2.gpr[rI]))
    ensures Plus(Base(m2, rB), m2.gpr[rI]) == Plus(base.address, 4 * m0.gpr[rX]) <==> rB != 0 || base.address == 0
  {
    var index := m0.gpr[rX];
    IndexBound(s, compare, rX, n, m0, m1);
    LoadedTarget(rX, rI, rB, rT, index, m1, m2, m3, m4);
    assert Admits(s.gpr[rB].value, m0.gpr[rB]);
    BaseKnown(site, s.gpr[rB].value, base, m0.gpr[rB]);
    SameOffset(Base(m2, rB), base.address, 4 * index);
  }

  lemma SameOffset(a: Word, b: Word, offset: Word)
    ensures Plus(a, offset) == Plus(b, offset) <==> a == b
  {
  }

  lemma BaseKnown(site: Site, value: GprValue, base: SectionAddress, x: Word)
    requires site.reloc.None? && AddressOf(site, value) == Some(Address(base)) && Admits(value, x)
    ensures x == base.address
  {
  }
}
