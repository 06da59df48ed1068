/**
 * `link_relocations` of src/cmd/rel.rs, for one section: each relocation overwrites the bit field of a
 * big-endian word, as the System V ABI PowerPC Processor Supplement (chapter 4, "Relocation") lays them out.
 */
module LinkRelocations {
  import opened Wrappers
  import opened Words
  import opened Endian
  import opened OrderedKeys
  import opened PpcMachine
  import opened PpcVm

  datatype Kind = Absolute | Addr16Hi | Addr16Ha | Addr16Lo | Rel24 | Rel14 | EmbSda21 | X86

  /** A relocation with the address of its symbol and addend. */
  datatype Reloc = Reloc(kind: Kind, target: Word)

  function Hi(target: Word): Half {
    target / 0x1_0000
  }

  /** The sum wraps at the top of the address space. */
  function Ha(target: Word): Half {
    Plus(target, 0x8000) / 0x1_0000
  }

  function Lo(target: Word): Half {
    target % 0x1_0000
  }

  /** The field of `n` values from the bit worth `unit` up. */
  function Field(ins: Word, unit: nat, n: nat): nat
    requires unit > 0 && n > 0
  {
    ins / unit % n
  }

  /** The word with the field replaced: its other bits masked off, and the field's bits or-ed in. */
  function WithField(ins: Word, unit: nat, n: nat, value: nat): int
    requires unit > 0 && n > 0
  {
    ins - Field(ins, unit, n) * unit + value * unit
  }

  function Difference(target: Word, source: Word): int {
    AsSigned(Minus(target, source))
  }

  /** The word once the relocation is applied; an error if a branch does not reach. */
  function Applied(reloc: Reloc, source: Word, ins: Word): (r: Result<Word>)
  {
    match reloc.kind
    case Absolute => Success(reloc.target)
    case Addr16Hi => Success(ins - ins % 0x1_0000 + Hi(reloc.target))
    case Addr16Ha => Success(ins - ins % 0x1_0000 + Ha(reloc.target))
    case Addr16Lo => Success(ins - ins % 0x1_0000 + Lo(reloc.target))
    case Rel24 =>
      if !(-0x200_0000 <= Difference(reloc.target, source) < 0x200_0000) then Failure
      else
        var value := Minus(reloc.target, source) / 4 % 0x100_0000;
        FieldFits(ins, 0x100_0000, value);
        Success(WithField(ins, 4, 0x100_0000, value))
    case Rel14 =>
      if !(-0x2000 <= Difference(reloc.target, source) < 0x2000) then Failure
      else
        var value := Minus(reloc.target, source) / 4 % 0x4000;
        FieldFits(ins, 0x4000, value);
        Success(WithField(ins, 4, 0x4000, value))
    case _ => Success(ins)
  }

  /** Only a branch out of reach is an error; an absolute address is the whole word; the other kinds change nothing. */
  lemma AppliedIff(reloc: Reloc, source: Word, ins: Word)
    ensures var distance := AsSigned(Minus(reloc.target, source));
            Applied(reloc, source, ins).Failure? <==>
              || (reloc.kind == Rel24 && (distance < -0x200_0000 || distance >= 0x200_0000))
              || (reloc.kind == Rel14 && (distance < -0x2000 || distance >= 0x2000))
    ensures reloc.kind == Absolute ==> Applied(reloc, source, ins) == Success(reloc.target)
    ensures reloc.kind == EmbSda21 || reloc.kind == X86 ==> Applied(reloc, source, ins) == Success(ins)
  {
  }

  /** Whatever the field is set to, the word stays a word, and only the field changes. */
  lemma FieldFits(ins: Word, n: nat, value: nat)
    requires (n == 0x100_0000 || n == 0x4000) && value < n
    ensures var r := WithField(ins, 4, n, value);
            0 <= r <= MAX && r / (4 * n) == ins / (4 * n) && r % 4 == ins % 4 && Field(r, 4, n) == value
  {
    var low: int := ins % 4;
    if n == 0x4000 {
      var high: int := ins / 0x1_0000;
      assert ins == high * 0x1_0000 + Field(ins, 4, 0x4000) * 4 + low;
      Joined14(high, value, low);
    } else {
      var high: int := ins / 0x400_0000;
      assert ins == high * 0x400_0000 + Field(ins, 4, 0x100_0000) * 4 + low;
      Joined24(high, value, low);
    }
  }

  lemma Joined14(high: nat, value: nat, low: nat)
    requires value < 0x4000 && low < 4
    ensures var r := high * 0x1_0000 + value * 4 + low; r / 0x1_0000 == high && r % 4 == low && r / 4 % 0x4000 == value
  {
    var r := high * 0x1_0000 + value * 4 + low;
    assert r / 4 == high * 0x4000 + value;
  }

  lemma Joined24(high: nat, value: nat, low: nat)
    requires value < 0x100_0000 && low < 4
    ensures var r := high * 0x400_0000 + value * 4 + low;
            r / 0x400_0000 == high && r % 4 == low && r / 4 % 0x100_0000 == value
  {
    var r := high * 0x400_0000 + value * 4 + low;
    assert r / 4 == high * 0x100_0000 + value;
  }

  /** Where a branch with this displacement field goes. */
  function BranchTarget(field: nat, n: nat, source: Word): Word
    requires n > 0
  {
    Wrap(source + 4 * (if field < n / 2 then field else field - n))
  }

  /** A relocated branch goes to the target exactly when that is a whole number of instructions away. */
  lemma BranchReads(reloc: Reloc, source: Word, ins: Word)
    requires (reloc.kind == Rel24 || reloc.kind == Rel14) && Applied(reloc, source, ins).Success?
    ensures var n := if reloc.kind == Rel24 then 0x100_0000 else 0x4000; var r := Applied(reloc, source, ins).value;
            && (BranchTarget(Field(r, 4, n), n, source) == reloc.target <==> Difference(reloc.target, source) % 4 == 0)
            && r / (4 * n) == ins / (4 * n) && r % 4 == ins % 4
  {
    var n := if reloc.kind == Rel24 then 0x100_0000 else 0x4000;
    FieldFits(ins, n, Minus(reloc.target, source) / 4 % n);
    Displaced(reloc.target, source, n);
  }

  /** A branch at 0 that is relocated to go to address 2 does not go there. */
  lemma MisalignedFails(ins: Word)
    ensures var r := Applied(Reloc(Rel24, 2), 0, ins);
            r.Success? && BranchTarget(Field(r.value, 4, 0x100_0000), 0x100_0000, 0) != 2
  {
    TwoAway();
    BranchReads(Reloc(Rel24, 2), 0, ins);
  }

  lemma TwoAway()
    ensures Difference(2, 0) == 2
  {
  }

  lemma Displaced(target: Word, source: Word, n: nat)
    requires (n == 0x100_0000 || n == 0x4000) && -2 * n <= Difference(target, source) < 2 * n
    ensures BranchTarget(Minus(target, source) / 4 % n, n, source) == target <==> Difference(target, source) % 4 == 0
  {
    var d := Difference(target, source);
    DisplacementField(Minus(target, source), d, n);
    Reaches(target, source, d);
  }

  lemma DisplacementField(u: Word, d: int, n: nat)
    requires (n == 0x100_0000 || n == 0x4000) && d == AsSigned(u) && -2 * n <= d < 2 * n
    ensures var field := u / 4 % n; 4 * (if field < n / 2 then field else field - n) == d - d % 4
  {
    if d >= 0 {
      assert u / 4 < n / 2;
    } else {
      var q: int := d / 4;
      assert u / 4 == q + 0x4000_0000;
      if n == 0x4000 {
        assert u / 4 == (q + 0x4000) + 0xFFFF * 0x4000;
        assert u / 4 % 0x4000 == q + 0x4000;
      } else {
        assert u / 4 == (q + 0x100_0000) + 0x3F * 0x100_0000;
        assert u / 4 % 0x100_0000 == q + 0x100_0000;
      }
    }
  }

  lemma Reaches(target: Word, source: Word, d: int)
    requires d == AsSigned(Minus(target, source))
    ensures Wrap(source + (d - d % 4)) == target <==> d % 4 == 0
  {
    var m: int := d % 4;
    assert Wrap(source + d) == target by {
      var t: int, f: int := target, source;
      assert d == t - f || d == t - f + 0x1_0000_0000 || d == t - f - 0x1_0000_0000;
    }
    if m != 0 {
      WrapDiffers(source + d, m);
    }
  }

  lemma WrapDiffers(x: int, m: int)
    requires 0 < m < 4
    ensures Wrap(x - m) != Wrap(x)
  {
  }

  /** A 16-bit relocation sets the low half of the word and keeps the high one. */
  lemma HalfReads(reloc: Reloc, source: Word, ins: Word)
    requires reloc.kind == Addr16Hi || reloc.kind == Addr16Ha || reloc.kind == Addr16Lo
    ensures var r := Applied(reloc, source, ins).value;
            && r / 0x1_0000 == ins / 0x1_0000
            && r % 0x1_0000 == (match reloc.kind
                                 case Addr16Hi => Hi(reloc.target)
                                 case Addr16Ha => Ha(reloc.target)
                                 case _ => Lo(reloc.target))
  {
  }

  lemma HaLoAdd(target: Word)
    ensures Plus(Plus(0, Wrap(Sext(Ha(target)) * 0x1_0000)), Sext(Lo(target))) == target
  {
    ShiftedSext(Ha(target));
    HaIs(target / 0x1_0000, target % 0x1_0000);
    HaLoSum(target / 0x1_0000, target % 0x1_0000);
  }

  /** The half to which `addis` is given, from the two halves of the target. */
  function HaOf(high: Half, low: Half): Half {
    if low < 0x8000 then high else if high == 0xFFFF then 0 else high + 1
  }

  lemma HaIs(high: Half, low: Half)
    ensures Ha(high * 0x1_0000 + low) == HaOf(high, low)
  {
    var target: int := high * 0x1_0000 + low;
    if low < 0x8000 {
      assert (target + 0x8000) / 0x1_0000 == high;
    } else if high < 0xFFFF {
      assert (target + 0x8000) / 0x1_0000 == high + 1;
    }
  }

  lemma HaLoSum(high: Half, low: Half)
    ensures Plus(Plus(0, HaOf(high, low) * 0x1_0000), Sext(low)) == high * 0x1_0000 + low
  {
    WrapIs(HaOf(high, low) * 0x1_0000);
    if low < 0x8000 || high < 0xFFFF {
      WrapIs(high * 0x1_0000 + low);
    }
  }

  lemma WrapIs(x: int)
    requires 0 <= x < 0x1_0000_0000
    ensures Wrap(x) == x && Wrap(x + 0x1_0000_0000) == x
  {
  }

  lemma ShiftedSext(h: Half)
    ensures Wrap(Sext(h) * 0x1_0000) == h * 0x1_0000
  {
    if h >= 0x8000 {
      assert Sext(h) * 0x1_0000 == 0xFFFF * 0x1_0000_0000 + h * 0x1_0000;
    }
  }

  lemma {:induction false} OrDisjoint(x: nat, y: nat, k: nat)
    requires y < Pow2(k)
    ensures BitOr(x * Pow2(k), y) == x * Pow2(k) + y
  {
    if k == 0 {
      assert x * Pow2(0) == x;
    } else {
      var half := Pow2(k - 1);
      assert x * Pow2(k) == 2 * (x * half);
      OrDisjoint(x, y / 2, k - 1);
    }
  }

  lemma HiLoOr(target: Word)
    ensures OrWord(Wrap(Sext(Hi(target)) * 0x1_0000), Lo(target)) == target
  {
    ShiftedSext(Hi(target));
    Pow2Values();
    OrDisjoint(Hi(target), Lo(target), 16);
  }

  /**
   * `lis rD; addi rD, rD` with the fields of an @ha and an @l relocation: the tracker gets the target back, except
   * in r0, which `addi` reads as zero, unless the high half is zero anyway.
   */
  lemma HaLoReadBack(s: State, site: Site, rd: Reg, target: Word, ins1: Word, ins2: Word, at1: Word, at2: Word)
    requires s.Valid() && site.reloc.None?
    ensures var high, low := Applied(Reloc(Addr16Ha, target), at1, ins1).value,
              Applied(Reloc(Addr16Lo, target), at2, ins2).value;
            var last := Transfer(Transfer(s, site, Addis(rd, 0, high % 0x1_0000)), site, Addi(rd, rd, low % 0x1_0000));
            last.gpr[rd].value == Constant(target) <==> rd != 0 || Ha(target) == 0
  {
    HalfReads(Reloc(Addr16Ha, target), at1, ins1);
    HalfReads(Reloc(Addr16Lo, target), at2, ins2);
    HaLoAdd(target);
    LoAlone(target / 0x1_0000, target % 0x1_0000);
    HaIs(target / 0x1_0000, target % 0x1_0000);
  }

  /** The low half alone, sign-extended, is the target exactly if the high half with its carry is zero. */
  lemma LoAlone(high: Half, low: Half)
    ensures Plus(0, Sext(low)) == high * 0x1_0000 + low <==> HaOf(high, low) == 0
  {
    WrapIs(Sext(low));
  }

  /** `lis rD; ori rD, rD` with the fields of an @h and an @l relocation. */
  lemma HiLoReadBack(s: State, site: Site, rd: Reg, target: Word, ins1: Word, ins2: Word, at1: Word, at2: Word)
    requires s.Valid() && site.reloc.None?
    ensures var high, low := Applied(Reloc(Addr16Hi, target), at1, ins1).value,
              Applied(Reloc(Addr16Lo, target), at2, ins2).value;
            Transfer(Transfer(s, site, Addis(rd, 0, high % 0x1_0000)), site,
                     Ori(rd, rd, low % 0x1_0000)).gpr[rd].value == Constant(target)
  {
    HalfReads(Reloc(Addr16Hi, target), at1, ins1);
    HalfReads(Reloc(Addr16Lo, target), at2, ins2);
    ShiftedSext(Hi(target));
    HiLoOr(target);
  }

  /** A big-endian word of the section. */
  function WordAt(d: Bytes, o: nat): Word
    requires o + 4 <= |d|
  {
    Limits(); ValueBelow(Reversed(d[o..o + 4]), 4);
    Value(Reversed(d[o..o + 4]))
  }

  function Reversed(s: Bytes): (r: Bytes)
    requires |s| == 4
    ensures |r| == 4
  {
    [s[3], s[2], s[1], s[0]]
  }

  /** `to_be_bytes` written over the word. */
  method WriteWord(data: array<Byte>, o: nat, v: Word)
    requires o + 4 <= data.Length
    modifies data
    ensures WordAt(data[..], o) == v
    ensures forall k | 0 <= k < data.Length && !(o <= k < o + 4) :: data[k] == old(data[k])
  {
    var bytes := Reversed(Lowest(v, 4));
    data[o], data[o + 1], data[o + 2], data[o + 3] := bytes[0], bytes[1], bytes[2], bytes[3];
    assert data[..][o..o + 4] == bytes;
    Limits(); LowestValue(v, 4);
    assert Reversed(bytes) == Lowest(v, 4);
  }

  lemma WordSame(d: Bytes, d': Bytes, o: nat)
    requires |d| == |d'| && o + 4 <= |d| && forall k | o <= k < o + 4 :: d'[k] == d[k]
    ensures WordAt(d', o) == WordAt(d, o)
  {
    assert d'[o..o + 4] == d[o..o + 4];
  }

  /** The sites are words of the section, four apart. */
  ghost predicate Aligned(relocs: map<int, Reloc>, base: int, length: int) {
    forall s | s in relocs :: 0 <= s <= MAX && base <= s && s - base + 4 <= length && (s - base) % 4 == 0
  }

  /** The site's word is relocated. */
  ghost predicate Linked(d: Bytes, d': Bytes, relocs: map<int, Reloc>, base: int, s: int) {
    && s in relocs && 0 <= s <= MAX && 0 <= s - base && s - base + 4 <= |d| == |d'|
    && Applied(relocs[s], s, WordAt(d, s - base)) == Success(WordAt(d', s - base))
  }

  ghost predicate InSite(relocs: map<int, Reloc>, base: int, k: int) {
    exists s :: s in relocs && s - base <= k < s - base + 4
  }

  /** Every site is relocated and no other byte of the section changes; an error if some branch does not reach. */
  method LinkSection(data: array<Byte>, base: int, relocs: map<int, Reloc>) returns (ok: bool)
    requires Aligned(relocs, base, data.Length)
    modifies data
    ensures ok ==> forall s | s in relocs :: Linked(old(data[..]), data[..], relocs, base, s)
    ensures ok ==> forall k | 0 <= k < data.Length && !InSite(relocs, base, k) :: data[k] == old(data[k])
    ensures !ok ==> exists s :: s in relocs && Unreached(old(data[..]), relocs, base, s)
  {
    ghost var d := data[..];
    var next := Ceiling(relocs.Keys, base);
    while next.Some?
      invariant next.Some? ==> next.value in relocs
      invariant LinkedUpto(d, data[..], relocs, base, next)
      decreases if next.Some? then Greatest(relocs.Keys) - next.value + 1 else 0
    {
      var s := next.value;
      ghost var before := data[..];
      ok := LinkSite(data, base, s, relocs[s]);
      ReadsOriginal(d, before, relocs, base, s);
      if !ok {
        assert Unreached(d, relocs, base, s);
        return;
      }
      NextLinked(d, before, data[..], relocs, base, s);
      next := Ceiling(relocs.Keys, s + 1);
    }
    AllLinked(d, data[..], relocs, base);
    ok := true;
  }

  /** Relocates the word at one site, or leaves the section as it is. */
  method LinkSite(data: array<Byte>, base: int, s: int, reloc: Reloc) returns (ok: bool)
    requires 0 <= s <= MAX && 0 <= s - base && s - base + 4 <= data.Length
    modifies data
    ensures ok ==> Applied(reloc, s, WordAt(old(data[..]), s - base)) == Success(WordAt(data[..], s - base))
    ensures !ok ==> Applied(reloc, s, WordAt(old(data[..]), s - base)).Failure? && data[..] == old(data[..])
    ensures forall k | 0 <= k < data.Length && !(s - base <= k < s - base + 4) :: data[..][k] == old(data[..])[k]
  {
    var word := Applied(reloc, s, WordAt(data[..], s - base));
    ok := word.Success?;
    if ok {
      WriteWord(data, s - base, word.value);
    }
  }

  ghost predicate Unreached(d: Bytes, relocs: map<int, Reloc>, base: int, s: int) {
    s in relocs && 0 <= s <= MAX && 0 <= s - base && s - base + 4 <= |d|
        && Applied(relocs[s], s, WordAt(d, s - base)).Failure?
  }

  /** The sites below `next` are relocated; past them, and outside all sites, the bytes are the original's. */
  ghost predicate LinkedUpto(d: Bytes, now: Bytes, relocs: map<int, Reloc>, base: int, next: Option<int>) {
    && |now| == |d|
    && (forall s | s in relocs && (next.None? || s < next.value) :: Linked(d, now, relocs, base, s))
    && (forall k {:trigger now[k]} | 0 <= k < |d|
        && (!InSite(relocs, base, k) || (next.Some? && next.value - base <= k)) :: now[k] == d[k])
  }

  lemma ReadsOriginal(d: Bytes, now: Bytes, relocs: map<int, Reloc>, base: int, s: int)
    requires Aligned(relocs, base, |d|) && s in relocs && LinkedUpto(d, now, relocs, base, Some(s))
    ensures 0 <= s - base && s - base + 4 <= |d| && WordAt(now, s - base) == WordAt(d, s - base)
  {
    WordSame(d, now, s - base);
  }

  lemma AllLinked(d: Bytes, now: Bytes, relocs: map<int, Reloc>, base: int)
    requires LinkedUpto(d, now, relocs, base, None)
    ensures forall s | s in relocs :: Linked(d, now, relocs, base, s)
    ensures forall k | 0 <= k < |d| && !InSite(relocs, base, k) :: now[k] == d[k]
  {
  }

  lemma NextLinked(d: Bytes, before: Bytes, after: Bytes, relocs: map<int, Reloc>, base: int, s: int)
    requires Aligned(relocs, base, |d|) && s in relocs && LinkedUpto(d, before, relocs, base, Some(s))
    requires |after| == |d| && forall k | 0 <= k < |d| && !(s - base <= k < s - base + 4) :: after[k] == before[k]
    requires Linked(d, after, relocs, base, s)
    ensures LinkedUpto(d, after, relocs, base, Ceiling(relocs.Keys, s + 1))
  {
    StillLinked(d, before, after, relocs, base, s);
    StillOriginal(d, before, after, relocs, base, s, Ceiling(relocs.Keys, s + 1));
  }

  lemma StillLinked(d: Bytes, before: Bytes, after: Bytes, relocs: map<int, Reloc>, base: int, s: int)
    requires |d| == |before| == |after| && Aligned(relocs, base, |d|) && s in relocs
    requires forall k | 0 <= k < |d| && !(s - base <= k < s - base + 4) :: after[k] == before[k]
    requires forall t | t in relocs && t < s :: Linked(d, before, relocs, base, t)
    requires Linked(d, after, relocs, base, s)
    ensures forall t | t in relocs && t <= s :: Linked(d, after, relocs, base, t)
  {
    forall t | t in relocs && t < s ensures Linked(d, after, relocs, base, t) {
      FourApart(t - base, s - base);
      WordSame(before, after, t - base);
    }
  }

  lemma StillOriginal(d: Bytes, before: Bytes, after: Bytes, relocs: map<int, Reloc>, base: int, s: int,
                      next: Option<int>)
    requires |d| == |before| == |after| && Aligned(relocs, base, |d|) && s in relocs
    requires next.Some? ==> next.value in relocs && s < next.value
    requires forall k | 0 <= k < |d| && !(s - base <= k < s - base + 4) :: after[k] == before[k]
    requires forall k {:trigger before[k]} | 0 <= k < |d| && (!InSite(relocs, base, k) || s - base <= k) ::
               before[k] == d[k]
    ensures forall k | 0 <= k < |d| && (!InSite(relocs, base, k) || (next.Some? && next.value - base <= k)) ::
              after[k] == d[k]
  {
    if next.Some? {
      FourApart(s - base, next.value - base);
    }
  }

  lemma FourApart(a: int, b: int)
    requires a < b && a % 4 == 0 && b % 4 == 0
    ensures a + 4 <= b
  {
  }
}
