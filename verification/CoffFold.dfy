/**
 * The folding of COMDAT leaders by `fold` in src/cmd/coff.rs: a definition whose name the symbols file
 * places outside the unit becomes a reference, or a second name for the function it was folded onto.
 */
module CoffFolding {
  import opened Wrappers
  import opened Words
  import opened Endian
  import opened OrderedKeys
  import opened CoffFormat

  const EXTERNAL: Byte := 2
  const STATIC: Byte := 3
  const LABEL: Byte := 6
  const COMDAT_BIT: nat := 12
  const REMOVE_BIT: nat := 11

  /** One line of the symbols file, and what is kept of it per name. */
  datatype Line = Line(name: Bytes, address: Word, alias: bool, local: bool)
  datatype FoldSymbol = FoldSymbol(address: Word, alias: bool, local: bool)

  /** `by_name`, `primary_at` and the unit's ranges. */
  datatype Symbols = Symbols(byName: map<Bytes, seq<FoldSymbol>>, primaryAt: map<Word, Bytes>,
                             ranges: seq<(Word, Word)>) {
    predicate Inside(a: Word) {
      exists i :: 0 <= i < |ranges| && ranges[i].0 <= a < ranges[i].1
    }

    /** The unit's own definition: a non-alias entry inside it. */
    predicate Own(entries: seq<FoldSymbol>) {
      exists i :: 0 <= i < |entries| && !entries[i].alias && Inside(entries[i].address)
    }

    /** The first alias entry inside the unit. */
    function AliasInside(entries: seq<FoldSymbol>): (r: Option<FoldSymbol>)
      ensures r.Some? ==> r.value in entries && r.value.alias && Inside(r.value.address)
      ensures r.None? ==> forall e | e in entries :: !(e.alias && Inside(e.address))
    {
      if entries == [] then None
      else if entries[0].alias && Inside(entries[0].address) then Some(entries[0])
      else AliasInside(entries[1..])
    }

    predicate StaticMayFold(entries: seq<FoldSymbol>) {
      exists i :: 0 <= i < |entries| && entries[i].alias && (Inside(entries[i].address) || !entries[i].local)
    }

    /** The name at each primary address is one of the unit's own when the address lies inside. */
    ghost predicate Primaries() {
      forall a | a in primaryAt && Inside(a) :: primaryAt[a] in byName && Own(byName[primaryAt[a]])
    }
  }

  /** Reading the symbols file: names gather their entries, the first non-alias name at an address is primary. */
  method ReadSymbols(lines: seq<Line>, ranges: seq<(Word, Word)>) returns (r: Symbols)
    ensures r.Primaries() && r.ranges == ranges
    ensures NamesGathered(lines, r.byName) && PrimariesGathered(lines, r.primaryAt)
  {
    var byName: map<Bytes, seq<FoldSymbol>>, primaryAt: map<Word, Bytes> := map[], map[];
    for i := 0 to |lines|
      invariant NamesGathered(lines[..i], byName) && PrimariesGathered(lines[..i], primaryAt)
    {
      var line := lines[i];
      assert lines[..i + 1] == lines[..i] + [line];
      GatherNext(lines[..i], line, byName, primaryAt);
      if !line.alias && line.address !in primaryAt {
        primaryAt := primaryAt[line.address := line.name];
      }
      byName := byName[line.name := Lookup(byName, line.name) + [FoldSymbol(line.address, line.alias, line.local)]];
    }
    assert lines[..|lines|] == lines;
    r := Symbols(byName, primaryAt, ranges);
    GatheredPrimaries(lines, r);
  }

  function Lookup(byName: map<Bytes, seq<FoldSymbol>>, name: Bytes): seq<FoldSymbol> {
    if name in byName then byName[name] else []
  }

  ghost predicate NamesGathered(lines: seq<Line>, byName: map<Bytes, seq<FoldSymbol>>) {
    forall name :: Lookup(byName, name) == EntriesOf(lines, name) && (name in byName ==> byName[name] != [])
  }

  ghost predicate PrimariesGathered(lines: seq<Line>, primaryAt: map<Word, Bytes>) {
    forall a :: FirstPrimary(lines, a) == if a in primaryAt then Some(primaryAt[a]) else None
  }

  lemma GatherNext(lines: seq<Line>, line: Line, byName: map<Bytes, seq<FoldSymbol>>, primaryAt: map<Word, Bytes>)
    requires NamesGathered(lines, byName) && PrimariesGathered(lines, primaryAt)
    ensures NamesGathered(lines + [line],
                          byName[line.name := Lookup(byName, line.name) +
                                               [FoldSymbol(line.address, line.alias, line.local)]])
    ensures PrimariesGathered(lines + [line],
                              if !line.alias && line.address !in primaryAt then primaryAt[line.address := line.name]
                                  else primaryAt)
  {
    assert (lines + [line])[..|lines|] == lines;
    forall name ensures EntriesOf(lines + [line], name) ==
                        EntriesOf(lines, name) + if line.name == name
                            then [FoldSymbol(line.address, line.alias, line.local)] else [] {
    }
  }

  lemma GatheredPrimaries(lines: seq<Line>, symbols: Symbols)
    requires NamesGathered(lines, symbols.byName) && PrimariesGathered(lines, symbols.primaryAt)
    ensures symbols.Primaries()
  {
    forall a | a in symbols.primaryAt && symbols.Inside(a)
      ensures symbols.primaryAt[a] in symbols.byName && symbols.Own(symbols.byName[symbols.primaryAt[a]])
    {
      assert FirstPrimary(lines, a) == Some(symbols.primaryAt[a]);
      var i := PrimaryLine(lines, a, symbols.primaryAt[a]);
      assert Lookup(symbols.byName, symbols.primaryAt[a])[i].address == a;
    }
  }

  ghost function EntriesOf(lines: seq<Line>, name: Bytes): seq<FoldSymbol> {
    if lines == [] then [] else
      var line := lines[|lines| - 1];
      EntriesOf(lines[..|lines| - 1], name) + if line.name == name
          then [FoldSymbol(line.address, line.alias, line.local)] else []
  }

  ghost function FirstPrimary(lines: seq<Line>, a: Word): Option<Bytes> {
    if lines == [] then None else
      var line := lines[|lines| - 1];
      var before := FirstPrimary(lines[..|lines| - 1], a);
      if before.None? && !line.alias && line.address == a then Some(line.name) else before
  }

  lemma {:induction false} PrimaryLine(lines: seq<Line>, a: Word, name: Bytes) returns (i: nat)
    requires FirstPrimary(lines, a) == Some(name)
    ensures i < |EntriesOf(lines, name)| && !EntriesOf(lines, name)[i].alias && EntriesOf(lines, name)[i].address == a
  {
    var front := lines[..|lines| - 1];
    if FirstPrimary(front, a).None? {
      i := |EntriesOf(front, name)|;
    } else {
      i := PrimaryLine(front, a, name);
    }
  }

  /** A function or data definition: external, or a static function. */
  predicate IsDefinition(r: Rec) {
    r.section > 0 && (r.storage == EXTERNAL || (r.storage == STATIC && (r.kind / 0x10) % 4 == 2))
  }

  /** `defined`: the last definition of each name. */
  function Defined(recs: seq<Rec>): map<Bytes, (Word, int)> {
    if recs == [] then map[] else
      var r := recs[|recs| - 1];
      if IsDefinition(r) then Defined(recs[..|recs| - 1])[r.name := (r.value, r.section)]
          else Defined(recs[..|recs| - 1])
  }

  /** `leader`: the first definition of each section, by its offset. */
  function Leaders(recs: seq<Rec>): map<int, nat> {
    if recs == [] then map[] else
      var r, before := recs[|recs| - 1], Leaders(recs[..|recs| - 1]);
      if IsDefinition(r) && r.section !in before then before[r.section := r.off] else before
  }

  datatype Fate = Keep | Alias(value: Word, section: int) | FoldOut

  /** What becomes of a record: each branch of the loop over the records. */
  function FateOf(d: Bytes, nsec: nat, symbols: Symbols, defined: map<Bytes, (Word, int)>, leader: map<int, nat>,
                  r: Rec): Result<Fate>
    requires 20 + 40 * nsec <= |d|
  {
    if r.section <= 0 || r.section !in leader || leader[r.section] != r.off || r.name == [] then Success(Keep)
    else if r.name !in symbols.byName then Success(Keep)
    else
      var entries := symbols.byName[r.name];
      if symbols.Own(entries) then Success(Keep)
      else if r.storage == STATIC && !symbols.StaticMayFold(entries) then Success(Keep)
      else if r.section > nsec then Failure
      else if !BitAt(SectionChars(d, r.section), COMDAT_BIT) then Success(Keep)
      else
        match symbols.AliasInside(entries)
        case None => Success(FoldOut)
        case Some(entry) =>
          if entry.address !in symbols.primaryAt then Failure
          else if symbols.primaryAt[entry.address] !in defined then Failure
          else var (pvalue, psection) := defined[symbols.primaryAt[entry.address]]; Success(Alias(pvalue, psection))
  }

  function Relabel(storage: Byte, other: Byte): Byte {
    if storage == STATIC then other else storage
  }

  /** The record as its fate leaves it. */
  function Folded(r: Rec, fate: Fate): Rec {
    match fate
    case Keep => r
    case Alias(value, section) => r.(value := value, section := section, storage := Relabel(r.storage, LABEL))
    case FoldOut => r.(value := 0, section := 0, storage := Relabel(r.storage, EXTERNAL))
  }

  /** Everything the fates are decided by, as it was before the folding. */
  datatype Before = Before(d: Bytes, layout: Layout, symbols: Symbols, recs: seq<Rec>) {
    ghost predicate Valid() {
      && layout.Fits(d)
      && Spaced(recs, layout.symoff, layout.Stroff()) && ReadsAs(d, layout.Stroff(), recs)
    }

    function Fate(r: Rec): Result<Fate>
      requires layout.Fits(d)
    {
      FateOf(d, layout.nsec, symbols, Defined(recs), Leaders(recs), r)
    }
  }

  lemma {:induction false} DefinedInRange(recs: seq<Rec>, name: Bytes)
    requires name in Defined(recs) && forall i | 0 <= i < |recs| :: recs[i].section < 0x8000
    ensures 0 < Defined(recs)[name].1 < 0x8000
  {
    var last := recs[|recs| - 1];
    if !(IsDefinition(last) && last.name == name) {
      DefinedInRange(recs[..|recs| - 1], name);
    }
  }

  lemma AliasInRange(before: Before, r: Rec)
    requires before.Valid() && before.Fate(r).Success?
    ensures before.Fate(r).value.Alias? ==> 0 < before.Fate(r).value.section < 0x8000
  {
    if !before.Fate(r).value.Alias? {
      return;
    }
    var entry := before.symbols.AliasInside(before.symbols.byName[r.name]).value;
    SectionsInRange(before.d, before.layout.Stroff(), before.recs);
    DefinedInRange(before.recs, before.symbols.primaryAt[entry.address]);
  }

  /** The records of an object, each with its fate; the symbol table is from `symoff` to `stroff`. */
  datatype Plan = Plan(recs: seq<Rec>, fates: seq<Fate>, symoff: nat, stroff: nat) {
    ghost predicate Valid() {
      && |fates| == |recs| && symoff <= stroff && Spaced(recs, symoff, stroff)
      && forall i | 0 <= i < |fates| && fates[i].Alias? :: 0 < fates[i].section < 0x8000
    }

    function PatchOf(i: nat): (p: Patch)
      requires i < |fates| == |recs| && (fates[i].Alias? ==> 0 < fates[i].section < 0x8000)
      ensures p.Valid() && p.off == recs[i].off && (p.bytes.Some? <==> fates[i] != Keep)
    {
      Patch(recs[i].off, if fates[i].Keep? then None else Some(Encoded(Folded(recs[i], fates[i]))))
    }

    ghost function Patches(n: nat): (patches: seq<Patch>)
      requires Valid() && n <= |recs|
      ensures |patches| == n && Disjoint(patches, symoff, stroff)
      ensures forall i | 0 <= i < n :: patches[i] == PatchOf(i)
    {
      seq(n, i requires 0 <= i < n => PatchOf(i))
    }

    /** The object once the first `n` records have met their fates. */
    ghost predicate FoldedFirst(d: Bytes, n: nat, d': Bytes)
      requires Valid() && n <= |recs|
    {
      |d'| == |d| && forall k | 0 <= k < |d| :: d'[k] == ByteAfter(d, Patches(n), k)
    }

    lemma PatchesNext(n: nat)
      requires Valid() && n < |recs|
      ensures Patches(n + 1) == Patches(n) + [PatchOf(n)] && Patches(n + 1)[..n] == Patches(n)
    {
    }

    lemma FoldedNext(d: Bytes, n: nat, was: Bytes, d': Bytes)
      requires Valid() && n < |recs| && FoldedFirst(d, n, was) && |d'| == |d|
      requires forall k | 0 <= k < |d| :: d'[k] == if PatchOf(n).Covers(k) then PatchOf(n).At(k) else was[k]
      ensures FoldedFirst(d, n + 1, d')
    {
      PatchesNext(n);
    }

    lemma HeadersKept(d: Bytes, n: nat, d': Bytes)
      requires Valid() && n <= |recs| && stroff <= |d| && FoldedFirst(d, n, d')
      ensures forall k | 0 <= k < symoff :: d'[k] == d[k]
    {
      forall k | 0 <= k < symoff ensures d'[k] == d[k] {
        ByteUntouched(d, Patches(n), k);
      }
    }

    /** A record not yet folded still has its own bytes. */
    lemma NotYetFolded(d: Bytes, n: nat, was: Bytes, k: nat)
      requires Valid() && n < |recs| && stroff <= |d| && FoldedFirst(d, n, was)
      requires recs[n].off <= k < recs[n].off + 18
      ensures was[k] == d[k]
    {
      forall i | 0 <= i < n ensures !Patches(n)[i].Covers(k) {
        assert recs[i].off + 18 <= recs[n].off;
      }
      ByteUntouched(d, Patches(n), k);
    }

    /** After the folding each record reads as its fate says, its name as before. */
    lemma FoldReads(d: Bytes, d': Bytes, j: nat)
      requires Valid() && stroff <= |d| && ReadsAs(d, stroff, recs) && j < |recs| && FoldedFirst(d, |recs|, d')
      ensures FieldsRead(d', Folded(recs[j], fates[j])) && SymName(d', stroff, recs[j].off) == recs[j].name
    {
      var o := recs[j].off;
      FoldNames(d, d', j);
      ReadsAsAt(d, stroff, recs, j);
      assert Read16(d', o + 14) == Read16(d, o + 14) by {
        FoldElsewhere(d, d', j, o + 14);
        FoldElsewhere(d, d', j, o + 15);
        Read16Same(d, d', o + 14);
      }
      if fates[j] == Keep {
        FoldKept(d, d', j);
      } else {
        FoldHere(d, d', j);
      }
    }

    lemma FoldNames(d: Bytes, d': Bytes, j: nat)
      requires Valid() && stroff <= |d| && j < |recs| && FoldedFirst(d, |recs|, d')
      ensures SymName(d', stroff, recs[j].off) == SymName(d, stroff, recs[j].off)
    {
      var o := recs[j].off;
      forall k | o <= k < o + 8 || stroff <= k < |d| ensures d'[k] == d[k] {
        FoldElsewhere(d, d', j, k);
      }
      NameSame(d, d', stroff, o);
    }

    lemma FoldKept(d: Bytes, d': Bytes, j: nat)
      requires Valid() && stroff <= |d| && ReadsAs(d, stroff, recs) && j < |recs| && FoldedFirst(d, |recs|, d')
               && fates[j] == Keep
      ensures FieldsRead(d', recs[j])
    {
      var o := recs[j].off;
      ReadsAsAt(d, stroff, recs, j);
      forall k | o <= k < o + 18 ensures d'[k] == d[k] {
        FoldElsewhere(d, d', j, k);
      }
      Read32Same(d, d', o + 8);
      Read16Same(d, d', o + 12);
      Read16Same(d, d', o + 14);
    }

    lemma FoldElsewhere(d: Bytes, d': Bytes, j: nat, k: nat)
      requires Valid() && stroff <= |d| && j < |recs| && FoldedFirst(d, |recs|, d') && k < |d|
      requires stroff <= k || (recs[j].off <= k < recs[j].off + 18 && !PatchOf(j).Covers(k))
      ensures d'[k] == d[k]
    {
      ByteBeside(d, Patches(|recs|), symoff, stroff, j, k);
    }

    lemma FoldHere(d: Bytes, d': Bytes, j: nat)
      requires Valid() && stroff <= |d| && j < |recs| && FoldedFirst(d, |recs|, d') && fates[j] != Keep
      requires Read16(d', recs[j].off + 14) == recs[j].kind
      ensures FieldsRead(d', Folded(recs[j], fates[j]))
    {
      var r := Folded(recs[j], fates[j]);
      var bytes := Encoded(r);
      assert Patches(|recs|)[j] == Patch(r.off, Some(bytes));
      BytesTouched(d, d', Patches(|recs|), symoff, stroff, j, r.off, bytes);
      EncodedReadBack(d', r, bytes);
    }
  }

  /** The fates of all the records; where one is an error, the folding stops there. */
  ghost function FatesOf(before: Before): (fates: seq<Result<Fate>>)
    requires before.layout.Fits(before.d)
    ensures |fates| == |before.recs|
  {
    FirstFates(before, |before.recs|)
  }

  ghost function FirstFates(before: Before, n: nat): (fates: seq<Result<Fate>>)
    requires before.layout.Fits(before.d) && n <= |before.recs|
    ensures |fates| == n
  {
    if n == 0 then [] else FirstFates(before, n - 1) + [before.Fate(before.recs[n - 1])]
  }

  lemma {:induction false} FatesAt(before: Before, n: nat, i: nat)
    requires before.layout.Fits(before.d) && i < n <= |before.recs|
    ensures FirstFates(before, n)[i] == before.Fate(before.recs[i])
  {
    if i < n - 1 {
      FatesAt(before, n - 1, i);
    }
  }

  ghost predicate AllSuccess(fates: seq<Result<Fate>>, n: nat)
    requires n <= |fates|
  {
    forall i | 0 <= i < n :: fates[i].Success?
  }

  function Values(fates: seq<Result<Fate>>): (values: seq<Fate>)
    ensures |values| == |fates|
    ensures forall i | 0 <= i < |fates| :: values[i] == if fates[i].Success? then fates[i].value else Keep
  {
    seq(|fates|, i requires 0 <= i < |fates| => if fates[i].Success? then fates[i].value else Keep)
  }

  ghost function PlanOf(before: Before): (plan: Plan)
    requires before.layout.Fits(before.d)
    ensures plan.recs == before.recs && plan.fates == Values(FatesOf(before))
    ensures plan.symoff == before.layout.symoff && plan.stroff == before.layout.Stroff()
  {
    Plan(before.recs, Values(FatesOf(before)), before.layout.symoff, before.layout.Stroff())
  }

  lemma PlanIsValid(before: Before)
    requires before.Valid()
    ensures PlanOf(before).Valid()
  {
    forall i | 0 <= i < |before.recs| && Values(FatesOf(before))[i].Alias?
      ensures 0 < Values(FatesOf(before))[i].section < 0x8000 {
      FatesAt(before, |before.recs|, i);
      AliasInRange(before, before.recs[i]);
    }
  }

  /** The sections of the first `n` records that are folded. */
  ghost function FoldedSections(recs: seq<Rec>, fates: seq<Fate>, n: nat): set<int>
    requires n <= |fates| == |recs|
  {
    set i | 0 <= i < n && fates[i] != Keep :: recs[i].section
  }

  class Folding {
    const layout: Layout
    const symbols: Symbols
    var data: Bytes
    var removed: set<int>

    constructor (data: Bytes, layout: Layout, symbols: Symbols)
      ensures this.data == data && this.layout == layout && this.symbols == symbols && removed == {}
    {
      this.data, this.layout, this.symbols, removed := data, layout, symbols, {};
    }

    /** Overwrites the value and section of a record, and its storage class if that changes. */
    method WriteRecord(off: nat, bytes: Bytes, relabel: bool)
      requires off + 18 <= |data| && |bytes| == 7 && (relabel || data[off + 16] == bytes[6])
      modifies this`data
      ensures |data| == |old(data)|
      ensures forall k | 0 <= k < |data| ::
                data[k] == if Patch(off, Some(bytes)).Covers(k) then Patch(off, Some(bytes)).At(k) else old(data)[k]
    {
      data := Put(data, off + 8, bytes[..4]);
      data := Put(data, off + 12, bytes[4..6]);
      if relabel {
        data := data[off + 16 := bytes[6]];
      }
    }

    /** Reads the symbol table, folds the leaders, closes the removed sections and marks them. */
    method Fold() returns (ok: bool, recs: seq<Rec>, assocParent: map<int, int>)
      requires layout.Fits(data) && TableSound(data, layout, 0) && removed == {}
      modifies this
      ensures recs == RecordsFrom(old(data), layout, 0) && assocParent == Associations(old(data), recs)
      ensures Before(old(data), layout, symbols, recs).Valid()
              && PlanOf(Before(old(data), layout, symbols, recs)).Valid()
      ensures var before := Before(old(data), layout, symbols, recs);
              && (AllSuccess(FatesOf(before), |recs|) ==> IsRemoved(before, assocParent, removed))
              && (ok <==> AllSuccess(FatesOf(before), |recs|) && InFile(old(data), removed))
              && (ok ==> Written(before, removed, data))
              && (ok && InHeaders(layout, removed) ==> FoldResult(before, assocParent, removed, data))
    {
      recs, assocParent := ReadRecords(data, layout);
      RecordsSpaced(data, layout, 0, recs);
      ghost var before := Before(data, layout, symbols, recs);
      ok := FoldLeaders(recs);
      if ok {
        ghost var folded, mid := removed, data;
        PlanOf(before).HeadersKept(before.d, |recs|, data);
        removed := CloseRemoved(assocParent, removed);
        AssociationsPositive(before.d, recs);
        RemovedPositive(before, assocParent, folded, removed);
        ok := MarkRemoved();
        assert ok ==> WrittenVia(before, removed, mid, data);
        if ok && InHeaders(layout, removed) {
          FoldedResult(before, assocParent, removed, mid, data);
        }
      }
    }

    /** The loop over the records: folds each leader that the symbols file places elsewhere. */
    method FoldLeaders(recs: seq<Rec>) returns (ok: bool)
      requires Before(data, layout, symbols, recs).Valid() && removed == {}
      modifies this
      ensures var before := Before(old(data), layout, symbols, recs);
              && before.Valid() && PlanOf(before).Valid()
              && (ok <==> AllSuccess(FatesOf(before), |recs|))
              && (ok ==> PlanOf(before).FoldedFirst(old(data), |recs|, data) &&
                         removed == FoldedSections(recs, PlanOf(before).fates, |recs|))
    {
      var defined, leader := Defined(recs), Leaders(recs);
      ghost var before := Before(data, layout, symbols, recs);
      ghost var plan, fates := PlanOf(before), FatesOf(before);
      PlanIsValid(before);
      ok := true;
      for i := 0 to |recs|
        invariant ok && AllSuccess(fates, i)
        invariant plan.FoldedFirst(before.d, i, data)
        invariant removed == FoldedSections(recs, plan.fates, i)
      {
        ok := FoldNext(recs[i], defined, leader, before, plan, i);
        if !ok {
          return;
        }
      }
    }

    /** One turn of the loop: decides the record's fate and folds it, or fails. */
    method FoldNext(r: Rec, defined: map<Bytes, (Word, int)>, leader: map<int, nat>, ghost before: Before,
                    ghost plan: Plan, ghost i: nat)
      returns (ok: bool)
      requires before.Valid() && before.layout == layout && before.symbols == symbols && plan == PlanOf(before)
               && plan.Valid()
      requires i < |before.recs| && r == before.recs[i] && defined == Defined(before.recs)
               && leader == Leaders(before.recs)
      requires plan.FoldedFirst(before.d, i, data) && removed == FoldedSections(before.recs, plan.fates, i)
      modifies this
      ensures ok <==> FatesOf(before)[i].Success?
      ensures ok ==>
                && plan.FoldedFirst(before.d, i + 1, data)
                && removed == FoldedSections(before.recs, plan.fates, i + 1)
    {
      var fate := Decide(r, defined, leader, before, plan, i);
      ok := fate.Success?;
      if ok {
        FoldOne(r, fate.value, plan, before.d, i);
      }
    }

    method Decide(r: Rec, defined: map<Bytes, (Word, int)>, leader: map<int, nat>, ghost before: Before,
                  ghost plan: Plan, ghost i: nat)
      returns (fate: Result<Fate>)
      requires before.Valid() && before.layout == layout && before.symbols == symbols && plan == PlanOf(before)
               && plan.Valid()
      requires i < |before.recs| && r == before.recs[i] && defined == Defined(before.recs)
               && leader == Leaders(before.recs)
      requires plan.FoldedFirst(before.d, i, data)
      ensures fate == FatesOf(before)[i]
      ensures r.off + 18 <= |before.d| && before.d[r.off + 16] == r.storage
    {
      plan.HeadersKept(before.d, i, data);
      StorageAt(before, i);
      FateSame(before, data, r);
      FatesAt(before, |before.recs|, i);
      fate := FateOf(data, layout.nsec, symbols, defined, leader, r);
    }

    /**
     * Takes the removed sections out of the link, their COMDAT bits cleared; fails if one has no header in
     * the file.
     */
    method MarkRemoved() returns (ok: bool)
      requires forall sec | sec in removed :: 1 <= sec
      modifies this`data
      ensures ok <==> InFile(old(data), removed)
      ensures ok ==> MarkedAs(old(data), data, removed)
    {
      var todo := removed;
      ghost var d := data;
      MarkedNone(d);
      while todo != {}
        invariant todo <= removed && MarkedAs(d, data, removed - todo)
        invariant forall sec | sec in removed && sec !in todo :: CharsAt(sec) + 4 <= |d|
        decreases |todo|
      {
        var sec := Least(todo);
        if CharsAt(sec) + 4 > |data| {
          return false;
        }
        MarkNext(d, data, removed - todo, sec);
        data := Put(data, CharsAt(sec), Write32(Marked(SectionChars(data, sec))));
        assert removed - (todo - {sec}) == (removed - todo) + {sec};
        todo := todo - {sec};
      }
      assert removed - {} == removed;
      ok := true;
    }

    method FoldOne(r: Rec, fate: Fate, ghost plan: Plan, ghost d: Bytes, ghost i: nat)
      requires plan.Valid() && plan.stroff <= |d| && i < |plan.recs| && r == plan.recs[i] && fate == plan.fates[i]
               && d[r.off + 16] == r.storage
      requires plan.FoldedFirst(d, i, data) && removed == FoldedSections(plan.recs, plan.fates, i)
      modifies this
      ensures plan.FoldedFirst(d, i + 1, data) && removed == FoldedSections(plan.recs, plan.fates, i + 1)
    {
      ghost var was := data;
      if fate != Keep {
        var bytes := Encoded(Folded(r, fate));
        assert plan.PatchOf(i) == Patch(r.off, Some(bytes));
        plan.NotYetFolded(d, i, data, r.off + 16);
        WriteRecord(r.off, bytes, r.storage == STATIC);
        removed := removed + {r.section};
      }
      plan.FoldedNext(d, i, was, data);
    }
  }

  const ASSOCIATIVE: Byte := 5

  /** A static section symbol whose auxiliary record names the section it is associated with. */
  predicate IsAssociative(d: Bytes, r: Rec) {
    && r.storage == STATIC && r.kind == 0 && r.section > 0 && r.value == 0
    && r.off + 36 <= |d| && d[r.off + 17] >= 1 && d[r.off + 32] == ASSOCIATIVE
  }

  /** `assoc_parent` */
  function Associations(d: Bytes, recs: seq<Rec>): map<int, int> {
    if recs == [] then map[] else
      var r, before := recs[|recs| - 1], Associations(d, recs[..|recs| - 1]);
      WithAssociation(d, before, r)
  }

  function WithAssociation(d: Bytes, before: map<int, int>, r: Rec): map<int, int> {
    if IsAssociative(d, r) then before[r.section := Read16(d, r.off + 30)] else before
  }

  /** Reading the symbol table: its records without their auxiliary ones, and the associations. */
  method ReadRecords(data: Bytes, layout: Layout) returns (recs: seq<Rec>, assocParent: map<int, int>)
    requires layout.Fits(data) && TableSound(data, layout, 0)
    ensures recs == RecordsFrom(data, layout, 0) && assocParent == Associations(data, recs)
  {
    recs, assocParent := [], map[];
    var i := 0;
    while i < layout.nsym
      invariant recs + RecordsFrom(data, layout, i) == RecordsFrom(data, layout, 0)
      invariant assocParent == Associations(data, recs)
      decreases layout.nsym - i
    {
      var r := RecordAt(data, layout, i);
      RecordsNext(data, layout, i, recs, r);
      AssociationsNext(data, recs, r);
      recs, assocParent := recs + [r], WithAssociation(data, assocParent, r);
      i := NextIndex(data, layout, i);
    }
  }

  lemma RecordsNext(d: Bytes, layout: Layout, i: nat, recs: seq<Rec>, r: Rec)
    requires layout.Fits(d) && i < layout.nsym && r == RecordAt(d, layout, i)
    ensures recs + RecordsFrom(d, layout, i) == (recs + [r]) + RecordsFrom(d, layout, NextIndex(d, layout, i))
  {
    var rest := RecordsFrom(d, layout, NextIndex(d, layout, i));
    assert RecordsFrom(d, layout, i) == [r] + rest;
    assert recs + ([r] + rest) == (recs + [r]) + rest;
  }

  lemma AssociationsNext(d: Bytes, recs: seq<Rec>, r: Rec)
    ensures Associations(d, recs + [r]) == WithAssociation(d, Associations(d, recs), r)
  {
    assert (recs + [r])[..|recs|] == recs;
  }

  /** No section stays behind when the one it is associated with goes. */
  ghost predicate Closed(assoc: map<int, int>, removed: set<int>) {
    forall child | child in assoc && assoc[child] in removed :: child in removed
  }

  /** The least closed set that holds the folded sections. */
  method CloseRemoved(assoc: map<int, int>, folded: set<int>) returns (removed: set<int>)
    ensures folded <= removed && Closed(assoc, removed)
    ensures forall s | folded <= s && Closed(assoc, s) :: removed <= s
  {
    removed := folded;
    while true
      invariant folded <= removed
      invariant forall s | folded <= s && Closed(assoc, s) :: removed <= s
      decreases assoc.Keys - removed
    {
      var more := set child | child in assoc && assoc[child] in removed && child !in removed;
      if more == {} {
        assert forall child | child in assoc && assoc[child] in removed && child !in removed :: child in more;
        return;
      }
      forall s | folded <= s && Closed(assoc, s) ensures removed + more <= s {
        forall child | child in more ensures child in s {
          assert assoc[child] in s;
        }
      }
      SomeMember(more);
      removed := removed + more;
    }
  }

  /** A removed section's characteristics: to be removed, and no longer a COMDAT. */
  function Marked(chars: Word): Word {
    BitAnd(OrWord(chars, 0x800), Not(0x1000))
  }

  lemma MarkedBits(chars: Word, k: nat)
    requires k < 32
    ensures BitAt(Marked(chars), k) <==> (k == REMOVE_BIT || (k != COMDAT_BIT && BitAt(chars, k)))
  {
    Pow2Values();
    assert Pow2(11) == 0x800 && Pow2(12) == 0x1000 && Pow2(13) == 0x2000;
    IntervalAt(12, 11, k);
    IntervalAt(13, 12, k);
    OrAt(chars, 0x800, k);
    NotAt(0x1000, k);
    AndAt(OrWord(chars, 0x800), Not(0x1000), k);
  }

  /** The least closed set holding the sections of the folded records. */
  ghost predicate LeastClosed(assoc: map<int, int>, folded: set<int>, removed: set<int>) {
    && folded <= removed && Closed(assoc, removed)
    && forall s | folded <= s && Closed(assoc, s) :: removed <= s
  }

  ghost predicate IsRemoved(before: Before, assoc: map<int, int>, removed: set<int>)
    requires before.Valid()
  {
    LeastClosed(assoc, FoldedSections(before.recs, PlanOf(before).fates, |before.recs|), removed)
  }

  /** The folded records and the characteristics are overwritten, wherever these come to be in the file. */
  ghost predicate Written(before: Before, removed: set<int>, d': Bytes)
    requires before.Valid() && PlanOf(before).Valid()
  {
    exists mid :: WrittenVia(before, removed, mid, d')
  }

  ghost predicate WrittenVia(before: Before, removed: set<int>, mid: Bytes, d': Bytes)
    requires before.Valid() && PlanOf(before).Valid()
  {
    PlanOf(before).FoldedFirst(before.d, |before.recs|, mid) && MarkedAs(mid, d', removed)
  }

  /** Each removed section's header would be inside the file; and whether there is one. */
  ghost predicate InFile(d: Bytes, removed: set<int>) {
    forall sec | sec in removed && 1 <= sec :: CharsAt(sec) + 4 <= |d|
  }

  predicate InHeaders(layout: Layout, removed: set<int>) {
    forall sec | sec in removed :: sec <= layout.nsec
  }

  /** Each record reads as its fate says, and the sections that lost their leader are out of the link. */
  ghost predicate FoldResult(before: Before, assoc: map<int, int>, removed: set<int>, d': Bytes)
    requires before.Valid() && PlanOf(before).Valid()
  {
    var plan := PlanOf(before);
    && |d'| == |before.d|
    && LeastClosed(assoc, FoldedSections(plan.recs, plan.fates, |plan.recs|), removed)
    && (forall j | 0 <= j < |before.recs| ::
          FieldsRead(d', Folded(plan.recs[j], plan.fates[j]))
              && SymName(d', plan.stroff, plan.recs[j].off) == plan.recs[j].name)
    && (forall sec | 1 <= sec <= before.layout.nsec ::
          SectionChars(d', sec) == if sec in removed then Marked(SectionChars(before.d, sec))
              else SectionChars(before.d, sec))
    && (forall k {:trigger d'[k]} | 0 <= k < |d'| && !FieldWritten(plan, k) && !InChars(removed, k) ::
         d'[k] == before.d[k])
  }

  /** The byte is of the value, section or storage class of a folded record. */
  ghost predicate FieldWritten(plan: Plan, k: int)
    requires |plan.fates| == |plan.recs|
  {
    exists i :: 0 <= i < |plan.recs| && plan.fates[i] != Keep
                && (plan.recs[i].off + 8 <= k < plan.recs[i].off + 14 || k == plan.recs[i].off + 16)
  }

  lemma FoldedResult(before: Before, assoc: map<int, int>, removed: set<int>, mid: Bytes, d': Bytes)
    requires before.Valid() && PlanOf(before).Valid() && PlanOf(before).FoldedFirst(before.d, |before.recs|, mid)
    requires LeastClosed(assoc, FoldedSections(before.recs, PlanOf(before).fates, |before.recs|), removed)
    requires MarkedAs(mid, d', removed) && InHeaders(before.layout, removed)
    ensures FoldResult(before, assoc, removed, d')
  {
    var plan, layout := PlanOf(before), before.layout;
    plan.HeadersKept(before.d, |before.recs|, mid);
    AfterHeaders(mid, d', layout, removed);
    forall j | 0 <= j < |before.recs|
      ensures FieldsRead(d', Folded(plan.recs[j], plan.fates[j]))
              && SymName(d', plan.stroff, plan.recs[j].off) == plan.recs[j].name
    {
      plan.FoldReads(before.d, mid, j);
      FieldsSame(mid, d', Folded(plan.recs[j], plan.fates[j]));
      NameSame(mid, d', plan.stroff, plan.recs[j].off);
    }
    forall sec | 1 <= sec <= layout.nsec
      ensures SectionChars(d', sec) == if sec in removed then Marked(SectionChars(before.d, sec))
                else SectionChars(before.d, sec)
    {
      Read32Same(before.d, mid, CharsAt(sec));
      if sec !in removed {
        CharsKept(mid, d', layout, removed, sec);
      }
    }
    forall k | 0 <= k < |d'| && !FieldWritten(plan, k) && !InChars(removed, k) ensures d'[k] == before.d[k] {
      ByteKept(plan, before.d, mid, k);
    }
  }

  lemma ByteKept(plan: Plan, d: Bytes, mid: Bytes, k: nat)
    requires plan.Valid() && plan.FoldedFirst(d, |plan.recs|, mid) && k < |d| && !FieldWritten(plan, k)
    ensures mid[k] == d[k]
  {
    forall i | 0 <= i < |plan.recs| ensures !plan.Patches(|plan.recs|)[i].Covers(k) {
    }
    ByteUntouched(d, plan.Patches(|plan.recs|), k);
  }

  lemma AfterHeaders(mid: Bytes, d': Bytes, layout: Layout, removed: set<int>)
    requires layout.Fits(mid) && MarkedAs(mid, d', removed) && InHeaders(layout, removed)
    ensures forall k | layout.symoff <= k < |mid| :: d'[k] == mid[k]
  {
    forall k | layout.symoff <= k < |mid| ensures d'[k] == mid[k] {
      forall sec | sec in removed && 1 <= sec ensures !(CharsAt(sec) <= k < CharsAt(sec) + 4) {
      }
      assert !InChars(removed, k);
    }
  }

  lemma CharsKept(mid: Bytes, d': Bytes, layout: Layout, removed: set<int>, sec: int)
    requires layout.Fits(mid) && MarkedAs(mid, d', removed) && 1 <= sec <= layout.nsec && sec !in removed
    ensures SectionChars(d', sec) == SectionChars(mid, sec)
  {
    forall k | CharsAt(sec) <= k < CharsAt(sec) + 4 ensures d'[k] == mid[k] {
      OtherChars(removed, sec, k);
    }
    Read32Same(mid, d', CharsAt(sec));
  }

  lemma FieldsSame(d: Bytes, d': Bytes, r: Rec)
    requires |d'| == |d| && FieldsRead(d, r) && forall k | r.off <= k < r.off + 18 :: d'[k] == d[k]
    ensures FieldsRead(d', r)
  {
    Read32Same(d, d', r.off + 8);
    Read16Same(d, d', r.off + 12);
    Read16Same(d, d', r.off + 14);
  }

  /** A folded record is its section's leader: a definition in a COMDAT, of a name the unit does not own. */
  lemma FoldedIsLeader(before: Before, r: Rec)
    requires before.Valid() && before.Fate(r).Success? && before.Fate(r).value != Keep && r in before.recs
    ensures r.section in Leaders(before.recs) && Leaders(before.recs)[r.section] == r.off
    ensures IsDefinition(r) && 1 <= r.section <= before.layout.nsec
            && BitAt(SectionChars(before.d, r.section), COMDAT_BIT)
    ensures r.name in before.symbols.byName && !before.symbols.Own(before.symbols.byName[r.name])
  {
    var i :| 0 <= i < |before.recs| && before.recs[i] == r;
    LeaderDefines(before.recs, before.layout.symoff, before.layout.Stroff(), i);
  }

  lemma {:induction false} LeaderDefines(recs: seq<Rec>, lo: int, hi: int, i: nat)
    requires Spaced(recs, lo, hi) && i < |recs| && recs[i].section in Leaders(recs)
             && Leaders(recs)[recs[i].section] == recs[i].off
    ensures IsDefinition(recs[i])
  {
    var front, last := recs[..|recs| - 1], recs[|recs| - 1];
    LeadersBelow(front, last.off);
    if i < |recs| - 1 {
      LeaderDefines(front, lo, hi, i);
    }
  }

  lemma {:induction false} LeadersBelow(recs: seq<Rec>, end: int)
    requires forall i | 0 <= i < |recs| :: recs[i].off + 18 <= end
    ensures forall section | section in Leaders(recs) :: Leaders(recs)[section] + 18 <= end
  {
    if recs != [] {
      LeadersBelow(recs[..|recs| - 1], end);
    }
  }

  lemma RemovedPositive(before: Before, assoc: map<int, int>, folded: set<int>, removed: set<int>)
    requires before.Valid() && PlanOf(before).Valid()
             && folded == FoldedSections(before.recs, PlanOf(before).fates, |before.recs|)
    requires LeastClosed(assoc, folded, removed)
    requires forall sec | sec in assoc :: 1 <= sec
    ensures forall sec | sec in removed :: 1 <= sec
  {
    forall i | 0 <= i < |before.recs| && PlanOf(before).fates[i] != Keep ensures 1 <= before.recs[i].section {
      FatesAt(before, |before.recs|, i);
      FoldedIsLeader(before, before.recs[i]);
    }
    var positive := set sec | sec in removed && 1 <= sec;
    assert folded <= positive;
    assert Closed(assoc, positive);
  }

  lemma {:induction false} AssociationsPositive(d: Bytes, recs: seq<Rec>)
    ensures forall sec | sec in Associations(d, recs) :: sec > 0
  {
    if recs != [] {
      AssociationsPositive(d, recs[..|recs| - 1]);
    }
  }

  /** The removed sections' characteristics are marked, and nothing else has changed. */
  ghost predicate MarkedAs(d: Bytes, d': Bytes, removed: set<int>) {
    && |d'| == |d|
    && (forall sec | sec in removed && 1 <= sec && CharsAt(sec) + 4 <= |d| ::
         SectionChars(d', sec) == Marked(SectionChars(d, sec)))
    && (forall k | 0 <= k < |d| && !InChars(removed, k) :: d'[k] == d[k])
  }

  ghost predicate InChars(removed: set<int>, k: int) {
    exists sec :: sec in removed && 1 <= sec && CharsAt(sec) <= k < CharsAt(sec) + 4
  }

  lemma MarkedNone(d: Bytes)
    ensures forall removed: set<int> :: MarkedAs(d, d, removed - removed)
  {
  }

  lemma CharsApart(a: nat, b: nat)
    requires a >= 1 && b >= 1 && a != b
    ensures CharsAt(a) + 4 <= CharsAt(b) || CharsAt(b) + 4 <= CharsAt(a)
  {
  }

  lemma OtherChars(marked: set<int>, sec: int, k: int)
    requires sec >= 1 && sec !in marked && CharsAt(sec) <= k < CharsAt(sec) + 4
    ensures !InChars(marked, k)
  {
    forall other | other in marked && 1 <= other ensures !(CharsAt(other) <= k < CharsAt(other) + 4) {
      CharsApart(sec, other);
    }
  }

  lemma MarkNext(d: Bytes, was: Bytes, marked: set<int>, sec: int)
    requires MarkedAs(d, was, marked) && 1 <= sec && CharsAt(sec) + 4 <= |d| && sec !in marked
    ensures MarkedAs(d, Put(was, CharsAt(sec), Write32(Marked(SectionChars(was, sec)))), marked + {sec})
  {
    var o, mark := CharsAt(sec), Marked(SectionChars(was, sec));
    var d' := Put(was, o, Write32(mark));
    Write32Reads(mark);
    forall k | o <= k < o + 4 ensures was[k] == d[k] {
      OtherChars(marked, sec, k);
    }
    Read32Same(d, was, o);
    Read32Put(was, o, Write32(mark));
    forall other | other in marked && 1 <= other && CharsAt(other) + 4 <= |d|
      ensures SectionChars(d', other) == Marked(SectionChars(d, other)) {
      CharsApart(sec, other);
      Read32Same(was, d', CharsAt(other));
    }
    forall k | 0 <= k < |d| && !InChars(marked + {sec}, k) ensures d'[k] == d[k] {
      assert !InChars(marked, k) && !(o <= k < o + 4) by { assert sec in marked + {sec}; }
    }
  }

  lemma StorageAt(before: Before, i: nat)
    requires before.Valid() && i < |before.recs|
    ensures before.recs[i].off + 18 <= |before.d| && before.d[before.recs[i].off + 16] == before.recs[i].storage
  {
    ReadsAsAt(before.d, before.layout.Stroff(), before.recs, i);
  }

  /** The section headers are as they were, so the record's fate is. */
  lemma FateSame(before: Before, d: Bytes, r: Rec)
    requires before.Valid() && |d| == |before.d|
    requires forall k | 0 <= k < before.layout.symoff :: d[k] == before.d[k]
    ensures FateOf(d, before.layout.nsec, before.symbols, Defined(before.recs), Leaders(before.recs), r) ==
              before.Fate(r)
  {
    if 0 < r.section <= before.layout.nsec {
      Read32Same(before.d, d, CharsAt(r.section));
    }
  }
}
