/**
 * Relocations against symbols: the lookup `for_relocation` of src/obj/symbols.rs, and the relocations that
 * src/analysis/x86.rs and src/cmd/coff.rs make and rewrite.
 */
module SymbolRelocations {
  import opened Wrappers
  import opened Words
  import opened OrderedKeys
  import opened NestedLists
  import opened SymbolStore

  datatype RelocKind = Absolute | Addr16Hi | Addr16Ha | Addr16Lo | Rel24 | Rel14 | EmbSda21 | X86Abs32 | X86Rel32

  predicate Half(kind: RelocKind) {
    kind == Addr16Hi || kind == Addr16Ha || kind == Addr16Lo
  }

  /**
   * Whether the symbol can be referenced by a relocation of the kind; `isLabel` tells the linker's own labels
   * by name.
   */
  predicate ReferencedBy(symbol: Symbol, kind: RelocKind, isLabel: string -> bool) {
    && RelocationIgnore !in symbol.flags && Stripped !in symbol.flags
    && if isLabel(symbol.name) then Half(kind)
       else match symbol.kind
         case UnknownKind => true
         case Function => kind != EmbSda21
         case Object => true
         case SectionKind => Half(kind)
  }

  /** The key `best_match_for_reloc` sorts by: the least is the best. */
  function SortKey(symbol: Symbol, kind: RelocKind): int {
    var sized := if symbol.size > 0 then 1 else 0;
    match symbol.kind
    case UnknownKind => -(if Half(kind) && !(".." <= symbol.name) then 3 else 1) - sized
    case SectionKind => 1 - sized
    case _ =>
      if symbol.name in {"__save_gpr", "__restore_gpr", "__save_fpr", "__restore_fpr"} then 0
      else -(if Half(kind) then 1 else 2) - sized
  }

  /** The linker's labels and section symbols are referenced by address halves only, functions not by SDA21. */
  lemma ReferencedIff(symbol: Symbol, kind: RelocKind, isLabel: string -> bool)
    ensures ReferencedBy(symbol, kind, isLabel) <==>
            !(RelocationIgnore in symbol.flags || Stripped in symbol.flags
              || ((isLabel(symbol.name) || symbol.kind == SectionKind) && kind !in {Addr16Hi, Addr16Ha, Addr16Lo})
              || (!isLabel(symbol.name) && symbol.kind == Function && kind == EmbSda21))
  {
  }

  /** A function or object that code refers to by name; the register save and restore helpers are not. */
  ghost predicate Named(symbol: Symbol) {
    && (symbol.kind == Function || symbol.kind == Object)
    && symbol.name != "__save_gpr" && symbol.name != "__restore_gpr" && symbol.name != "__save_fpr"
    && symbol.name != "__restore_fpr"
  }

  ghost predicate Dotted(symbol: Symbol) {
    |symbol.name| >= 2 && symbol.name[0] == '.' && symbol.name[1] == '.'
  }

  /**
   * Which of two symbols is preferred. Halves of addresses prefer untyped symbols, whose names do not begin with two
   * dots; everything else prefers functions and objects, if they have sizes no less than what they compete with.
   * Section symbols come last, and of a kind, sized ones first.
   */
  lemma Prefers(a: Symbol, b: Symbol, kind: RelocKind)
    ensures Half(kind) && a.kind == UnknownKind && !Dotted(a) && (b.kind != UnknownKind || Dotted(b)) ==>
              SortKey(a, kind) < SortKey(b, kind)
    ensures !Half(kind) && Named(a) && !Named(b) && (a.size > 0 || b.size == 0) ==> SortKey(a, kind) < SortKey(b, kind)
    ensures Half(kind) && Named(a) && b.kind == UnknownKind && Dotted(b) && (a.size > 0 <==> b.size > 0) ==>
              SortKey(a, kind) == SortKey(b, kind)
    ensures b.kind == SectionKind && (a.kind == UnknownKind || Named(a)) ==> SortKey(a, kind) < SortKey(b, kind)
    ensures a.size > 0 && b.size == 0 && a.kind == b.kind
            && ((Named(a) && Named(b)) || a.kind == SectionKind
                || (a.kind == UnknownKind && Dotted(a) == Dotted(b))) ==>
              SortKey(a, kind) < SortKey(b, kind)
    ensures (a.kind == Function || a.kind == Object) && !Named(a) && (b.kind == UnknownKind || Named(b)) ==>
              SortKey(b, kind) < SortKey(a, kind)
  {
    assert ".." <= a.name <==> Dotted(a);
    assert ".." <= b.name <==> Dotted(b);
  }

  /** What is looked for: a target in a section, by a relocation of some kind. */
  datatype Query = Query(section: nat, target: Word, kind: RelocKind, isLabel: string -> bool) {
    predicate Eligible(symbol: Symbol) {
      (symbol.section.None? || symbol.section == Some(section)) && ReferencedBy(symbol, kind, isLabel)
    }

    predicate StartsAtOrCovers(symbol: Symbol) {
      symbol.address == target || symbol.address + symbol.size > target
    }

    /** `best_match_for_reloc`: the first of the eligible symbols with the least key. */
    function Best(symbols: seq<Symbol>, indexes: seq<nat>): (r: Option<nat>)
      requires Within(indexes, |symbols|)
      ensures r.Some? ==> r.value < |symbols| && r.value in indexes && Eligible(symbols[r.value])
    {
      if indexes == [] then None else
        var first, rest := indexes[0], Best(symbols, indexes[1..]);
        if !Eligible(symbols[first]) then rest
        else if rest.Some? && SortKey(symbols[rest.value], kind) < SortKey(symbols[first], kind) then rest
        else Some(first)
    }

    lemma {:induction false} BestIsLeast(symbols: seq<Symbol>, indexes: seq<nat>, k: nat)
      requires Within(indexes, |symbols|) && k < |indexes| && Eligible(symbols[indexes[k]])
      ensures var best := Best(symbols, indexes);
              best.Some? && SortKey(symbols[best.value], kind) <= SortKey(symbols[indexes[k]], kind)
      decreases |indexes|
    {
      if k > 0 {
        assert indexes[1..][k - 1] == indexes[k];
        BestIsLeast(symbols, indexes[1..], k - 1);
      }
    }

    /** Of equally good symbols the first listed is best. */
    lemma {:induction false} BestIsFirst(symbols: seq<Symbol>, indexes: seq<nat>, k: nat, j: nat)
      requires Within(indexes, |symbols|) && Distinct(indexes) && Best(symbols, indexes).Some?
      requires j < k < |indexes| && indexes[k] == Best(symbols, indexes).value && Eligible(symbols[indexes[j]])
      ensures SortKey(symbols[indexes[k]], kind) < SortKey(symbols[indexes[j]], kind)
      decreases |indexes|
    {
      var tail := indexes[1..];
      assert tail[k - 1] == indexes[k] && indexes[0] != indexes[k];
      if j > 0 {
        assert tail[j - 1] == indexes[j];
        assert Distinct(tail) by {
          forall a, b | 0 <= a < b < |tail| ensures tail[a] != tail[b] { assert indexes[a + 1] != indexes[b + 1]; }
        }
        BestIsFirst(symbols, tail, k - 1, j - 1);
      }
    }

    /** The scan stops here: the best candidate starts at the target or has a size. */
    predicate Stops(symbols: seq<Symbol>, indexes: seq<nat>)
      requires Within(indexes, |symbols|)
    {
      var best := Best(symbols, indexes);
      best.Some? && (symbols[best.value].address == target || symbols[best.value].size > 0)
    }

    ghost predicate StopsAt(symbols: seq<Symbol>, byAddress: Lists<Word>, a: int) {
      a in byAddress && Within(byAddress[a], |symbols|) && Stops(symbols, byAddress[a])
    }

    /** The nearest address at or below the target where the scan stops. */
    ghost predicate Nearest(symbols: seq<Symbol>, byAddress: Lists<Word>, stop: Option<Word>) {
      && (stop.Some? ==> stop.value <= target && StopsAt(symbols, byAddress, stop.value))
      && forall b: int | b <= target && (stop.None? || stop.value < b) :: !StopsAt(symbols, byAddress, b)
    }

    /** What the scan that stops there finds: the best candidate, but only if it starts at or covers the target. */
    ghost predicate FoundAt(symbols: seq<Symbol>, byAddress: Lists<Word>, stop: Option<Word>, r: Option<nat>) {
      && Nearest(symbols, byAddress, stop)
      && (stop.None? ==> r.None?)
      && (stop.Some? ==>
            var best := Best(symbols, byAddress[stop.value]);
            r == if StartsAtOrCovers(symbols[best.value]) then best else None)
    }

    /** The scan stops nowhere above the address; or nowhere at all. */
    ghost predicate NoStop(symbols: seq<Symbol>, byAddress: Lists<Word>, above: Option<int>) {
      forall b: int | b <= target && (above.None? || above.value < b) :: !StopsAt(symbols, byAddress, b)
    }

    lemma NoStopNext(symbols: seq<Symbol>, byAddress: Lists<Word>, a: int, next: Option<int>)
      requires NoStop(symbols, byAddress, Some(a)) && !StopsAt(symbols, byAddress, a)
      requires next == Floor(byAddress.Keys, a - 1)
      ensures NoStop(symbols, byAddress, next)
    {
      forall b: int | b <= target && (next.None? || next.value < b) ensures !StopsAt(symbols, byAddress, b) {
        assert b in byAddress ==> b in byAddress.Keys;
      }
    }

    ghost predicate Finds(symbols: seq<Symbol>, byAddress: Lists<Word>, r: Option<nat>) {
      exists stop :: FoundAt(symbols, byAddress, stop, r)
    }
  }

  /** The candidate nearest below the target, and only if it starts at or covers it. */
  method ForRelocation(table: ObjSymbols, query: Query) returns (r: Option<nat>, ghost stop: Option<Word>)
    requires table.Valid()
    ensures query.FoundAt(table.symbols, table.byAddress, stop, r)
    ensures r.Some? ==> r.value < |table.symbols| && query.Eligible(table.symbols[r.value])
                        && query.StartsAtOrCovers(table.symbols[r.value])
  {
    var keys := table.byAddress.Keys;
    var next := Floor(keys, query.target);
    while next.Some?
      invariant next.Some? ==> next.value in keys && next.value <= query.target
      invariant query.NoStop(table.symbols, table.byAddress, next)
      decreases if next.Some? then next.value + 1 else 0
    {
      var a: Word := next.value;
      var found := FoundThere(table, query, a);
      if found.Some? {
        return found.value, Some(a);
      }
      next := Floor(keys, a - 1);
      query.NoStopNext(table.symbols, table.byAddress, a, next);
    }
    return None, None;
  }

  /** What the scan finds at an address where it stops. */
  method FoundThere(table: ObjSymbols, query: Query, a: Word) returns (r: Option<Option<nat>>)
    requires table.Valid() && a in table.byAddress
    ensures r.Some? <==> query.StopsAt(table.symbols, table.byAddress, a)
    ensures r.Some? ==>
              var best := query.Best(table.symbols, table.byAddress[a]);
              r.value == if query.StartsAtOrCovers(table.symbols[best.value]) then best else None
  {
    var indexes := table.byAddress[a];
    table.ListedWithin(indexes, a);
    var best := query.Best(table.symbols, indexes);
    if best.Some? {
      var symbol := table.symbols[best.value];
      if symbol.address == query.target {
        return Some(best);
      }
      if symbol.size > 0 {
        return Some(if symbol.address + symbol.size > query.target then best else None);
      }
    }
    r := None;
  }

  type Site = (nat, Word)

  datatype Reloc = Reloc(kind: RelocKind, symbol: nat, addend: int)

  /** Each relocation's symbol and addend make up the address it was made for. */
  ghost predicate Coherent(symbols: seq<Symbol>, relocations: map<Site, Reloc>, targets: map<Site, int>) {
    forall site | site in relocations ::
      && site in targets && relocations[site].symbol < |symbols|
      && symbols[relocations[site].symbol].address + relocations[site].addend == targets[site]
  }

  /** Whatever is added to or replaced in the table, no symbol moves, so every relocation keeps its target. */
  lemma CoherentPlaced(symbols: seq<Symbol>, symbols': seq<Symbol>, relocations: map<Site, Reloc>,
                       targets: map<Site, int>)
    requires Coherent(symbols, relocations, targets) && Placed(symbols, symbols')
    ensures Coherent(symbols', relocations, targets)
  {
  }

  /** A function of known size that holds the address past its start. */
  predicate FunctionHolds(symbol: Symbol, target: Word) {
    symbol.kind == Function && symbol.sizeKnown && Wrap(symbol.address) < target < Wrap(symbol.address + symbol.size)
  }

  predicate SizedHolds(symbol: Symbol, target: Word) {
    symbol.sizeKnown && Wrap(symbol.address) <= target < Wrap(symbol.address + symbol.size)
  }

  /**
   * `for_section_range(..=target).rfind`: the last symbol of the section, by address and then by index order,
   * that fits.
   */
  function LastFit(symbols: seq<Symbol>, indexes: seq<nat>, fits: Symbol -> bool): (r: Option<nat>)
    requires Within(indexes, |symbols|)
    ensures r.None? <==> forall k | 0 <= k < |indexes| :: !fits(symbols[indexes[k]])
    ensures r.Some? ==> r.value < |symbols| && r.value in indexes && fits(symbols[r.value])
    ensures r.Some? ==> exists k :: 0 <= k < |indexes| && indexes[k] == r.value
                                    && forall j | k < j < |indexes| :: !fits(symbols[indexes[j]])
  {
    if indexes == [] then None
    else if fits(symbols[indexes[|indexes| - 1]]) then Some(indexes[|indexes| - 1])
    else LastFit(symbols, indexes[..|indexes| - 1], fits)
  }

  ghost predicate InSection(symbol: Symbol, section: nat, target: Word) {
    symbol.section == Some(section) && Wrap(symbol.address) <= target
  }

  method FindInSection(table: ObjSymbols, section: nat, target: Word, fits: Symbol -> bool) returns (r: Option<nat>)
    requires table.Valid()
    ensures r.Some? ==>
              r.value < |table.symbols| && fits(table.symbols[r.value])
                  && InSection(table.symbols[r.value], section, target)
    ensures r.Some? ==>
              forall i | 0 <= i < |table.symbols| && InSection(table.symbols[i], section, target)
                  && fits(table.symbols[i]) ::
                          Wrap(table.symbols[i].address) <= Wrap(table.symbols[r.value].address)
    ensures r.None? ==>
              forall i | 0 <= i < |table.symbols| && InSection(table.symbols[i], section, target) ::
                  !fits(table.symbols[i])
  {
    var keys := set key | key in table.bySection && key.0 == section :: key.1 as int;
    forall i | 0 <= i < |table.symbols| && InSection(table.symbols[i], section, target)
      ensures Wrap(table.symbols[i].address) in keys {
      table.ListedInSectionUnder(i);
      assert (section, Wrap(table.symbols[i].address)) in table.bySection;
    }
    var next := Floor(keys, target);
    r := None;
    while next.Some?
      invariant r.None? && (next.Some? ==> next.value in keys && next.value <= target)
      invariant forall i | 0 <= i < |table.symbols| && InSection(table.symbols[i], section, target)
                && fits(table.symbols[i]) ::
                  next.Some? && Wrap(table.symbols[i].address) <= next.value
      decreases if next.Some? then next.value + 1 else 0
    {
      var key: (nat, Word) := (section, next.value);
      table.ListedInSection(key);
      r := LastFit(table.symbols, At(table.bySection, key), fits);
      forall i | 0 <= i < |table.symbols| && InSection(table.symbols[i], section, target) && fits(table.symbols[i])
        ensures Wrap(table.symbols[i].address) == next.value ==> r.Some?
      {
        table.ListedInSectionUnder(i);
      }
      if r.Some? {
        assert r.value in At(table.bySection, key);
        return;
      }
      next := Floor(keys, next.value - 1);
    }
  }

  function MintedAs(section: nat, target: Word, name: string): Symbol {
    Symbol(name, target, Some(section), 0, false, {}, Function, None, 0)
  }

  /** The function symbol added at a target that no symbol serves. */
  function Minted(section: nat, target: Word, name: string): (r: Symbol)
    ensures r.address == target && r.section == Some(section)
  {
    Normalized(MintedAs(section, target, name))
  }

  /** The function that holds the target, the last by address if there are more. */
  ghost predicate LastFunction(symbols: seq<Symbol>, section: nat, target: Word, index: nat) {
    && index < |symbols| && InSection(symbols[index], section, target) && FunctionHolds(symbols[index], target)
    && forall i | 0 <= i < |symbols| && InSection(symbols[i], section, target) && FunctionHolds(symbols[i], target) ::
         Wrap(symbols[i].address) <= Wrap(symbols[index].address)
  }

  ghost predicate LastSized(symbols: seq<Symbol>, section: nat, target: Word, r: Option<nat>) {
    && (r.Some? ==>
          && r.value < |symbols| && InSection(symbols[r.value], section, target)
          && SizedHolds(symbols[r.value], target))
    && forall i | 0 <= i < |symbols| && InSection(symbols[i], section, target) && SizedHolds(symbols[i], target) ::
         r.Some? && Wrap(symbols[i].address) <= Wrap(symbols[r.value].address)
  }

  class Relocations {
    const table: ObjSymbols
    const isLabel: string -> bool
    var relocations: map<Site, Reloc>
    /** The address each relocation was made for. */
    ghost var targets: map<Site, int>

    constructor (table: ObjSymbols, isLabel: string -> bool)
      requires table.Valid()
      ensures Valid() && this.table == table && this.isLabel == isLabel && relocations == map[]
    {
      this.table, this.isLabel := table, isLabel;
      relocations, targets := map[], map[];
    }

    ghost predicate Valid()
      reads this, table
    {
      table.Valid() && Coherent(table.symbols, relocations, targets)
    }

    method Insert(site: Site, reloc: Reloc, ghost target: int)
      requires Valid() && site !in relocations
      requires reloc.symbol < |table.symbols| && table.symbols[reloc.symbol].address + reloc.addend == target
      modifies this
      ensures Valid() && relocations == old(relocations)[site := reloc] && targets == old(targets)[site := target]
    {
      relocations := relocations[site := reloc];
      targets := targets[site := target];
    }

    /** `add_rel32`; `name` is what a function minted at the target would be called. */
    method AddRel32(site: Site, section: nat, target: Word, name: string) returns (r: Result<()>)
      requires Valid()
      modifies this, table
      ensures r.Success? && Valid() && Placed(old(table.symbols), table.symbols)
      ensures site in old(relocations) ==>
                relocations == old(relocations) && targets == old(targets) && table.symbols == old(table.symbols)
      ensures site !in old(relocations) ==>
                site in relocations && relocations[site].kind == X86Rel32
                && Serves(old(table.symbols), old(table.byAddress), section, target, name, relocations[site].symbol,
                          table.symbols)
      ensures site !in old(relocations) ==>
                targets == old(targets)[site := target as int] && relocations.Keys == old(relocations).Keys + {site}
      ensures forall other | other in old(relocations) :: relocations[other] == old(relocations)[other]
    {
      r := Success(());
      if site in relocations {
        return;
      }
      var index := SymbolFor(section, target, name);
      Insert(site, Reloc(X86Rel32, index, target - table.symbols[index].address), target);
    }

    /** The symbol found, else the last function that holds the target, else a new one at the target. */
    method SymbolFor(section: nat, target: Word, name: string) returns (index: nat)
      requires Valid()
      modifies table
      ensures Valid() && Placed(old(table.symbols), table.symbols)
      ensures Serves(old(table.symbols), old(table.byAddress), section, target, name, index, table.symbols)
    {
      ghost var symbols, byAddress := table.symbols, table.byAddress;
      var found, stop := ForRelocation(table, Query(section, target, X86Rel32, isLabel));
      assert Query(section, target, X86Rel32, isLabel).Finds(symbols, byAddress, found);
      if found.None? {
        found := FindInSection(table, section, target, symbol => FunctionHolds(symbol, target));
      }
      if found.Some? {
        index := found.value;
      } else {
        index := Mint(section, target, name);
      }
    }

    /** Which symbol is related to the target, and that a new one is made only if no old one serves. */
    ghost predicate Serves(before: seq<Symbol>, byAddress: Lists<Word>, section: nat, target: Word, name: string,
                           index: nat, after: seq<Symbol>) {
      var query := Query(section, target, X86Rel32, isLabel);
      if index < |before| then
        && after == before
        && (query.Finds(before, byAddress, Some(index))
            || (query.Finds(before, byAddress, None) && LastFunction(before, section, target, index)))
      else
        && index == |before| && after == before + [Minted(section, target, name)]
        && query.Finds(before, byAddress, None)
        && forall i | 0 <= i < |before| && InSection(before[i], section, target) :: !FunctionHolds(before[i], target)
    }

    /** A function symbol at the target. */
    method Mint(section: nat, target: Word, name: string) returns (index: nat)
      requires Valid()
      modifies table
      ensures Valid() && Placed(old(table.symbols), table.symbols)
      ensures index == |old(table.symbols)| && table.symbols == old(table.symbols) + [Minted(section, target, name)]
    {
      ghost var symbols := table.symbols;
      var minted := table.AddDirect(MintedAs(section, target, name));
      CoherentPlaced(symbols, table.symbols, relocations, targets);
      index := minted.value;
    }

    /** Where a relocation's symbol and addend would be taken from, for a candidate target. */
    method Resolve(section: nat, target: Word) returns (r: Option<nat>)
      requires Valid()
      ensures r.Some? ==> r.value < |table.symbols| && table.symbols[r.value].sizeKnown
      ensures Context().Resolves(section, target, r)
    {
      var found, stop := ForRelocation(table, Query(section, target, X86Abs32, isLabel));
      assert Query(section, target, X86Abs32, isLabel).Finds(table.symbols, table.byAddress, found);
      if found.Some? {
        r := if table.symbols[found.value].sizeKnown then found else None;
      } else {
        r := FindInSection(table, section, target, symbol => SizedHolds(symbol, target));
      }
    }

    /**
     * `resolve_abs32_candidates`: a candidate is relocated if it resolves to a symbol of known size that its
     * unit can name. What is blocked, which section an address is in, and the units are given.
     */
    method ResolveAbs32(candidates: seq<Candidate>, image: Image)
      requires Valid()
      modifies this
      ensures Valid()
      ensures Resolved(candidates, |candidates|, Context(), image, old(relocations), relocations, targets)
    {
      for i := 0 to |candidates|
        invariant Valid()
        invariant Resolved(candidates, i, Context(), image, old(relocations), relocations, targets)
      {
        ghost var before, targetsBefore := relocations, targets;
        ResolveOne(candidates[i], image);
        ResolvedNext(candidates, i, Context(), image, old(relocations), before, targetsBefore, relocations, targets);
      }
    }

    ghost function Context(): Symbols
      reads this, table
    {
      Symbols(table.symbols, table.byAddress, isLabel)
    }

    method ResolveOne(candidate: Candidate, image: Image)
      requires Valid()
      modifies this
      ensures Valid()
      ensures OneResolved(candidate, Context(), image, old(relocations), old(targets), relocations, targets)
    {
      var Candidate(site, target) := candidate;
      if target == 0 || site in relocations || image.blocked(site) || image.sectionAt(target).None? {
        return;
      }
      var section := image.sectionAt(target).value;
      var found := Resolve(section, target);
      assert Context().Resolves(section, target, found);
      if found.None? {
        return;
      }
      var symbol := table.symbols[found.value];
      if !Nameable(image, candidate, symbol) {
        return;
      }
      Insert(site, Reloc(X86Abs32, found.value, target - symbol.address), target);
    }

    /**
     * `retarget_vftable_deleting_destructors`: slots of vftables that go to a `??_G` symbol go to its `??_E`
     * alias, if there is one.
     */
    method RetargetDestructors()
      requires Valid()
      modifies this`relocations
      ensures Valid()
      ensures relocations.Keys == old(relocations).Keys
      ensures forall site | site in relocations ::
                Retargeted(table.symbols, site, old(relocations)[site], relocations[site])
    {
      forall site | site in relocations {
        RetargetIs(site);
      }
      relocations := map site | site in relocations :: Retarget(site);
    }

    /** The relocation of a slot, pointed at the alias if the slot is a vftable's and there is one. */
    function Retarget(site: Site): Reloc
      requires Valid() && site in relocations
      reads this, table
    {
      var reloc := relocations[site];
      var alias := AliasOf(reloc.symbol);
      if InVftable(table.symbols, site) && alias.Some? then reloc.(symbol := alias.value) else reloc
    }

    lemma RetargetIs(site: Site)
      requires Valid() && site in relocations
      ensures Retargeted(table.symbols, site, relocations[site], Retarget(site))
      ensures Retarget(site).symbol < |table.symbols|
              && table.symbols[Retarget(site).symbol].address + Retarget(site).addend == targets[site]
    {
      AliasOfIs(relocations[site].symbol);
    }

    function AliasOf(index: nat): (r: Option<nat>)
      requires table.Valid() && index < |table.symbols|
      reads table
    {
      var symbol := table.symbols[index];
      if !("??_G" <= symbol.name) then None else
        var name := "??_E" + symbol.name[4..];
        table.ListedUnderName(name);
        FirstAlias(table.symbols, At(table.byName, name), symbol)
    }

    lemma AliasOfIs(index: nat)
      requires table.Valid() && index < |table.symbols|
      ensures var r := AliasOf(index);
              && (r.Some? ==> r.value < |table.symbols| && IsAliasOf(table.symbols[r.value], table.symbols[index]))
              && (r.None? ==> forall i | 0 <= i < |table.symbols| :: !IsAliasOf(table.symbols[i], table.symbols[index]))
    {
      var symbol := table.symbols[index];
      if "??_G" <= symbol.name {
        var name := "??_E" + symbol.name[4..];
        table.ListedUnderName(name);
        forall i | 0 <= i < |table.symbols| && IsAliasOf(table.symbols[i], symbol) ensures AliasOf(index).Some? {
          table.ListedByName(i);
        }
      }
    }
  }

  /** The alias is named as the vector form of the destructor and is where the scalar form is. */
  predicate IsAliasOf(alias: Symbol, symbol: Symbol) {
    "??_G" <= symbol.name && alias.name == "??_E" + symbol.name[4..] && alias.section == symbol.section
        && alias.address == symbol.address
  }

  function FirstAlias(symbols: seq<Symbol>, indexes: seq<nat>, symbol: Symbol): (r: Option<nat>)
    requires "??_G" <= symbol.name && Within(indexes, |symbols|)
    requires forall k | 0 <= k < |indexes| :: symbols[indexes[k]].name == "??_E" + symbol.name[4..]
    ensures r.Some? ==> r.value < |symbols| && IsAliasOf(symbols[r.value], symbol)
    ensures r.None? ==> forall k | 0 <= k < |indexes| :: !IsAliasOf(symbols[indexes[k]], symbol)
  {
    if indexes == [] then None
    else if symbols[indexes[0]].section == symbol.section && symbols[indexes[0]].address == symbol.address
        then Some(indexes[0])
    else
      assert forall k | 0 <= k < |indexes[1..]| :: indexes[1..][k] == indexes[k + 1];
      FirstAlias(symbols, indexes[1..], symbol)
  }

  /** A slot of a symbol `??_7…` that has a size. */
  predicate InVftable(symbols: seq<Symbol>, site: Site) {
    exists i :: 0 <= i < |symbols| && IsVftableAt(symbols[i], site)
  }

  predicate IsVftableAt(symbol: Symbol, site: Site) {
    && "??_7" <= symbol.name && symbol.size > 0 && symbol.section == Some(site.0)
    && Wrap(symbol.address) <= site.1 < Wrap(symbol.address + symbol.size)
  }

  /** In a vftable the relocation of a `??_G` symbol goes to its alias, if it has one; nothing else has changed. */
  ghost predicate Retargeted(symbols: seq<Symbol>, site: Site, before: Reloc, after: Reloc) {
    before.symbol < |symbols| &&
    if InVftable(symbols, site) && exists i :: 0 <= i < |symbols| && IsAliasOf(symbols[i], symbols[before.symbol])
    then after == before.(symbol := after.symbol) && after.symbol < |symbols|
        && IsAliasOf(symbols[after.symbol], symbols[before.symbol])
    else after == before
  }

  datatype Candidate = Candidate(site: Site, target: Word)

  /** What the rest of the image says: blocked sites, the section of an address, the unit of a place. */
  datatype Image = Image(blocked: Site -> bool, sectionAt: Word -> Option<nat>, unitAt: Site -> Option<string>)

  /** The symbols of an image, and which of them are the linker's own labels. */
  datatype Symbols = Symbols(all: seq<Symbol>, byAddress: Lists<Word>, isLabel: string -> bool) {
    /**
     * What a target resolves to: a symbol found counts only if its size is known; if none is, the last sized
     * one that holds it.
     */
    ghost predicate Resolves(section: nat, target: Word, r: Option<nat>) {
      var query := Query(section, target, X86Abs32, isLabel);
      || (exists found: nat :: found < |all| && query.Finds(all, byAddress, Some(found))
                               && r == if all[found].sizeKnown then Some(found) else None)
      || (query.Finds(all, byAddress, None) && LastSized(all, section, target, r))
    }

    /** The candidate resolves to a symbol that its unit can name, and the relocation at its site refers to that. */
    ghost predicate Justifies(candidate: Candidate, image: Image, reloc: Reloc) {
      && candidate.target != 0 && !image.blocked(candidate.site) && image.sectionAt(candidate.target).Some?
      && Resolves(image.sectionAt(candidate.target).value, candidate.target, Some(reloc.symbol))
      && reloc.symbol < |all| && all[reloc.symbol].sizeKnown && Nameable(image, candidate, all[reloc.symbol])
      && reloc == Reloc(X86Abs32, reloc.symbol, candidate.target - all[reloc.symbol].address)
    }

    /** Why a candidate is left as it is: it is blocked, or resolves to nothing that its unit can name. */
    ghost predicate Passes(candidate: Candidate, image: Image) {
      || candidate.target == 0 || image.blocked(candidate.site) || image.sectionAt(candidate.target).None?
      || (exists r: Option<nat> ::
            Resolves(image.sectionAt(candidate.target).value, candidate.target, r)
            && (r.Some? ==> r.value < |all| && !Nameable(image, candidate, all[r.value])))
    }
  }

  /** A symbol that is local, or has an automatic name, can be named from its own unit only. */
  predicate Nameable(image: Image, candidate: Candidate, symbol: Symbol)
    requires image.sectionAt(candidate.target).Some?
  {
    (Local in symbol.flags || IsAuto(symbol)) ==>
      image.unitAt(candidate.site) == image.unitAt((image.sectionAt(candidate.target).value, Wrap(symbol.address)))
  }

  /** One candidate has been relocated, or there was a reason not to. */
  ghost predicate OneResolved(candidate: Candidate, symbols: Symbols, image: Image, relocations: map<Site, Reloc>,
                              targets: map<Site, int>, relocations': map<Site, Reloc>, targets': map<Site, int>) {
    if candidate.site in relocations || candidate.site !in relocations' then
      && relocations' == relocations && targets' == targets
      && (candidate.site in relocations || symbols.Passes(candidate, image))
    else
      && relocations' == relocations[candidate.site := relocations'[candidate.site]]
      && targets' == targets[candidate.site := candidate.target as int]
      && symbols.Justifies(candidate, image, relocations'[candidate.site])
  }

  /**
   * Of the first `n` candidates each is relocated or passed over; every new relocation is justified by one;
   * no old one changes.
   */
  ghost predicate Resolved(candidates: seq<Candidate>, n: nat, symbols: Symbols, image: Image, first: map<Site, Reloc>,
                           relocations: map<Site, Reloc>, targets: map<Site, int>)
    requires n <= |candidates|
  {
    && (forall site | site in first :: site in relocations && relocations[site] == first[site])
    && (forall i | 0 <= i < n :: candidates[i].site in relocations || symbols.Passes(candidates[i], image))
    && (forall site | site in relocations && site !in first ::
          exists i :: 0 <= i < n && JustifiedBy(candidates[i], symbols, image, site, relocations, targets))
  }

  ghost predicate JustifiedBy(candidate: Candidate, symbols: Symbols, image: Image, site: Site,
                              relocations: map<Site, Reloc>, targets: map<Site, int>) {
    && candidate.site == site && site in relocations && site in targets && targets[site] == candidate.target
    && symbols.Justifies(candidate, image, relocations[site])
  }

  lemma ResolvedNext(candidates: seq<Candidate>, n: nat, symbols: Symbols, image: Image, first: map<Site, Reloc>,
                     relocations: map<Site, Reloc>, targets: map<Site, int>,
                     relocations': map<Site, Reloc>, targets': map<Site, int>)
    requires n < |candidates| && Resolved(candidates, n, symbols, image, first, relocations, targets)
    requires OneResolved(candidates[n], symbols, image, relocations, targets, relocations', targets')
    ensures Resolved(candidates, n + 1, symbols, image, first, relocations', targets')
  {
    forall site | site in relocations' && site !in first
      ensures exists i :: 0 <= i < n + 1 && JustifiedBy(candidates[i], symbols, image, site, relocations', targets')
    {
      if site in relocations {
        var i :| 0 <= i < n && JustifiedBy(candidates[i], symbols, image, site, relocations, targets);
        assert JustifiedBy(candidates[i], symbols, image, site, relocations', targets');
      } else {
        assert JustifiedBy(candidates[n], symbols, image, site, relocations', targets');
      }
    }
  }
}
