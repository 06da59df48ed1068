/**
 * What `fold` in src/cmd/coff.rs leaves of a symbol's meaning: where its name now leads, and what stays in
 * the link.
 */
module CoffMeaning {
  import opened Wrappers
  import opened Words
  import opened Endian
  import opened CoffFormat
  import opened CoffFolding

  /** `e` is the alias entry inside the unit, and the object defines the primary at its address. */
  ghost predicate PrimaryOf(before: Before, r: Rec, e: FoldSymbol) {
    && r.name in before.symbols.byName && before.symbols.AliasInside(before.symbols.byName[r.name]) == Some(e)
    && e.address in before.symbols.primaryAt && before.symbols.primaryAt[e.address] in Defined(before.recs)
  }

  /** The record leads its section. */
  ghost predicate Leads(recs: seq<Rec>, k: int) {
    0 <= k < |recs| && recs[k].section in Leaders(recs) && Leaders(recs)[recs[k].section] == recs[k].off
  }

  /** Only leaders are folded. */
  ghost predicate LeadersFolded(plan: Plan)
    requires |plan.fates| == |plan.recs|
  {
    forall k | 0 <= k < |plan.recs| && plan.fates[k] != Keep :: Leads(plan.recs, k)
  }

  lemma OnlyLeadersFold(before: Before)
    requires before.Valid()
    ensures LeadersFolded(PlanOf(before))
  {
    var plan := PlanOf(before);
    forall k | 0 <= k < |plan.recs| && plan.fates[k] != Keep ensures Leads(plan.recs, k) {
      LeaderAt(before, k, plan.fates[k]);
    }
  }

  lemma LeaderAt(before: Before, k: nat, fate: Fate)
    requires before.Valid() && k < |before.recs| && fate == PlanOf(before).fates[k] && fate != Keep
    ensures Leads(before.recs, k)
  {
    FatesAt(before, |before.recs|, k);
    FoldedIsLeader(before, before.recs[k]);
  }

  ghost predicate LeaderFolded(plan: Plan, section: int)
    requires |plan.fates| == |plan.recs|
  {
    exists k :: Leads(plan.recs, k) && plan.recs[k].section == section && plan.fates[k] != Keep
  }

  /** A section is removed exactly when its leader is folded, or the section it is associated with is removed. */
  lemma RemovedIff(plan: Plan, assoc: map<int, int>, removed: set<int>, section: int)
    requires plan.Valid() && LeadersFolded(plan)
             && LeastClosed(assoc, FoldedSections(plan.recs, plan.fates, |plan.recs|), removed)
    ensures section in removed <==> LeaderFolded(plan, section) || (section in assoc && assoc[section] in removed)
  {
    var folded := FoldedSections(plan.recs, plan.fates, |plan.recs|);
    forall k | 0 <= k < |plan.recs| && plan.fates[k] != Keep && plan.recs[k].section == section
      ensures LeaderFolded(plan, section) {
      assert Leads(plan.recs, k);
    }
    forall k | Leads(plan.recs, k) && plan.recs[k].section == section && plan.fates[k] != Keep
      ensures section in folded {
      assert plan.recs[k].section in folded;
    }
    if section !in folded && !(section in assoc && assoc[section] in removed) {
      assert Closed(assoc, removed - {section});
    }
  }

  /** The primary is its section's leader, and that section is not associated with another. */
  ghost predicate PrimaryLeads(before: Before, assoc: map<int, int>, e: FoldSymbol) {
    && e.address in before.symbols.primaryAt && before.symbols.primaryAt[e.address] in Defined(before.recs)
    && var p := before.symbols.primaryAt[e.address];
       && Defined(before.recs)[p].1 !in assoc
       && exists k ::
            && Leads(before.recs, k) && before.recs[k].name == p
            && before.recs[k].section == Defined(before.recs)[p].1
  }

  /** Then the section an alias was pointed at stays in the link. */
  lemma AliasStaysLive(before: Before, assoc: map<int, int>, removed: set<int>, r: Rec, e: FoldSymbol)
    requires before.Valid() && PlanOf(before).Valid() && before.symbols.Primaries()
    requires LeastClosed(assoc, FoldedSections(before.recs, PlanOf(before).fates, |before.recs|), removed)
    requires PrimaryOf(before, r, e) && PrimaryLeads(before, assoc, e)
    ensures Defined(before.recs)[before.symbols.primaryAt[e.address]].1 !in removed
  {
    PrimaryStaysLive(before, assoc, removed, e);
  }

  /** The section of a primary inside the unit stays in the link, if it leads that section. */
  lemma PrimaryStaysLive(before: Before, assoc: map<int, int>, removed: set<int>, e: FoldSymbol)
    requires before.Valid() && PlanOf(before).Valid() && before.symbols.Primaries()
    requires LeastClosed(assoc, FoldedSections(before.recs, PlanOf(before).fates, |before.recs|), removed)
    requires before.symbols.Inside(e.address) && PrimaryLeads(before, assoc, e)
    ensures Defined(before.recs)[before.symbols.primaryAt[e.address]].1 !in removed
  {
    var p, plan := before.symbols.primaryAt[e.address], PlanOf(before);
    var section := Defined(before.recs)[p].1;
    OnlyLeadersFold(before);
    RemovedIff(plan, assoc, removed, section);
    var k :| Leads(before.recs, k) && before.recs[k].name == p && before.recs[k].section == section;
    OwnIsKept(before, k);
    forall m | Leads(before.recs, m) && before.recs[m].section == section ensures plan.fates[m] == Keep {
      SameLeader(before.recs, before.layout.symoff, before.layout.Stroff(), k, m);
    }
  }

  /** The unit's own definitions are never folded. */
  lemma OwnIsKept(before: Before, k: nat)
    requires before.Valid() && k < |before.recs|
    requires before.recs[k].name in before.symbols.byName
             && before.symbols.Own(before.symbols.byName[before.recs[k].name])
    ensures PlanOf(before).fates[k] == Keep
  {
    FatesAt(before, |before.recs|, k);
  }

  lemma SameLeader(recs: seq<Rec>, lo: int, hi: int, k: int, m: int)
    requires Spaced(recs, lo, hi) && Leads(recs, k) && Leads(recs, m) && recs[k].section == recs[m].section
    ensures k == m
  {
  }

  lemma {:induction false} DefiningRecord(recs: seq<Rec>, name: Bytes) returns (k: nat)
    requires name in Defined(recs)
    ensures k < |recs| && recs[k].name == name && IsDefinition(recs[k])
            && (recs[k].value, recs[k].section) == Defined(recs)[name]
  {
    var last := recs[|recs| - 1];
    if IsDefinition(last) && last.name == name {
      k := |recs| - 1;
    } else {
      k := DefiningRecord(recs[..|recs| - 1], name);
    }
  }

  lemma FateOfRecord(before: Before, j: nat)
    requires before.Valid() && j < |before.recs| && PlanOf(before).fates[j] != Keep
    ensures before.Fate(before.recs[j]) == Success(PlanOf(before).fates[j])
  {
    FatesAt(before, |before.recs|, j);
  }

  /** A leader folded out of the object is left an undefined external of its name; the unit has no alias of it. */
  lemma FoldedOutReads(before: Before, assoc: map<int, int>, removed: set<int>, d': Bytes, j: nat)
    requires before.Valid() && PlanOf(before).Valid() && FoldResult(before, assoc, removed, d')
    requires j < |before.recs| && PlanOf(before).fates[j] == FoldOut
    ensures FieldsRead(d', before.recs[j].(value := 0, section := 0, storage := EXTERNAL))
    ensures SymName(d', before.layout.Stroff(), before.recs[j].off) == before.recs[j].name
    ensures before.recs[j].name in before.symbols.byName
            && before.symbols.AliasInside(before.symbols.byName[before.recs[j].name]).None?
  {
    FateOfRecord(before, j);
    FoldedIsLeader(before, before.recs[j]);
    LeftAsExternal(before.recs[j]);
    FieldsLeft(before, assoc, removed, d', j, FoldOut);
  }

  lemma LeftAsExternal(r: Rec)
    requires IsDefinition(r)
    ensures Folded(r, FoldOut) == r.(value := 0, section := 0, storage := EXTERNAL)
  {
  }

  lemma FieldsLeft(before: Before, assoc: map<int, int>, removed: set<int>, d': Bytes, j: nat, fate: Fate)
    requires before.Valid() && PlanOf(before).Valid() && FoldResult(before, assoc, removed, d')
    requires j < |before.recs| && fate == PlanOf(before).fates[j]
    ensures FieldsRead(d', Folded(before.recs[j], fate))
    ensures SymName(d', before.layout.Stroff(), before.recs[j].off) == before.recs[j].name
  {
  }

  /** What the object says of where record `o` is. */
  function Location(d: Bytes, o: nat): (Word, int)
    requires o + 18 <= |d|
  {
    (Read32(d, o + 8), ReadSigned16(d, o + 12))
  }

  /** A leader that is an alias inside the unit reads, in the result, as the primary's own record does. */
  lemma AliasMeetsPrimary(before: Before, assoc: map<int, int>, removed: set<int>, d': Bytes,
                          j: nat) returns (e: FoldSymbol, k: nat)
    requires before.Valid() && PlanOf(before).Valid() && FoldResult(before, assoc, removed, d')
             && before.symbols.Primaries()
    requires j < |before.recs| && PlanOf(before).fates[j].Alias?
    ensures PrimaryOf(before, before.recs[j], e)
    ensures k < |before.recs| && IsDefinition(before.recs[k])
            && before.recs[k].name == before.symbols.primaryAt[e.address]
    ensures before.recs[k].off + 18 <= |d'| && before.recs[j].off + 18 <= |d'|
    ensures SymName(d', before.layout.Stroff(), before.recs[k].off) == before.symbols.primaryAt[e.address]
    ensures Location(d', before.recs[j].off) == Location(d', before.recs[k].off)
    ensures Location(d', before.recs[k].off) == (before.recs[k].value, before.recs[k].section)
    ensures PrimaryLeads(before, assoc, e) ==> Location(d', before.recs[j].off).1 !in removed
  {
    e, k := AliasRecords(before, j);
    RecordAfter(before, assoc, removed, d', j, PlanOf(before).fates[j]);
    RecordAfter(before, assoc, removed, d', k, Keep);
    LiveIfLeading(before, assoc, removed, before.recs[j], e, before.recs[k].section);
  }

  lemma LiveIfLeading(before: Before, assoc: map<int, int>, removed: set<int>, r: Rec, e: FoldSymbol, section: int)
    requires before.Valid() && PlanOf(before).Valid() && before.symbols.Primaries()
    requires LeastClosed(assoc, FoldedSections(before.recs, PlanOf(before).fates, |before.recs|), removed)
    requires PrimaryOf(before, r, e) && section == Defined(before.recs)[before.symbols.primaryAt[e.address]].1
    ensures PrimaryLeads(before, assoc, e) ==> section !in removed
  {
    if PrimaryLeads(before, assoc, e) {
      AliasStaysLive(before, assoc, removed, r, e);
    }
  }

  lemma RecordAfter(before: Before, assoc: map<int, int>, removed: set<int>, d': Bytes, j: nat, fate: Fate)
    requires before.Valid() && PlanOf(before).Valid() && FoldResult(before, assoc, removed, d')
    requires j < |before.recs| && fate == PlanOf(before).fates[j]
    ensures before.recs[j].off + 18 <= |d'|
            && SymName(d', before.layout.Stroff(), before.recs[j].off) == before.recs[j].name
    ensures var f := Folded(before.recs[j], fate); Location(d', before.recs[j].off) == (f.value, f.section)
  {
    LocationOf(d', before.recs[j].off, Folded(before.recs[j], fate));
  }

  lemma LocationOf(d: Bytes, o: nat, r: Rec)
    requires FieldsRead(d, r) && o == r.off
    ensures Location(d, o) == (r.value, r.section)
  {
  }

  lemma AliasRecords(before: Before, j: nat) returns (e: FoldSymbol, k: nat)
    requires before.Valid() && before.symbols.Primaries() && j < |before.recs| && PlanOf(before).fates[j].Alias?
    ensures PrimaryOf(before, before.recs[j], e)
    ensures k < |before.recs| && IsDefinition(before.recs[k])
            && before.recs[k].name == before.symbols.primaryAt[e.address]
    ensures PlanOf(before).fates[j].value == before.recs[k].value
    ensures PlanOf(before).fates[j].section == before.recs[k].section
    ensures before.recs[k].section == Defined(before.recs)[before.symbols.primaryAt[e.address]].1
    ensures PlanOf(before).fates[k] == Keep
  {
    FateOfRecord(before, j);
    e := AliasEntry(before, before.recs[j]);
    k := DefiningRecord(before.recs, before.symbols.primaryAt[e.address]);
    OwnIsKept(before, k);
  }

  lemma AliasEntry(before: Before, r: Rec) returns (e: FoldSymbol)
    requires before.Valid() && before.Fate(r).Success? && before.Fate(r).value.Alias?
    ensures PrimaryOf(before, r, e) && e.alias && before.symbols.Inside(e.address)
    ensures (before.Fate(r).value.value, before.Fate(r).value.section) ==
              Defined(before.recs)[before.symbols.primaryAt[e.address]]
  {
    e := before.symbols.AliasInside(before.symbols.byName[r.name]).value;
  }
}
