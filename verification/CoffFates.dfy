/**
 * Which symbols `fold` in src/cmd/coff.rs must fold and which it must leave alone, told from the records, the
 * section headers and the symbols file.
 */
module CoffFates {
  import opened Wrappers
  import opened Words
  import opened Endian
  import opened CoffFormat
  import opened CoffFolding
  import CoffAliases
  import CoffAppending

  /** In a section, and external or static with the derived type "function" (`0x20` under the mask `0x30`). */
  predicate Defines(r: Rec) {
    r.section > 0 && (r.storage == 2 || (r.storage == 3 && r.kind >= 0 && BitAt(r.kind, 5) && !BitAt(r.kind, 4)))
  }

  ghost predicate FirstDefinition(recs: seq<Rec>, i: int) {
    0 <= i < |recs| && Defines(recs[i])
    && forall j | 0 <= j < i && Defines(recs[j]) :: recs[j].section != recs[i].section
  }

  ghost predicate LastDefinition(recs: seq<Rec>, name: Bytes, k: int) {
    0 <= k < |recs| && Defines(recs[k]) && recs[k].name == name
    && forall j | k < j < |recs| && Defines(recs[j]) :: recs[j].name != name
  }

  ghost predicate InUnit(symbols: Symbols, a: Word) {
    exists range :: range in symbols.ranges && range.0 <= a < range.1
  }

  /** The symbols file lists the name, and nowhere inside the unit but as an alias. */
  ghost predicate NotOwned(symbols: Symbols, name: Bytes) {
    name in symbols.byName && forall e | e in symbols.byName[name] :: e.alias || !InUnit(symbols, e.address)
  }

  /** Some alias entry lies inside the unit or is not private to another. */
  ghost predicate Shared(symbols: Symbols, name: Bytes) {
    name in symbols.byName
    && exists e :: e in symbols.byName[name] && e.alias && (InUnit(symbols, e.address) || !e.local)
  }

  /** The symbols file places the leader's name elsewhere; a static one only if it may be shared. */
  ghost predicate PlacedElsewhere(before: Before, i: nat)
    requires i < |before.recs|
  {
    var r := before.recs[i];
    && FirstDefinition(before.recs, i) && r.name != [] && NotOwned(before.symbols, r.name)
    && (r.storage == 3 ==> Shared(before.symbols, r.name))
  }

  ghost predicate InComdat(before: Before, r: Rec)
    requires before.layout.Fits(before.d)
  {
    1 <= r.section <= before.layout.nsec && BitAt(SectionChars(before.d, r.section), 12)
  }

  /** The record must be folded. */
  ghost predicate MustFold(before: Before, i: nat)
    requires before.layout.Fits(before.d) && i < |before.recs|
  {
    PlacedElsewhere(before, i) && InComdat(before, before.recs[i])
  }

  /** Entry `n` is the first alias of the name inside the unit. */
  ghost predicate FirstAlias(symbols: Symbols, name: Bytes, n: int) {
    && name in symbols.byName && 0 <= n < |symbols.byName[name]|
    && symbols.byName[name][n].alias && InUnit(symbols, symbols.byName[name][n].address)
    && forall j | 0 <= j < n && symbols.byName[name][j].alias :: !InUnit(symbols, symbols.byName[name][j].address)
  }

  /** The object defines, at record `k`, the primary of the address that entry `n` gives the name. */
  ghost predicate PrimaryAt(before: Before, name: Bytes, n: int, k: int) {
    && FirstAlias(before.symbols, name, n) && before.symbols.byName[name][n].address in before.symbols.primaryAt
    && LastDefinition(before.recs, before.symbols.primaryAt[before.symbols.byName[name][n].address], k)
  }

  /** The folding is given up at this record: its section has no header, or its alias has no primary here. */
  ghost predicate MustFail(before: Before, i: nat)
    requires before.layout.Fits(before.d) && i < |before.recs|
  {
    var r := before.recs[i];
    && PlacedElsewhere(before, i)
    && (r.section > before.layout.nsec
        || (InComdat(before, r) && exists n :: FirstAlias(before.symbols, r.name, n)
                                               && forall k :: !PrimaryAt(before, r.name, n, k)))
  }

  /** What is to be left of a record: itself, a second name for its primary, or an undefined external. */
  ghost predicate MustBecome(before: Before, i: nat, after: Rec)
    requires before.layout.Fits(before.d) && i < |before.recs|
  {
    var r := before.recs[i];
    if !MustFold(before, i) then after == r
    else if exists n :: FirstAlias(before.symbols, r.name, n) then
      exists n, k ::
        && PrimaryAt(before, r.name, n, k)
        && after == Rec(r.off, r.name, before.recs[k].value, before.recs[k].section, if r.storage == 3 then 6 else 2,
                        r.kind)
    else after == Rec(r.off, r.name, 0, 0, 2, r.kind)
  }

  lemma {:induction false} BitIs(x: nat, k: nat, half: nat)
    requires half == x / 2
    ensures BitAt(x, k + 1) == BitAt(half, k)
  {
  }

  lemma HighBits(x: nat)
    ensures x / 0x10 % 4 == 2 <==> BitAt(x, 5) && !BitAt(x, 4)
  {
    var a := x / 2;
    var b := a / 2;
    var c := b / 2;
    var e := c / 2;
    var f := e / 2;
    BitIs(x, 4, a);
    BitIs(a, 3, b);
    BitIs(b, 2, c);
    BitIs(c, 1, e);
    BitIs(e, 0, f);
    BitIs(x, 3, a);
    BitIs(a, 2, b);
    BitIs(b, 1, c);
    BitIs(c, 0, e);
    assert e == x / 0x10;
    TwoBits(e, f);
  }

  lemma TwoBits(e: nat, f: nat)
    requires f == e / 2
    ensures e % 4 == 2 <==> BitAt(f, 0) && !BitAt(e, 0)
  {
  }

  lemma DefinesIff(r: Rec)
    requires r.kind >= 0
    ensures Defines(r) <==> IsDefinition(r)
  {
    HighBits(r.kind);
  }

  lemma InUnitIff(symbols: Symbols, a: Word)
    ensures InUnit(symbols, a) <==> symbols.Inside(a)
  {
    if InUnit(symbols, a) {
      var range :| range in symbols.ranges && range.0 <= a < range.1;
      var i :| 0 <= i < |symbols.ranges| && symbols.ranges[i] == range;
    }
  }

  lemma NotOwnedIff(symbols: Symbols, name: Bytes)
    requires name in symbols.byName
    ensures NotOwned(symbols, name) <==> !symbols.Own(symbols.byName[name])
    ensures Shared(symbols, name) <==> symbols.StaticMayFold(symbols.byName[name])
  {
    forall a ensures InUnit(symbols, a) <==> symbols.Inside(a) { InUnitIff(symbols, a); }
    var entries := symbols.byName[name];
    if !NotOwned(symbols, name) {
      var e :| e in entries && !e.alias && InUnit(symbols, e.address);
      var i :| 0 <= i < |entries| && entries[i] == e;
    }
    if Shared(symbols, name) {
      var e :| e in entries && e.alias && (InUnit(symbols, e.address) || !e.local);
      var i :| 0 <= i < |entries| && entries[i] == e;
    }
  }

  /** `leader` has the first definition of each section. */
  lemma {:induction false} LeadersAre(recs: seq<Rec>, section: int)
    requires forall i | 0 <= i < |recs| :: recs[i].kind >= 0
    ensures section in Leaders(recs) ==>
              exists i ::
                FirstDefinition(recs, i) && recs[i].section == section && recs[i].off == Leaders(recs)[section]
    ensures section !in Leaders(recs) ==> forall i | 0 <= i < |recs| && Defines(recs[i]) :: recs[i].section != section
  {
    if recs != [] {
      var front, last := recs[..|recs| - 1], recs[|recs| - 1];
      DefinesIff(last);
      LeadersAre(front, section);
      if section in Leaders(front) {
        var i :| FirstDefinition(front, i) && front[i].section == section && front[i].off == Leaders(front)[section];
        assert FirstDefinition(recs, i) && recs[i] == front[i];
      } else if section in Leaders(recs) {
        assert FirstDefinition(recs, |recs| - 1);
      }
    }
  }

  lemma LeaderIff(recs: seq<Rec>, lo: int, hi: int, i: nat)
    requires Spaced(recs, lo, hi) && i < |recs| && forall j | 0 <= j < |recs| :: recs[j].kind >= 0
    ensures recs[i].section in Leaders(recs) && Leaders(recs)[recs[i].section] == recs[i].off
            <==> FirstDefinition(recs, i)
  {
    var section := recs[i].section;
    LeadersAre(recs, section);
    if section in Leaders(recs) {
      var j :| FirstDefinition(recs, j) && recs[j].section == section && recs[j].off == Leaders(recs)[section];
      assert i < j || j < i || i == j;
    }
  }

  /** `defined` has the last definition of each name. */
  lemma {:induction false} DefinedAre(recs: seq<Rec>, name: Bytes)
    requires forall i | 0 <= i < |recs| :: recs[i].kind >= 0
    ensures name in Defined(recs) ==>
              exists k :: LastDefinition(recs, name, k) && Defined(recs)[name] == (recs[k].value, recs[k].section)
    ensures name !in Defined(recs) ==> forall k :: !LastDefinition(recs, name, k)
  {
    if recs != [] {
      var front, last := recs[..|recs| - 1], recs[|recs| - 1];
      DefinesIff(last);
      DefinedAre(front, name);
      if IsDefinition(last) && last.name == name {
        assert LastDefinition(recs, name, |recs| - 1);
      } else if name in Defined(front) {
        var k :| LastDefinition(front, name, k) && Defined(front)[name] == (front[k].value, front[k].section);
        assert LastDefinition(recs, name, k) && recs[k] == front[k];
      } else {
        forall k ensures !LastDefinition(recs, name, k) {
          assert !LastDefinition(front, name, k);
        }
      }
    }
  }

  lemma {:induction false} AliasIs(symbols: Symbols, entries: seq<FoldSymbol>)
    ensures symbols.AliasInside(entries).Some? ==>
              exists n :: 0 <= n < |entries| && entries[n] == symbols.AliasInside(entries).value
                && forall j | 0 <= j < n && entries[j].alias :: !symbols.Inside(entries[j].address)
  {
    if entries != [] && !(entries[0].alias && symbols.Inside(entries[0].address)) {
      AliasIs(symbols, entries[1..]);
      if symbols.AliasInside(entries).Some? {
        var n :| 0 <= n < |entries| - 1 && entries[1..][n] == symbols.AliasInside(entries).value
          && forall j | 0 <= j < n && entries[1..][j].alias :: !symbols.Inside(entries[1..][j].address);
        forall j | 0 <= j < n + 1 && entries[j].alias ensures !symbols.Inside(entries[j].address) {
          if j > 0 {
            assert entries[1..][j - 1] == entries[j];
          }
        }
        assert entries[n + 1] == symbols.AliasInside(entries).value;
      }
    }
  }

  lemma FirstAliasIs(symbols: Symbols, name: Bytes) returns (n: int)
    requires name in symbols.byName
    ensures symbols.AliasInside(symbols.byName[name]).Some? ==>
              FirstAlias(symbols, name, n) && symbols.byName[name][n] == symbols.AliasInside(symbols.byName[name]).value
    ensures symbols.AliasInside(symbols.byName[name]).None? ==> forall m :: !FirstAlias(symbols, name, m)
  {
    var entries := symbols.byName[name];
    forall a ensures InUnit(symbols, a) <==> symbols.Inside(a) { InUnitIff(symbols, a); }
    AliasIs(symbols, entries);
    n := 0;
    if symbols.AliasInside(entries).Some? {
      n :| 0 <= n < |entries| && entries[n] == symbols.AliasInside(entries).value
        && forall j | 0 <= j < n && entries[j].alias :: !symbols.Inside(entries[j].address);
    } else {
      forall m ensures !FirstAlias(symbols, name, m) {
        assert 0 <= m < |entries| ==> entries[m] in entries;
      }
    }
  }

  /** There is one first alias. */
  lemma OneFirstAlias(symbols: Symbols, name: Bytes, n: int, m: int)
    requires FirstAlias(symbols, name, n) && FirstAlias(symbols, name, m)
    ensures n == m
  {
  }

  lemma KindsFit(before: Before)
    requires before.Valid()
    ensures forall i | 0 <= i < |before.recs| :: before.recs[i].kind >= 0
  {
    forall i | 0 <= i < |before.recs| ensures before.recs[i].kind >= 0 {
      ReadsAsAt(before.d, before.layout.Stroff(), before.recs, i);
    }
  }

  lemma ElsewhereIff(before: Before, i: nat)
    requires before.Valid() && i < |before.recs|
    ensures var r := before.recs[i];
            PlacedElsewhere(before, i) <==>
              && r.section in Leaders(before.recs) && Leaders(before.recs)[r.section] == r.off && r.name != []
              && r.name in before.symbols.byName && !before.symbols.Own(before.symbols.byName[r.name])
              && (r.storage == 3 ==> before.symbols.StaticMayFold(before.symbols.byName[r.name]))
  {
    var r := before.recs[i];
    KindsFit(before);
    LeaderIff(before.recs, before.layout.symoff, before.layout.Stroff(), i);
    if r.name in before.symbols.byName {
      NotOwnedIff(before.symbols, r.name);
    }
  }

  /** Exactly the records that must be folded are, each to what it must become; and it fails exactly where it must. */
  lemma FateIff(before: Before, i: nat)
    requires before.Valid() && i < |before.recs|
    ensures before.Fate(before.recs[i]).Failure? <==> MustFail(before, i)
    ensures before.Fate(before.recs[i]).Success? ==>
              var fate := before.Fate(before.recs[i]).value;
              (fate != Keep <==> MustFold(before, i)) && MustBecome(before, i, Folded(before.recs[i], fate))
  {
    var r := before.recs[i];
    ElsewhereIff(before, i);
    if PlacedElsewhere(before, i) {
      assert r.section > 0 && (r.storage == 2 || r.storage == 3);
      if InComdat(before, r) {
        ComdatFate(before, i);
      }
    }
  }

  lemma ComdatFate(before: Before, i: nat)
    requires before.Valid() && i < |before.recs| && MustFold(before, i)
    ensures before.Fate(before.recs[i]).Failure? <==> MustFail(before, i)
    ensures before.Fate(before.recs[i]).Success? ==>
              var fate := before.Fate(before.recs[i]).value;
              fate != Keep && MustBecome(before, i, Folded(before.recs[i], fate))
  {
    var r, symbols := before.recs[i], before.symbols;
    ElsewhereIff(before, i);
    KindsFit(before);
    var n := FirstAliasIs(symbols, r.name);
    forall m | FirstAlias(symbols, r.name, m) && symbols.AliasInside(symbols.byName[r.name]).Some? ensures m == n {
      OneFirstAlias(symbols, r.name, n, m);
    }
    if symbols.AliasInside(symbols.byName[r.name]).Some? {
      var address := symbols.byName[r.name][n].address;
      if address in symbols.primaryAt {
        DefinedAre(before.recs, symbols.primaryAt[address]);
        forall k ensures PrimaryAt(before, r.name, n, k)
                         <==> LastDefinition(before.recs, symbols.primaryAt[address], k) {
        }
      }
    }
  }

  /** The folding is given up exactly if it must be at some record. */
  lemma FoldFailsIff(before: Before)
    requires before.Valid()
    ensures AllSuccess(FatesOf(before), |before.recs|) <==> forall i | 0 <= i < |before.recs| :: !MustFail(before, i)
  {
    forall i | 0 <= i < |before.recs| ensures FatesOf(before)[i].Failure? <==> MustFail(before, i) {
      FatesAt(before, |before.recs|, i);
      FateIff(before, i);
    }
  }

  /** What the bytes left say of record `i`. */
  ghost predicate ReadsAfter(before: Before, i: nat, d': Bytes)
    requires before.layout.Fits(before.d) && i < |before.recs|
  {
    exists after ::
      && MustBecome(before, i, after) && FieldsRead(d', after)
      && SymName(d', before.layout.Stroff(), before.recs[i].off) == before.recs[i].name
  }

  ghost function MustGo(before: Before): set<int>
    requires before.layout.Fits(before.d)
  {
    set i | 0 <= i < |before.recs| && MustFold(before, i) :: before.recs[i].section
  }

  /**
   * In the bytes left every record reads as it must, and the sections removed are the least closed set over those
   * of the records that must be folded.
   */
  lemma FoldIs(before: Before, assoc: map<int, int>, removed: set<int>, d': Bytes)
    requires before.Valid() && PlanOf(before).Valid() && AllSuccess(FatesOf(before), |before.recs|)
    requires FoldResult(before, assoc, removed, d')
    ensures forall i | 0 <= i < |before.recs| :: ReadsAfter(before, i, d')
    ensures LeastClosed(assoc, MustGo(before), removed)
  {
    forall i | 0 <= i < |before.recs|
      ensures ReadsAfter(before, i, d') && (PlanOf(before).fates[i] != Keep <==> MustFold(before, i)) {
      FatesAt(before, |before.recs|, i);
      FateIff(before, i);
      assert MustBecome(before, i, Folded(before.recs[i], PlanOf(before).fates[i]));
    }
    GoingIs(before);
  }

  /** The sections of the records folded are those of the records that must be. */
  lemma GoingIs(before: Before)
    requires before.Valid()
    ensures AllSuccess(FatesOf(before), |before.recs|) ==>
              MustGo(before) == FoldedSections(before.recs, PlanOf(before).fates, |before.recs|)
  {
    if AllSuccess(FatesOf(before), |before.recs|) {
      forall i | 0 <= i < |before.recs| ensures PlanOf(before).fates[i] != Keep <==> MustFold(before, i) {
        FatesAt(before, |before.recs|, i);
        FateIff(before, i);
      }
      assert MustGo(before) == FoldedSections(before.recs, PlanOf(before).fates, |before.recs|);
    }
  }

  /** A section symbol: static, of no type and value, whose auxiliary record selects association with `parent`. */
  ghost predicate NamesParent(d: Bytes, r: Rec, parent: int) {
    && r.storage == 3 && r.kind == 0 && r.section > 0 && r.value == 0 && r.off + 36 <= |d| && d[r.off + 17] != 0
    && var aux := r.off + 18;
       d[aux + 14] == 5 && parent == (d[aux + 12] as int) + 0x100 * (d[aux + 13] as int)
  }

  /** A section's parent is what the last of its section symbols names. */
  lemma {:induction false} AssociationsAre(d: Bytes, recs: seq<Rec>, section: int)
    ensures section in Associations(d, recs) <==>
            exists i, parent :: 0 <= i < |recs| && recs[i].section == section && NamesParent(d, recs[i], parent)
    ensures section in Associations(d, recs) ==>
              exists i :: 0 <= i < |recs| && recs[i].section == section
                && NamesParent(d, recs[i], Associations(d, recs)[section])
                && forall j, parent | i < j < |recs| && recs[j].section == section :: !NamesParent(d, recs[j], parent)
  {
    if recs != [] {
      var front, last := recs[..|recs| - 1], recs[|recs| - 1];
      AssociationsAre(d, front, section);
      ParentIs(d, last);
      if IsAssociative(d, last) && last.section == section {
        assert NamesParent(d, last, Associations(d, recs)[section]);
      } else if section in Associations(d, front) {
        var i :| 0 <= i < |front| && front[i].section == section
                 && NamesParent(d, front[i], Associations(d, front)[section])
                 && forall j, parent | i < j < |front| && front[j].section == section ::
                      !NamesParent(d, front[j], parent);
        assert recs[i] == front[i];
      }
    }
  }

  lemma ParentIs(d: Bytes, r: Rec)
    ensures IsAssociative(d, r) ==> NamesParent(d, r, Read16(d, r.off + 30))
    ensures forall parent | NamesParent(d, r, parent) :: IsAssociative(d, r) && parent == Read16(d, r.off + 30)
  {
    if r.off + 36 <= |d| {
      var two := d[r.off + 30..r.off + 32];
      assert two[1..] == [two[1]] && two[1..][1..] == [];
      assert Value(two[1..]) == two[1] && Value(two) == (two[0] as int) + 0x100 * Value(two[1..]);
    }
  }

  /** Entry `n` is the first alias of the name inside the unit that other units may refer to. */
  ghost predicate FirstPublic(symbols: Symbols, name: Bytes, n: int) {
    && name in symbols.byName && 0 <= n < |symbols.byName[name]| && IsPublic(symbols, symbols.byName[name][n])
    && forall j | 0 <= j < n :: !IsPublic(symbols, symbols.byName[name][j])
  }

  ghost predicate IsPublic(symbols: Symbols, e: FoldSymbol) {
    e.alias && !e.local && InUnit(symbols, e.address)
  }

  /** The object lacks the name, a public alias of the unit, and defines its primary at record `k`. */
  ghost predicate MustDefine(before: Before, name: Bytes, n: int, k: int) {
    && (forall i | 0 <= i < |before.recs| && Defines(before.recs[i]) :: before.recs[i].name != name)
    && FirstPublic(before.symbols, name, n) && before.symbols.byName[name][n].address in before.symbols.primaryAt
    && LastDefinition(before.recs, before.symbols.primaryAt[before.symbols.byName[name][n].address], k)
  }

  ghost predicate Undefined(r: Rec, name: Bytes) {
    r.name == name && r.section == 0 && r.storage == 2 && r.value == 0
  }

  /** The type is that of the first record at the place of record `k`, which bears its name. */
  ghost predicate TypeAt(recs: seq<Rec>, k: int, kind: int) {
    0 <= k < |recs| && exists i :: SamePlace(recs, i, k) && recs[i].kind == kind
                                   && forall j | 0 <= j < i :: !SamePlace(recs, j, k)
  }

  ghost predicate SamePlace(recs: seq<Rec>, i: int, k: int) {
    && 0 <= i < |recs| && 0 <= k < |recs| && recs[i].name == recs[k].name
    && recs[i].section == recs[k].section && recs[i].value == recs[k].value
  }

  /** The first undefined record of the name becomes the definition; where there is none, one is appended. */
  ghost predicate Places(recs: seq<Rec>, name: Bytes, k: int, kind: int, action: CoffAliases.Action) {
    && 0 <= k < |recs|
    && if exists j :: 0 <= j < |recs| && Undefined(recs[j], name) then
         exists j ::
           && 0 <= j < |recs| && Undefined(recs[j], name) && (forall i | 0 <= i < j :: !Undefined(recs[i], name))
           && action == CoffAliases.Rewrite(Rec(recs[j].off, name, recs[k].value, recs[k].section, 2, kind))
       else action == CoffAliases.Append(CoffAppending.Def(name, recs[k].value, recs[k].section, kind))
  }

  /** What must be done for a name of the symbols file. */
  ghost predicate MustDo(before: Before, name: Bytes, action: CoffAliases.Action) {
    if exists n, k :: MustDefine(before, name, n, k) then
      exists n, k, kind ::
        MustDefine(before, name, n, k) && TypeAt(before.recs, k, kind) && Places(before.recs, name, k, kind, action)
    else action == CoffAliases.Skip
  }

  lemma PublicAliasIs(symbols: Symbols, name: Bytes, entries: seq<FoldSymbol>) returns (n: int)
    ensures CoffAliases.PublicAlias(symbols, entries).Some? ==>
              && 0 <= n < |entries| && entries[n] == CoffAliases.PublicAlias(symbols, entries).value
              && IsPublic(symbols, entries[n]) && forall j | 0 <= j < n :: !IsPublic(symbols, entries[j])
    ensures CoffAliases.PublicAlias(symbols, entries).None? ==> forall e | e in entries :: !IsPublic(symbols, e)
  {
    forall a ensures InUnit(symbols, a) <==> symbols.Inside(a) { InUnitIff(symbols, a); }
    n := 0;
    if entries != [] && !IsPublic(symbols, entries[0]) {
      var m := PublicAliasIs(symbols, name, entries[1..]);
      n := m + 1;
      assert forall j | 0 < j < |entries| :: entries[j] == entries[1..][j - 1];
    }
  }

  lemma OnePublic(symbols: Symbols, name: Bytes, n: int, m: int)
    requires FirstPublic(symbols, name, n) && FirstPublic(symbols, name, m)
    ensures n == m
  {
  }

  lemma {:induction false} UndefinedIs(recs: seq<Rec>, name: Bytes)
    ensures var r := CoffAliases.FirstUndefined(recs, name);
            if r.Some? then r.value < |recs| && Undefined(recs[r.value], name)
                            && forall i | 0 <= i < r.value :: !Undefined(recs[i], name)
            else forall i | 0 <= i < |recs| :: !Undefined(recs[i], name)
  {
    if recs != [] && !Undefined(recs[0], name) {
      UndefinedIs(recs[1..], name);
      assert forall i | 0 < i < |recs| :: recs[i] == recs[1..][i - 1];
    }
  }

  lemma {:induction false} KindIs(recs: seq<Rec>, name: Bytes, value: Word, section: int, i: nat)
    requires i < |recs| && CoffAliases.IsAt(recs[i], name, value, section)
    ensures exists k :: 0 <= k <= i && CoffAliases.IsAt(recs[k], name, value, section)
              && recs[k].kind == CoffAliases.KindOf(recs, name, value, section)
              && forall j | 0 <= j < k :: !CoffAliases.IsAt(recs[j], name, value, section)
  {
    if !CoffAliases.IsAt(recs[0], name, value, section) {
      KindIs(recs[1..], name, value, section, i - 1);
      var k :| 0 <= k <= i - 1 && CoffAliases.IsAt(recs[1..][k], name, value, section)
        && recs[1..][k].kind == CoffAliases.KindOf(recs[1..], name, value, section)
        && forall j | 0 <= j < k :: !CoffAliases.IsAt(recs[1..][j], name, value, section);
      assert recs[k + 1] == recs[1..][k];
      forall j | 0 <= j < k + 1 ensures !CoffAliases.IsAt(recs[j], name, value, section) {
        assert j > 0 ==> recs[j] == recs[1..][j - 1];
      }
    }
  }

  lemma TypeIs(recs: seq<Rec>, k: nat)
    requires k < |recs|
    ensures TypeAt(recs, k, CoffAliases.KindOf(recs, recs[k].name, recs[k].value, recs[k].section))
  {
    var r := recs[k];
    KindIs(recs, r.name, r.value, r.section, k);
    var i :| 0 <= i <= k && CoffAliases.IsAt(recs[i], r.name, r.value, r.section)
      && recs[i].kind == CoffAliases.KindOf(recs, r.name, r.value, r.section)
      && forall j | 0 <= j < i :: !CoffAliases.IsAt(recs[j], r.name, r.value, r.section);
    assert SamePlace(recs, i, k);
  }

  /** For each name of the symbols file exactly what must be done is done. */
  lemma ActionIs(before: Before, name: Bytes)
    requires before.Valid() && name in before.symbols.byName
    ensures MustDo(before, name, CoffAliases.ActionOf(before.symbols, before.recs, Defined(before.recs), name))
  {
    KindsFit(before);
    LackedIff(before, name);
    var n := PublicAliasIs(before.symbols, name, before.symbols.byName[name]);
    var entry := CoffAliases.PublicAlias(before.symbols, before.symbols.byName[name]);
    if entry.None? {
      forall m ensures !FirstPublic(before.symbols, name, m) {
        assert 0 <= m < |before.symbols.byName[name]| ==> before.symbols.byName[name][m] in before.symbols.byName[name];
      }
    } else {
      assert FirstPublic(before.symbols, name, n);
      forall m | FirstPublic(before.symbols, name, m) ensures m == n { OnePublic(before.symbols, name, n, m); }
      if entry.value.address in before.symbols.primaryAt {
        DefinedAre(before.recs, before.symbols.primaryAt[entry.value.address]);
      }
      if CoffAliases.Missing(before, name) {
        DefineAt(before, name, n);
      }
    }
  }

  lemma LackedIff(before: Before, name: Bytes)
    requires before.Valid()
    ensures name !in Defined(before.recs) <==>
            forall i | 0 <= i < |before.recs| && Defines(before.recs[i]) :: before.recs[i].name != name
  {
    KindsFit(before);
    DefinedAre(before.recs, name);
    if name !in Defined(before.recs) {
      Lacked(before.recs, name);
    }
  }

  lemma {:induction false} Lacked(recs: seq<Rec>, name: Bytes)
    requires name !in Defined(recs) && forall i | 0 <= i < |recs| :: recs[i].kind >= 0
    ensures forall i | 0 <= i < |recs| && Defines(recs[i]) :: recs[i].name != name
  {
    if recs != [] {
      DefinesIff(recs[|recs| - 1]);
      Lacked(recs[..|recs| - 1], name);
    }
  }

  lemma PlacesIs(recs: seq<Rec>, name: Bytes, k: int, kind: int)
    requires 0 <= k < |recs|
    ensures Places(recs, name, k, kind,
                   match CoffAliases.FirstUndefined(recs, name)
                   case Some(j) =>
                     CoffAliases.Rewrite(recs[j].(value := recs[k].value, section := recs[k].section, kind := kind))
                   case None => CoffAliases.Append(CoffAppending.Def(name, recs[k].value, recs[k].section, kind)))
  {
    UndefinedIs(recs, name);
  }

  lemma DefineAt(before: Before, name: Bytes, n: int)
    requires before.Valid() && name in before.symbols.byName && CoffAliases.Missing(before, name)
    requires FirstPublic(before.symbols, name, n)
    requires CoffAliases.PublicAlias(before.symbols, before.symbols.byName[name])
             == Some(before.symbols.byName[name][n])
    ensures MustDo(before, name, CoffAliases.ActionOf(before.symbols, before.recs, Defined(before.recs), name))
  {
    var primary := before.symbols.primaryAt[before.symbols.byName[name][n].address];
    KindsFit(before);
    LackedIff(before, name);
    DefinedAre(before.recs, primary);
    var k :| LastDefinition(before.recs, primary, k)
      && Defined(before.recs)[primary] == (before.recs[k].value, before.recs[k].section);
    var kind := CoffAliases.KindOf(before.recs, primary, before.recs[k].value, before.recs[k].section);
    TypeIs(before.recs, k);
    PlacesIs(before.recs, name, k, kind);
    assert MustDefine(before, name, n, k);
  }
}
