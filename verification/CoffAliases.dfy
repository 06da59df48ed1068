/**
 * The aliases that `fold` in src/cmd/coff.rs defines because the object lacks them: the name is inline here,
 * but another unit may refer to it. An undefined record of the name becomes the definition; where there is
 * none, a record is appended.
 */
module CoffAliases {
  import opened Wrappers
  import opened Words
  import opened Endian
  import opened CoffFormat
  import opened CoffFolding
  import opened CoffMeaning
  import CoffAppending

  type Def = CoffAppending.Def

  /** What is done for a name: nothing, a record as it becomes, or a record to be appended. */
  datatype Action = Skip | Rewrite(rec: Rec) | Append(def: Def) {
    predicate Valid() {
      match this
      case Skip => true
      case Rewrite(rec) => 0 < rec.section < 0x8000 && 0 <= rec.kind < 0x1_0000
      case Append(def) => def.Valid()
    }

    predicate Covers(k: int) {
      Rewrite? && rec.off + 8 <= k < rec.off + 16
    }
  }

  /** The first alias entry inside the unit that is not private. */
  function PublicAlias(symbols: Symbols, entries: seq<FoldSymbol>): (r: Option<FoldSymbol>)
    ensures r.Some? ==> r.value in entries && r.value.alias && !r.value.local && symbols.Inside(r.value.address)
    ensures r.None? ==> forall e | e in entries :: !(e.alias && !e.local && symbols.Inside(e.address))
  {
    if entries == [] then None
    else if entries[0].alias && !entries[0].local && symbols.Inside(entries[0].address) then Some(entries[0])
    else PublicAlias(symbols, entries[1..])
  }

  predicate IsAt(r: Rec, name: Bytes, value: Word, section: int) {
    r.name == name && r.section == section && r.value == value
  }

  /** The type of the first record at the primary's location; a function's if there is none. */
  function KindOf(recs: seq<Rec>, name: Bytes, value: Word, section: int): (kind: int)
    ensures (kind == 0x20 && forall r | r in recs :: !IsAt(r, name, value, section))
            || exists r :: r in recs && IsAt(r, name, value, section) && r.kind == kind
  {
    if recs == [] then 0x20
    else if IsAt(recs[0], name, value, section) then recs[0].kind
    else KindOf(recs[1..], name, value, section)
  }

  predicate IsUndefined(r: Rec, name: Bytes) {
    r.name == name && r.section == 0 && r.storage == EXTERNAL && r.value == 0
  }

  /** The first undefined record of the name. */
  function FirstUndefined(recs: seq<Rec>, name: Bytes): (r: Option<nat>)
    ensures r.Some? ==> r.value < |recs| && IsUndefined(recs[r.value], name)
    ensures r.None? ==> forall rec | rec in recs :: !IsUndefined(rec, name)
  {
    if recs == [] then None
    else if IsUndefined(recs[0], name) then Some(0)
    else
      var rest := FirstUndefined(recs[1..], name);
      if rest.Some? then Some(rest.value + 1) else None
  }

  /** What the loop over the names does for one of them. */
  function ActionOf(symbols: Symbols, recs: seq<Rec>, defined: map<Bytes, (Word, int)>, name: Bytes): Action
    requires name in symbols.byName
  {
    if name in defined then Skip
    else
      match PublicAlias(symbols, symbols.byName[name])
      case None => Skip
      case Some(entry) =>
        if entry.address !in symbols.primaryAt || symbols.primaryAt[entry.address] !in defined then Skip
        else
          var primary := symbols.primaryAt[entry.address];
          var (value, section) := defined[primary];
          var kind := KindOf(recs, primary, value, section);
          match FirstUndefined(recs, name)
          case Some(j) => Rewrite(recs[j].(value := value, section := section, kind := kind))
          case None => Append(CoffAppending.Def(name, value, section, kind))
  }

  /** The object lacks the name; it is a public alias inside the unit, whose primary the object defines. */
  predicate Missing(before: Before, name: Bytes)
    requires name in before.symbols.byName
  {
    var entry := PublicAlias(before.symbols, before.symbols.byName[name]);
    && name !in Defined(before.recs) && entry.Some? && entry.value.address in before.symbols.primaryAt
    && before.symbols.primaryAt[entry.value.address] in Defined(before.recs)
  }

  lemma MissingIsDefined(before: Before, name: Bytes)
    requires name in before.symbols.byName
    ensures ActionOf(before.symbols, before.recs, Defined(before.recs), name) != Skip <==> Missing(before, name)
  {
  }

  function ActionsOf(symbols: Symbols, recs: seq<Rec>, defined: map<Bytes, (Word, int)>,
                     names: seq<Bytes>): (actions: seq<Action>)
    requires forall name | name in names :: name in symbols.byName
    ensures |actions| == |names| && forall i | 0 <= i < |names| ::
              actions[i] == ActionOf(symbols, recs, defined, names[i])
  {
    seq(|names|, i requires 0 <= i < |names| => ActionOf(symbols, recs, defined, names[i]))
  }

  /** The records to append, in order. */
  function DefsOf(actions: seq<Action>): (defs: seq<Def>)
    ensures |defs| <= |actions|
    ensures (forall i | 0 <= i < |actions| :: actions[i].Valid()) ==> forall i | 0 <= i < |defs| :: defs[i].Valid()
  {
    if actions == [] then [] else
      var last, defs := actions[|actions| - 1], DefsOf(actions[..|actions| - 1]);
      assert (forall i | 0 <= i < |actions| :: actions[i].Valid()) ==> last.Valid();
      if last.Append? then defs + [last.def] else defs
  }

  lemma {:induction false} AmongDefs(actions: seq<Action>, i: nat) returns (p: nat)
    requires i < |actions| && actions[i].Append?
    ensures p < |DefsOf(actions)| && DefsOf(actions)[p] == actions[i].def
  {
    if i == |actions| - 1 {
      p := |DefsOf(actions[..i])|;
    } else {
      p := AmongDefs(actions[..|actions| - 1], i);
    }
  }

  /** The records to be rewritten lie before `hi`, apart from each other. */
  ghost predicate Rewritable(actions: seq<Action>, d: Bytes, hi: nat) {
    && hi <= |d| && (forall i | 0 <= i < |actions| :: actions[i].Valid())
    && (forall i | 0 <= i < |actions| && actions[i].Rewrite? ::
          actions[i].rec.off + 18 <= hi && d[actions[i].rec.off + 16] == actions[i].rec.storage)
    && (forall i, j | 0 <= i < j < |actions| && actions[i].Rewrite? && actions[j].Rewrite? ::
          OffApart(actions[i].rec.off, actions[j].rec.off))
  }

  predicate OffApart(o: int, p: int) {
    o + 18 <= p || p + 18 <= o
  }

  ghost predicate Covered(actions: seq<Action>, n: nat, k: int)
    requires n <= |actions|
  {
    exists i :: 0 <= i < n && actions[i].Covers(k)
  }

  /** The first `n` actions have rewritten their records, and nothing else. */
  ghost predicate Rewrote(actions: seq<Action>, n: nat, d: Bytes, d': Bytes)
    requires n <= |actions|
  {
    && |d'| == |d|
    && (forall i | 0 <= i < n && actions[i].Rewrite? :: FieldsRead(d', actions[i].rec))
    && (forall k {:trigger d'[k]} | 0 <= k < |d| && !Covered(actions, n, k) :: d'[k] == d[k])
  }

  function RewriteBytes(r: Rec): (bytes: Bytes)
    requires 0 < r.section < 0x8000 && 0 <= r.kind < 0x1_0000
    ensures |bytes| == 8
  {
    Write32(r.value) + Write16(r.section) + Write16(r.kind)
  }

  lemma ThreeParts(a: Bytes, b: Bytes, c: Bytes)
    requires |a| == 4 && |b| == |c| == 2
    ensures (a + b + c)[0..4] == a && (a + b + c)[4..6] == b && (a + b + c)[6..8] == c
  {
  }

  lemma RewrittenReads(d: Bytes, r: Rec)
    requires 0 < r.section < 0x8000 && 0 <= r.kind < 0x1_0000
    requires r.off + 18 <= |d| && d[r.off + 16] == r.storage && d[r.off + 8..r.off + 16] == RewriteBytes(r)
    ensures FieldsRead(d, r)
  {
    var o, s := r.off, d[r.off + 8..r.off + 16];
    Write32Reads(r.value);
    Write16Reads(r.section);
    Write16Reads(r.kind);
    ThreeParts(Write32(r.value), Write16(r.section), Write16(r.kind));
    CoffAppending.SubSlice(d, o + 8, s, 0, 4);
    CoffAppending.SubSlice(d, o + 8, s, 4, 6);
    CoffAppending.SubSlice(d, o + 8, s, 6, 8);
  }

  lemma RewriteNext(actions: seq<Action>, n: nat, d: Bytes, hi: nat, was: Bytes, d': Bytes)
    requires Rewritable(actions, d, hi) && n < |actions| && Rewrote(actions, n, d, was) && actions[n].Rewrite?
    requires d' == Put(was, actions[n].rec.off + 8, RewriteBytes(actions[n].rec))
    ensures Rewrote(actions, n + 1, d, d')
  {
    var r := actions[n].rec;
    assert was[r.off + 16] == d[r.off + 16] by {
      forall i | 0 <= i < n ensures !actions[i].Covers(r.off + 16) {
        if actions[i].Rewrite? {
          assert OffApart(actions[i].rec.off, r.off);
        }
      }
    }
    assert d'[r.off + 8..r.off + 16] == RewriteBytes(r);
    RewrittenReads(d', r);
    forall i | 0 <= i < n && actions[i].Rewrite? ensures FieldsRead(d', actions[i].rec) {
      assert OffApart(actions[i].rec.off, r.off);
      FieldsSame(was, d', actions[i].rec);
    }
    forall k | 0 <= k < |d| && !Covered(actions, n + 1, k) ensures d'[k] == d[k] {
      assert !actions[n].Covers(k);
      assert !Covered(actions, n, k);
    }
  }

  lemma SkipNext(actions: seq<Action>, n: nat, d: Bytes, was: Bytes)
    requires n < |actions| && Rewrote(actions, n, d, was) && !actions[n].Rewrite?
    ensures Rewrote(actions, n + 1, d, was)
  {
    forall k | 0 <= k < |d| && !Covered(actions, n + 1, k) ensures was[k] == d[k] {
      assert !Covered(actions, n, k);
    }
  }

  /** One turn of the loop over the names, as far as it rewrites a record. */
  method RewriteOne(data: Bytes, action: Action, ghost actions: seq<Action>, ghost n: nat, ghost d: Bytes,
                    ghost hi: nat)
    returns (data': Bytes)
    requires Rewritable(actions, d, hi) && n < |actions| && action == actions[n] && Rewrote(actions, n, d, data)
    ensures Rewrote(actions, n + 1, d, data')
  {
    if action.Rewrite? {
      data' := Put(data, action.rec.off + 8, RewriteBytes(action.rec));
      RewriteNext(actions, n, d, hi, data, data');
    } else {
      data' := data;
      SkipNext(actions, n, d, data);
    }
  }

  /** The loop over the names: rewrites undefined records, and collects the definitions to append. */
  method RewriteMissing(data: Bytes, symbols: Symbols, recs: seq<Rec>, names: seq<Bytes>, ghost hi: nat)
    returns (data': Bytes, defs: seq<Def>)
    requires forall name | name in names :: name in symbols.byName
    requires Rewritable(ActionsOf(symbols, recs, Defined(recs), names), data, hi)
    ensures var actions := ActionsOf(symbols, recs, Defined(recs), names);
            Rewrote(actions, |actions|, data, data') && defs == DefsOf(actions)
  {
    var defined := Defined(recs);
    ghost var actions := ActionsOf(symbols, recs, defined, names);
    data', defs := data, [];
    for i := 0 to |names|
      invariant Rewrote(actions, i, data, data') && defs == DefsOf(actions[..i])
    {
      var action := ActionOf(symbols, recs, defined, names[i]);
      DefsNext(actions, i);
      data' := RewriteOne(data', action, actions, i, data, hi);
      defs := if action.Append? then defs + [action.def] else defs;
    }
    assert actions[..|names|] == actions;
  }

  lemma DefsNext(actions: seq<Action>, n: nat)
    requires n < |actions|
    ensures DefsOf(actions[..n + 1]) ==
            if actions[n].Append? then DefsOf(actions[..n]) + [actions[n].def] else DefsOf(actions[..n])
  {
    assert actions[..n + 1][..n] == actions[..n];
  }

  lemma RewroteBefore(actions: seq<Action>, d: Bytes, hi: nat, d': Bytes)
    requires Rewritable(actions, d, hi) && Rewrote(actions, |actions|, d, d')
    ensures forall k | hi <= k < |d| :: d'[k] == d[k]
  {
    forall k | hi <= k < |d| ensures d'[k] == d[k] {
      assert !Covered(actions, |actions|, k);
    }
  }

  /** What becomes of the object when the definitions are appended, if there are any. */
  ghost predicate AppendedTo(d: Bytes, symoff: nat, nsym: nat, stroff: nat, size: nat, defs: seq<Def>,
                             d': Bytes, stroff': nat, count': int, size': int) {
    if defs == [] then d' == d && stroff' == stroff && count' == nsym && size' == size
    else CoffAppending.AllRead(d, symoff, nsym, stroff, size, defs, d', stroff', count', size')
  }

  /** Defines all the aliases that are missing: `mid` is the object before records are appended. */
  method DefineMissing(data: Bytes, layout: Layout, symbols: Symbols, recs: seq<Rec>, names: seq<Bytes>)
    returns (data': Bytes, ghost mid: Bytes, ghost stroff': nat, ghost count': nat, ghost size': nat)
    requires CoffAppending.HasStrings(data, layout) && Listed(symbols, names)
    requires Rewritable(ActionsOf(symbols, recs, Defined(recs), names), data, layout.Stroff())
    ensures var actions := ActionsOf(symbols, recs, Defined(recs), names);
            && Rewrote(actions, |actions|, data, mid) && CoffAppending.HasStrings(mid, layout)
            && Read32(mid, layout.Stroff()) == Read32(data, layout.Stroff()) && |data| <= |data'|
            && (CoffAppending.SizesFit(layout, Read32(data, layout.Stroff()), DefsOf(actions)) ==>
                  AppendedTo(mid, layout.symoff, layout.nsym, layout.Stroff(), Read32(mid, layout.Stroff()),
                             DefsOf(actions),
                             data', stroff', count', size'))
  {
    var defs;
    data', defs := RewriteMissing(data, symbols, recs, names, layout.Stroff());
    mid := data';
    stroff', count', size' := layout.Stroff(), layout.nsym, Read32(data, layout.Stroff());
    RewroteBefore(ActionsOf(symbols, recs, Defined(recs), names), data, layout.Stroff(), mid);
    Read32Same(data, mid, layout.Stroff());
    if defs != [] {
      data', stroff', count', size' := CoffAppending.AppendDefs(data', layout, defs);
    }
  }

  /** Records that `fold` has left as they were can be rewritten: undefined ones, each name's own. */
  lemma FoldedRewritable(before: Before, assoc: map<int, int>, removed: set<int>, d: Bytes, names: seq<Bytes>)
    requires before.Valid() && PlanOf(before).Valid() && FoldResult(before, assoc, removed, d)
             && Listed(before.symbols, names)
    ensures Rewritable(ActionsOf(before.symbols, before.recs, Defined(before.recs), names), d, before.layout.Stroff())
  {
    var actions := ActionsOf(before.symbols, before.recs, Defined(before.recs), names);
    forall i | 0 <= i < |names| ensures actions[i].Valid() {
      ActionValid(before, names[i]);
    }
    forall i | 0 <= i < |names| && actions[i].Rewrite?
      ensures actions[i].rec.off + 18 <= before.layout.Stroff() && d[actions[i].rec.off + 16] == actions[i].rec.storage
    {
      var j := RewrittenRecord(before, names[i], actions[i].rec);
      NoSectionKept(before, j);
      FieldsLeft(before, assoc, removed, d, j, Keep);
      StorageOf(d, before.recs[j]);
    }
    forall i, j | 0 <= i < j < |names| && actions[i].Rewrite? && actions[j].Rewrite?
      ensures OffApart(actions[i].rec.off, actions[j].rec.off)
    {
      RewrittenApart(before, names[i], names[j], actions[i].rec, actions[j].rec);
    }
  }

  lemma RewrittenApart(before: Before, name: Bytes, other: Bytes, rec: Rec, otherRec: Rec)
    requires before.Valid() && name != other && name in before.symbols.byName && other in before.symbols.byName
    requires ActionOf(before.symbols, before.recs, Defined(before.recs), name) == Rewrite(rec)
    requires ActionOf(before.symbols, before.recs, Defined(before.recs), other) == Rewrite(otherRec)
    ensures OffApart(rec.off, otherRec.off)
  {
    var m := RewrittenRecord(before, name, rec);
    var n := RewrittenRecord(before, other, otherRec);
    RecordsApart(before.recs, before.layout.symoff, before.layout.Stroff(), m, n);
  }

  /** The keys of the symbols file, each once; the source takes them in order. */
  ghost predicate Listed(symbols: Symbols, names: seq<Bytes>) {
    && (forall name | name in names :: name in symbols.byName)
    && (forall i, j | 0 <= i < j < |names| :: names[i] != names[j])
  }

  lemma RecordsApart(recs: seq<Rec>, lo: int, hi: int, m: nat, n: nat)
    requires Spaced(recs, lo, hi) && m < |recs| && n < |recs| && m != n
    ensures OffApart(recs[m].off, recs[n].off)
  {
  }

  lemma {:induction false} KindsInRange(d: Bytes, stroff: nat, recs: seq<Rec>)
    requires ReadsAs(d, stroff, recs)
    ensures forall r | r in recs :: 0 <= r.kind < 0x1_0000
  {
    if recs != [] {
      KindsInRange(d, stroff, recs[1..]);
      forall r | r in recs ensures 0 <= r.kind < 0x1_0000 {
        assert r == recs[0] || r in recs[1..];
      }
    }
  }

  lemma ActionValid(before: Before, name: Bytes)
    requires before.Valid() && name in before.symbols.byName
    ensures ActionOf(before.symbols, before.recs, Defined(before.recs), name).Valid()
  {
    var defined, action := Defined(before.recs), ActionOf(before.symbols, before.recs, Defined(before.recs), name);
    if action != Skip {
      var entry := PublicAlias(before.symbols, before.symbols.byName[name]).value;
      var primary := before.symbols.primaryAt[entry.address];
      SectionsInRange(before.d, before.layout.Stroff(), before.recs);
      DefinedInRange(before.recs, primary);
      KindsInRange(before.d, before.layout.Stroff(), before.recs);
    }
  }

  /** The record an action rewrites: an undefined one of the name. */
  lemma RewrittenRecord(before: Before, name: Bytes, rec: Rec) returns (j: nat)
    requires name in before.symbols.byName && ActionOf(before.symbols, before.recs, Defined(before.recs), name) ==
               Rewrite(rec)
    ensures j < |before.recs| && IsUndefined(before.recs[j], name)
    ensures rec.off == before.recs[j].off && rec.storage == EXTERNAL && rec.name == name
  {
    j := FirstUndefined(before.recs, name).value;
  }

  /** A record without a section is not folded. */
  lemma NoSectionKept(before: Before, j: nat)
    requires before.Valid() && j < |before.recs| && before.recs[j].section == 0
    ensures PlanOf(before).fates[j] == Keep
  {
    FatesAt(before, |before.recs|, j);
  }

  lemma StorageOf(d: Bytes, r: Rec)
    requires FieldsRead(d, Folded(r, Keep))
    ensures r.off + 18 <= |d| && d[r.off + 16] == r.storage
  {
  }

  /** Reading records from index `i` on, past their auxiliary ones, comes to index `t`. */
  ghost predicate Reaches(d: Bytes, layout: Layout, i: nat, t: nat)
    requires layout.Fits(d)
    decreases t - i
  {
    i == t || (i < t && i < layout.nsym && Reaches(d, layout, NextIndex(d, layout, i), t))
  }

  lemma {:induction false} ReachesOn(d: Bytes, layout: Layout, i: nat, t: nat, next: nat)
    requires layout.Fits(d) && Reaches(d, layout, i, t) && t < layout.nsym && NextIndex(d, layout, t) == next
    ensures Reaches(d, layout, i, next)
    decreases t - i
  {
    if i < t {
      ReachesOn(d, layout, NextIndex(d, layout, i), t, next);
    }
  }

  lemma {:induction false} ReachesSame(d: Bytes, layout: Layout, d': Bytes, layout': Layout, i: nat, t: nat)
    requires layout.Fits(d) && layout'.Fits(d') && Reaches(d, layout, i, t) && layout.nsym <= layout'.nsym
    requires forall m | 0 <= m < layout.nsym :: NextIndex(d', layout', m) == NextIndex(d, layout, m)
    ensures Reaches(d', layout', i, t)
    decreases t - i
  {
    if i < t {
      ReachesSame(d, layout, d', layout', NextIndex(d, layout, i), t);
    }
  }

  lemma {:induction false} AllReached(d: Bytes, layout: Layout, start: nat, t: nat)
    requires layout.Fits(d) && Reaches(d, layout, 0, start) && start <= t <= layout.nsym
    requires forall q | start <= q < t :: NextIndex(d, layout, q) == q + 1
    ensures Reaches(d, layout, 0, t)
  {
    if start < t {
      AllReached(d, layout, start, t - 1);
      ReachesOn(d, layout, 0, t - 1, t);
    }
  }

  /** The index of a record as it was read. */
  lemma {:induction false} RecordIndex(d: Bytes, layout: Layout, i: nat, recs: seq<Rec>, j: nat) returns (t: nat)
    requires layout.Fits(d) && recs == RecordsFrom(d, layout, i) && j < |recs|
    ensures i <= t < layout.nsym && recs[j].off == layout.symoff + 18 * t && Reaches(d, layout, i, t)
    decreases layout.nsym - i
  {
    if j == 0 {
      t := i;
    } else {
      t := RecordIndex(d, layout, NextIndex(d, layout, i), recs[1..], j - 1);
    }
  }

  /** The last byte of an 18-byte record is none that is written in another one, or in the same one. */
  lemma LastByteApart(before: Before, j: nat, m: nat, k: nat)
    requires before.Valid() && before.recs == RecordsFrom(before.d, before.layout, 0) && j < |before.recs|
    requires k == before.layout.symoff + 18 * m + 17
    ensures !(before.recs[j].off + 8 <= k <= before.recs[j].off + 16)
  {
    var t := RecordIndex(before.d, before.layout, 0, before.recs, j);
    Apart18(before.layout.symoff, m, t);
  }

  lemma Apart18(symoff: nat, m: nat, t: nat)
    ensures !(symoff + 18 * t + 8 <= symoff + 18 * m + 17 <= symoff + 18 * t + 16)
  {
  }

  lemma NextSame(d: Bytes, layout: Layout, d': Bytes, layout': Layout, m: nat, k: nat)
    requires layout.Fits(d) && layout'.Fits(d') && layout.symoff == layout'.symoff && m < layout.nsym <= layout'.nsym
    requires k == layout.symoff + 18 * m + 17 && d'[k] == d[k]
    ensures NextIndex(d', layout', m) == NextIndex(d, layout, m)
  {
  }

  /** Reading a sound table comes to its end. */
  lemma {:induction false} ReachesEnd(d: Bytes, layout: Layout, i: nat)
    requires layout.Fits(d) && i <= layout.nsym && TableSound(d, layout, i)
    ensures Reaches(d, layout, i, layout.nsym)
    decreases layout.nsym - i
  {
    if i < layout.nsym {
      ReachesEnd(d, layout, NextIndex(d, layout, i));
    }
  }

  /** Neither the folding nor the rewriting changes how many auxiliary records follow a record. */
  lemma LastByteKept(before: Before, assoc: map<int, int>, removed: set<int>, names: seq<Bytes>, actions: seq<Action>,
                     d: Bytes, mid: Bytes, m: nat, k: nat)
    requires before.Valid() && PlanOf(before).Valid() && FoldResult(before, assoc, removed, d)
             && Listed(before.symbols, names)
    requires before.recs == RecordsFrom(before.d, before.layout, 0) && InHeaders(before.layout, removed)
    requires actions == ActionsOf(before.symbols, before.recs, Defined(before.recs), names)
             && Rewrote(actions, |actions|, d, mid)
    requires k == before.layout.symoff + 18 * m + 17 && k < |before.d|
    ensures mid[k] == before.d[k]
  {
    AuxiliaryNotFolded(before, removed, m, k);
    assert d[k] == before.d[k];
    forall i | 0 <= i < |actions| ensures !actions[i].Covers(k) {
      if actions[i].Rewrite? {
        var j := RewrittenRecord(before, names[i], actions[i].rec);
        LastByteApart(before, j, m, k);
      }
    }
    assert !Covered(actions, |actions|, k);
  }

  lemma AuxiliaryNotFolded(before: Before, removed: set<int>, m: nat, k: nat)
    requires before.Valid() && before.recs == RecordsFrom(before.d, before.layout, 0)
             && InHeaders(before.layout, removed)
    requires k == before.layout.symoff + 18 * m + 17
    ensures !FieldWritten(PlanOf(before), k) && !InChars(removed, k)
  {
    forall j | 0 <= j < |before.recs|
      ensures !(before.recs[j].off + 8 <= k < before.recs[j].off + 14 || k == before.recs[j].off + 16)
    {
      LastByteApart(before, j, m, k);
    }
    forall sec | sec in removed && 1 <= sec ensures CharsAt(sec) + 4 <= k {
    }
  }

  /** Only fields of undefined records are rewritten, so a name stays, and all of a defined record does. */
  lemma RewriteLeaves(before: Before, names: seq<Bytes>, actions: seq<Action>, d: Bytes, mid: Bytes, j: nat, k: nat)
    requires before.Valid() && Listed(before.symbols, names) && j < |before.recs| && k < |d|
    requires actions == ActionsOf(before.symbols, before.recs, Defined(before.recs), names)
             && Rewrote(actions, |actions|, d, mid)
    requires var o := before.recs[j].off; o <= k < o + 8 || (o <= k < o + 18 && before.recs[j].section != 0)
    ensures mid[k] == d[k]
  {
    forall i | 0 <= i < |actions| ensures !actions[i].Covers(k) {
      if actions[i].Rewrite? {
        var m := RewrittenRecord(before, names[i], actions[i].rec);
        if m != j {
          RecordsApart(before.recs, before.layout.symoff, before.layout.Stroff(), m, j);
        }
      }
    }
    assert !Covered(actions, |actions|, k);
  }

  lemma NameAfterRewrite(before: Before, names: seq<Bytes>, actions: seq<Action>, d: Bytes, mid: Bytes, j: nat)
    requires before.Valid() && Listed(before.symbols, names) && j < |before.recs| && before.layout.Stroff() <= |d|
    requires actions == ActionsOf(before.symbols, before.recs, Defined(before.recs), names)
             && Rewrote(actions, |actions|, d, mid)
    requires Rewritable(actions, d, before.layout.Stroff())
    ensures SymName(mid, before.layout.Stroff(), before.recs[j].off) ==
              SymName(d, before.layout.Stroff(), before.recs[j].off)
  {
    var o := before.recs[j].off;
    RewroteBefore(actions, d, before.layout.Stroff(), mid);
    forall k | o <= k < o + 8 ensures mid[k] == d[k] {
      RewriteLeaves(before, names, actions, d, mid, j, k);
    }
    NameSame(d, mid, before.layout.Stroff(), o);
  }

  lemma DefinitionAfterRewrite(before: Before, names: seq<Bytes>, actions: seq<Action>, d: Bytes, mid: Bytes, j: nat)
    requires before.Valid() && Listed(before.symbols, names) && j < |before.recs| && before.recs[j].section != 0
    requires actions == ActionsOf(before.symbols, before.recs, Defined(before.recs), names)
             && Rewrote(actions, |actions|, d, mid)
    requires FieldsRead(d, before.recs[j])
    ensures FieldsRead(mid, before.recs[j])
  {
    var o := before.recs[j].off;
    forall k | o <= k < o + 18 ensures mid[k] == d[k] {
      RewriteLeaves(before, names, actions, d, mid, j, k);
    }
    FieldsSame(d, mid, before.recs[j]);
  }

  lemma FieldsOfSlice(d: Bytes, d': Bytes, r: Rec)
    requires FieldsRead(d, r) && r.off + 18 <= |d'| && d'[r.off..r.off + 18] == d[r.off..r.off + 18]
    ensures FieldsRead(d', r)
  {
    var o, s := r.off, d[r.off..r.off + 18];
    CoffAppending.SubSlice(d, o, s, 8, 12);
    CoffAppending.SubSlice(d', o, s, 8, 12);
    CoffAppending.SubSlice(d, o, s, 12, 14);
    CoffAppending.SubSlice(d', o, s, 12, 14);
    CoffAppending.SubSlice(d, o, s, 14, 16);
    CoffAppending.SubSlice(d', o, s, 14, 16);
    assert s[16] == d[o + 16] && s[16] == d'[o + 16];
  }

  /** The name of an old record stays if nothing is appended, or if it ends inside the string table. */
  ghost predicate NameStays(d: Bytes, stroff: nat, size: nat, defs: seq<Def>, o: nat)
    requires o + 8 <= |d|
  {
    defs == [] || (Read32(d, o) == 0 ==> CoffAppending.WellTerminated(d, stroff, size, Read32(d, o + 4)))
  }

  lemma OldAfterAppend(d: Bytes, symoff: nat, nsym: nat, stroff: nat, size: nat, defs: seq<Def>,
                       d': Bytes, stroff': nat, count': int, size': int, r: Rec, t: nat)
    requires AppendedTo(d, symoff, nsym, stroff, size, defs, d', stroff', count', size')
    requires t < nsym && r.off == symoff + 18 * t && FieldsRead(d, r)
    ensures FieldsRead(d', r)
    ensures NameStays(d, stroff, size, defs, r.off) ==> SymName(d', stroff', r.off) == SymName(d, stroff, r.off)
  {
    if defs != [] {
      AllReadOld(d, symoff, nsym, stroff, size, defs, d', stroff', count', size', t);
      OldReadKeeps(d, stroff, size, d', stroff', symoff, t, r);
    }
  }

  lemma AllReadOld(d: Bytes, symoff: nat, nsym: nat, stroff: nat, size: nat, defs: seq<Def>,
                   d': Bytes, stroff': nat, count': int, size': int, t: nat)
    requires CoffAppending.AllRead(d, symoff, nsym, stroff, size, defs, d', stroff', count', size') && t < nsym
    ensures CoffAppending.OldRead(d, stroff, size, d', stroff', symoff, t)
  {
  }

  lemma OldReadKeeps(d: Bytes, stroff: nat, size: nat, d': Bytes, stroff': nat, symoff: nat, t: nat, r: Rec)
    requires CoffAppending.OldRead(d, stroff, size, d', stroff', symoff, t) && r.off == symoff + 18 * t
             && FieldsRead(d, r)
    ensures FieldsRead(d', r)
    ensures (Read32(d, r.off) == 0 ==> CoffAppending.WellTerminated(d, stroff, size, Read32(d, r.off + 4))) ==>
              SymName(d', stroff', r.off) == SymName(d, stroff, r.off)
  {
    FieldsOfSlice(d, d', r);
  }

  /** The primary's own record is as it was, after the folding and the rewriting. */
  lemma PrimaryReads(before: Before, assoc: map<int, int>, removed: set<int>, names: seq<Bytes>, actions: seq<Action>,
                     d: Bytes, mid: Bytes, primary: Bytes) returns (k: nat)
    requires before.Valid() && PlanOf(before).Valid() && FoldResult(before, assoc, removed, d)
             && Listed(before.symbols, names)
    requires actions == ActionsOf(before.symbols, before.recs, Defined(before.recs), names)
             && Rewrote(actions, |actions|, d, mid)
    requires primary in Defined(before.recs) && primary in before.symbols.byName
             && before.symbols.Own(before.symbols.byName[primary])
    ensures k < |before.recs| && IsDefinition(before.recs[k]) && before.recs[k].name == primary
    ensures (before.recs[k].value, before.recs[k].section) == Defined(before.recs)[primary]
    ensures FieldsRead(mid, before.recs[k])
  {
    k := DefiningRecord(before.recs, primary);
    OwnIsKept(before, k);
    FieldsLeft(before, assoc, removed, d, k, Keep);
    DefinitionAfterRewrite(before, names, actions, d, mid, k);
  }

  /** Where a name got a definition: the record rewritten, or the one appended. */
  lemma AliasReads(before: Before, assoc: map<int, int>, removed: set<int>, names: seq<Bytes>, actions: seq<Action>,
                   d: Bytes, mid: Bytes, i: nat) returns (j: nat)
    requires before.Valid() && PlanOf(before).Valid() && FoldResult(before, assoc, removed, d)
             && Listed(before.symbols, names)
    requires actions == ActionsOf(before.symbols, before.recs, Defined(before.recs), names)
             && Rewrote(actions, |actions|, d, mid)
    requires Rewritable(actions, d, before.layout.Stroff()) && i < |names| && actions[i].Rewrite?
    ensures j < |before.recs| && before.recs[j].off == actions[i].rec.off && actions[i].rec.storage == EXTERNAL
    ensures FieldsRead(mid, actions[i].rec) && SymName(mid, before.layout.Stroff(), before.recs[j].off) == names[i]
  {
    j := RewrittenRecord(before, names[i], actions[i].rec);
    NameAfterRewrite(before, names, actions, d, mid, j);
    NameAfterFold(before, assoc, removed, d, j);
  }

  lemma NameAfterFold(before: Before, assoc: map<int, int>, removed: set<int>, d: Bytes, j: nat)
    requires before.Valid() && PlanOf(before).Valid() && FoldResult(before, assoc, removed, d) && j < |before.recs|
    ensures SymName(d, before.layout.Stroff(), before.recs[j].off) == before.recs[j].name
  {
    RecordAfter(before, assoc, removed, d, j, PlanOf(before).fates[j]);
  }

  /** What an action defines: the location and type of the first public alias entry's primary. */
  lemma ActionMeans(before: Before, name: Bytes, action: Action) returns (e: FoldSymbol, primary: Bytes, kind: int)
    requires before.Valid() && before.symbols.Primaries() && name in before.symbols.byName && action != Skip
    requires action == ActionOf(before.symbols, before.recs, Defined(before.recs), name)
    ensures name !in Defined(before.recs) && PublicAlias(before.symbols, before.symbols.byName[name]) == Some(e)
    ensures before.symbols.Inside(e.address) && e.address in before.symbols.primaryAt
            && before.symbols.primaryAt[e.address] == primary
    ensures primary in Defined(before.recs) && primary in before.symbols.byName
            && before.symbols.Own(before.symbols.byName[primary])
    ensures var (value, section) := Defined(before.recs)[primary];
            && kind == KindOf(before.recs, primary, value, section)
            && (action.Rewrite? ==> (action.rec.value, action.rec.section, action.rec.kind) == (value, section, kind))
            && (action.Append? ==>
                  (action.def.value, action.def.section, action.def.kind) == (value, section, kind)
                      && action.def.name == name)
  {
    e := PublicAlias(before.symbols, before.symbols.byName[name]).value;
    primary := before.symbols.primaryAt[e.address];
    kind := KindOf(before.recs, primary, Defined(before.recs)[primary].0, Defined(before.recs)[primary].1);
  }

  /** The definition of a name in the final object, and whether its name reads as it should. */
  ghost predicate DefinedAt(d: Bytes, stroff: nat, o: nat, name: Bytes, value: Word, section: int, kind: int,
                            readable: bool) {
    && o + 18 <= |d| && Location(d, o) == (value, section) && Read16(d, o + 14) == kind && d[o + 16] == EXTERNAL
    && (readable ==> SymName(d, stroff, o) == name)
  }

  lemma DefinedByRecord(d: Bytes, stroff: nat, r: Rec, name: Bytes, readable: bool)
    requires FieldsRead(d, r) && r.storage == EXTERNAL
    requires readable ==> SymName(d, stroff, r.off) == name
    ensures DefinedAt(d, stroff, r.off, name, r.value, r.section, r.kind, readable)
  {
  }

  lemma AppendedDefined(actions: seq<Action>, i: nat, defs: seq<Def>, d: Bytes, symoff: nat, nsym: nat, stroff: nat,
                        size: nat,
                        d': Bytes, stroff': nat, count': nat, size': nat) returns (o: nat, p: nat)
    requires i < |actions| && actions[i].Append? && defs == DefsOf(actions)
    requires AppendedTo(d, symoff, nsym, stroff, size, defs, d', stroff', count', size')
    ensures var def := actions[i].def;
            DefinedAt(d', stroff', o, def.name, def.value, def.section, def.kind,
                      CoffAppending.Writable(def.name, size'))
    ensures p < |defs| && o == stroff + 18 * p
  {
    p := AmongDefs(actions, i);
    o := stroff + 18 * p;
    AllReadNew(d, symoff, nsym, stroff, size, defs, d', stroff', count', size', p);
    NewReadDefines(d', stroff', o, defs[p], size');
  }

  lemma AllReadNew(d: Bytes, symoff: nat, nsym: nat, stroff: nat, size: nat, defs: seq<Def>,
                   d': Bytes, stroff': nat, count': nat, size': nat, p: nat)
    requires AppendedTo(d, symoff, nsym, stroff, size, defs, d', stroff', count', size') && p < |defs|
    ensures CoffAppending.NewRead(d', stroff', stroff + 18 * p, defs[p]) && Read32(d', stroff') == size'
  {
  }

  lemma NewReadDefines(d: Bytes, stroff: nat, o: nat, def: Def, size: nat)
    requires CoffAppending.NewRead(d, stroff, o, def) && Read32(d, stroff) == size
    ensures DefinedAt(d, stroff, o, def.name, def.value, def.section, def.kind, CoffAppending.Writable(def.name, size))
  {
    DefinedByRecord(d, stroff, Rec(o, def.name, def.value, def.section, EXTERNAL, def.kind), def.name,
                    CoffAppending.Writable(def.name, size));
  }

  /** None of the appended records has auxiliary records. */
  lemma NewAlone(d: Bytes, layout: Layout, stroff: nat, o: nat, t: nat, def: Def)
    requires CoffAppending.NewRead(d, stroff, o, def) && layout.Fits(d) && t < layout.nsym
             && o == layout.symoff + 18 * t
    ensures NextIndex(d, layout, t) == t + 1
  {
  }

  lemma EachAlone(d: Bytes, symoff: nat, nsym: nat, stroff: nat, size: nat, defs: seq<Def>,
                  d': Bytes, stroff': nat, count': nat, size': nat, layout': Layout, p: nat, t: nat)
    requires AppendedTo(d, symoff, nsym, stroff, size, defs, d', stroff', count', size') && stroff == symoff + 18 * nsym
    requires layout'.Fits(d') && layout'.symoff == symoff && p < |defs| && t == nsym + p < layout'.nsym
    ensures NextIndex(d', layout', t) == t + 1
  {
    var o := stroff + 18 * p;
    AllReadNew(d, symoff, nsym, stroff, size, defs, d', stroff', count', size', p);
    NewAlone(d', layout', stroff', o, t, defs[p]);
  }

  lemma LastByteAppended(d: Bytes, symoff: nat, nsym: nat, stroff: nat, size: nat, defs: seq<Def>,
                         d': Bytes, stroff': nat, count': nat, size': nat, m: nat, k: nat)
    requires CoffAppending.AllRead(d, symoff, nsym, stroff, size, defs, d', stroff', count', size') && m < nsym
    requires k == symoff + 18 * m + 17
    ensures k < |d| && k < |d'| && d'[k] == d[k]
  {
    AllReadOld(d, symoff, nsym, stroff, size, defs, d', stroff', count', size', m);
    OldReadLast(d, stroff, size, d', stroff', symoff, m, k);
  }

  lemma OldReadLast(d: Bytes, stroff: nat, size: nat, d': Bytes, stroff': nat, symoff: nat, m: nat, k: nat)
    requires CoffAppending.OldRead(d, stroff, size, d', stroff', symoff, m) && k == symoff + 18 * m + 17
    ensures k < |d| && k < |d'| && d'[k] == d[k]
  {
    var o := symoff + 18 * m;
    assert d'[o..o + 18][17] == d[o..o + 18][17];
  }

  /** An object folded to `d`, whose missing aliases have been rewritten in `mid`. */
  datatype Stages = Stages(before: Before, assoc: map<int, int>, removed: set<int>, names: seq<Bytes>, d: Bytes,
                           mid: Bytes) {
    ghost predicate Valid() {
      && before.Valid() && PlanOf(before).Valid() && before.symbols.Primaries() && Listed(before.symbols, names)
      && before.recs == RecordsFrom(before.d, before.layout, 0) && TableSound(before.d, before.layout, 0)
      && InHeaders(before.layout, removed) && FoldResult(before, assoc, removed, d)
      && Rewrote(Actions(), |Actions()|, d, mid)
    }

    function Actions(): (actions: seq<Action>)
      requires forall name | name in names :: name in before.symbols.byName
      ensures |actions| == |names|
    {
      ActionsOf(before.symbols, before.recs, Defined(before.recs), names)
    }

    lemma Fits()
      requires Valid()
      ensures Rewritable(Actions(), d, before.layout.Stroff())
    {
      FoldedRewritable(before, assoc, removed, d, names);
    }

    /** The object with the records appended. */
    ghost predicate Final(size: nat, defs: seq<Def>, d': Bytes, stroff': nat, count': nat, size': nat) {
      AppendedTo(mid, before.layout.symoff, before.layout.nsym, before.layout.Stroff(), size, defs, d', stroff', count',
                 size')
    }

    /** The final object's tables. */
    function Tables(count': nat): Layout {
      before.layout.(nsym := count')
    }

    lemma TablesFit(size: nat, defs: seq<Def>, d': Bytes, stroff': nat, count': nat, size': nat)
      requires Valid() && Final(size, defs, d', stroff', count', size')
      ensures Tables(count').Fits(d') && count' == before.layout.nsym + |defs|
    {
    }

    /** What is read at an index of the final symbol table is a record there, not an auxiliary one. */
    ghost predicate IsRecord(d': Bytes, count': nat, o: nat) {
      && Tables(count').Fits(d')
      && exists t: nat :: t < count' && o == before.layout.symoff + 18 * t && Reaches(d', Tables(count'), 0, t)
    }

    lemma NextKept(size: nat, defs: seq<Def>, d': Bytes, stroff': nat, count': nat, size': nat, m: nat)
      requires Valid() && Final(size, defs, d', stroff', count', size') && m < before.layout.nsym
               && Tables(count').Fits(d')
      requires count' == before.layout.nsym + |defs|
      ensures NextIndex(d', Tables(count'), m) == NextIndex(before.d, before.layout, m)
    {
      var k := before.layout.symoff + 18 * m + 17;
      LastByteKept(before, assoc, removed, names, Actions(), d, mid, m, k);
      if defs != [] {
        LastByteAppended(mid, before.layout.symoff, before.layout.nsym, before.layout.Stroff(), size, defs,
                         d', stroff', count', size', m, k);
      }
      NextSame(before.d, before.layout, d', Tables(count'), m, k);
    }

    lemma OldIsRecord(size: nat, defs: seq<Def>, d': Bytes, stroff': nat, count': nat, size': nat, j: nat)
      requires Valid() && Final(size, defs, d', stroff', count', size') && j < |before.recs|
      ensures IsRecord(d', count', before.recs[j].off)
    {
      var t := RecordIndex(before.d, before.layout, 0, before.recs, j);
      TablesFit(size, defs, d', stroff', count', size');
      forall m | 0 <= m < before.layout.nsym {
        NextKept(size, defs, d', stroff', count', size', m);
      }
      ReachesSame(before.d, before.layout, d', Tables(count'), 0, t);
    }

    lemma NewIsRecord(size: nat, defs: seq<Def>, d': Bytes, stroff': nat, count': nat, size': nat, p: nat)
      requires Valid() && Final(size, defs, d', stroff', count', size') && p < |defs|
      ensures IsRecord(d', count', before.layout.Stroff() + 18 * p)
    {
      TablesFit(size, defs, d', stroff', count', size');
      EndReached(size, defs, d', stroff', count', size');
      forall q: nat | before.layout.nsym <= q < before.layout.nsym + p
        ensures NextIndex(d', Tables(count'), q) == q + 1 {
        EachAlone(mid, before.layout.symoff, before.layout.nsym, before.layout.Stroff(), size, defs,
                  d', stroff', count', size', Tables(count'), q - before.layout.nsym, q);
      }
      AllReached(d', Tables(count'), before.layout.nsym, before.layout.nsym + p);
      assert before.layout.Stroff() + 18 * p == before.layout.symoff + 18 * (before.layout.nsym + p);
    }

    lemma EndReached(size: nat, defs: seq<Def>, d': Bytes, stroff': nat, count': nat, size': nat)
      requires Valid() && Final(size, defs, d', stroff', count', size')
      requires Tables(count').Fits(d') && count' == before.layout.nsym + |defs|
      ensures Reaches(d', Tables(count'), 0, before.layout.nsym)
    {
      ReachesEnd(before.d, before.layout, 0);
      forall m | 0 <= m < before.layout.nsym {
        NextKept(size, defs, d', stroff', count', size', m);
      }
      ReachesSame(before.d, before.layout, d', Tables(count'), 0, before.layout.nsym);
    }

    lemma RecordKept(size: nat, defs: seq<Def>, d': Bytes, stroff': nat, count': nat, size': nat, r: Rec, j: nat)
      requires Valid() && Final(size, defs, d', stroff', count', size')
      requires j < |before.recs| && r.off == before.recs[j].off && FieldsRead(mid, r)
      ensures FieldsRead(d', r)
      ensures NameStays(mid, before.layout.Stroff(), size, defs, r.off) ==>
                SymName(d', stroff', r.off) == SymName(mid, before.layout.Stroff(), r.off)
    {
      var t := RecordIndex(before.d, before.layout, 0, before.recs, j);
      OldAfterAppend(mid, before.layout.symoff, before.layout.nsym, before.layout.Stroff(), size, defs,
                     d', stroff', count', size', r, t);
    }

    lemma RewrittenDefined(size: nat, defs: seq<Def>, d': Bytes, stroff': nat, count': nat, size': nat, i: nat,
                           rec: Rec)
      requires Valid() && Final(size, defs, d', stroff', count', size') && i < |names| && Actions()[i] == Rewrite(rec)
      ensures rec.off + 8 <= |mid|
      ensures DefinedAt(d', stroff', rec.off, names[i], rec.value, rec.section, rec.kind,
                        NameStays(mid, before.layout.Stroff(), size, defs, rec.off))
    {
      Fits();
      var j := AliasReads(before, assoc, removed, names, Actions(), d, mid, i);
      RecordKept(size, defs, d', stroff', count', size', rec, j);
      DefinedByRecord(d', stroff', rec, names[i], NameStays(mid, before.layout.Stroff(), size, defs, rec.off));
    }

    /** The name can be read: the appended one can be written, the rewritten one stays. */
    ghost predicate Readable(action: Action, name: Bytes, size: nat, defs: seq<Def>, size': nat) {
      match action
      case Skip => false
      case Append(_) => CoffAppending.Writable(name, size')
      case Rewrite(rec) => rec.off + 8 <= |mid| && NameStays(mid, before.layout.Stroff(), size, defs, rec.off)
    }

    lemma AliasDefined(size: nat, defs: seq<Def>, d': Bytes, stroff': nat, count': nat, size': nat, i: nat,
                       action: Action, value: Word, section: int, kind: int) returns (o: nat)
      requires Valid() && Final(size, defs, d', stroff', count', size') && i < |names| && action == Actions()[i]
      requires defs == DefsOf(Actions())
      requires match action
               case Skip => false
               case Rewrite(rec) => (rec.value, rec.section, rec.kind) == (value, section, kind)
               case Append(def) => (def.value, def.section, def.kind) == (value, section, kind) && def.name == names[i]
      ensures DefinedAt(d', stroff', o, names[i], value, section, kind, Readable(action, names[i], size, defs, size'))
      ensures IsRecord(d', count', o)
    {
      if action.Rewrite? {
        o := action.rec.off;
        RewrittenDefined(size, defs, d', stroff', count', size', i, action.rec);
        var j := RewrittenRecord(before, names[i], action.rec);
        OldIsRecord(size, defs, d', stroff', count', size', j);
      } else {
        var p;
        o, p := AppendedDefined(Actions(), i, defs, mid, before.layout.symoff, before.layout.nsym,
                                before.layout.Stroff(), size,
                                d', stroff', count', size');
        NewIsRecord(size, defs, d', stroff', count', size', p);
      }
    }

    /**
     * Each name that lacks a definition and is a public alias of a function of this unit has one in the final
     * object, where its primary's own record is, and in a section that stays in the link.
     */
    lemma MissingMeetsPrimary(size: nat, defs: seq<Def>, d': Bytes, stroff': nat, count': nat, size': nat, i: nat)
      returns (o: nat, e: FoldSymbol, k: nat, kind: int)
      requires Valid() && Final(size, defs, d', stroff', count', size') && i < |names| && Missing(before, names[i])
      requires defs == DefsOf(Actions())
      ensures PublicAlias(before.symbols, before.symbols.byName[names[i]]) == Some(e)
              && e.address in before.symbols.primaryAt
      ensures k < |before.recs| && IsDefinition(before.recs[k])
              && before.recs[k].name == before.symbols.primaryAt[e.address]
      ensures FieldsRead(d', before.recs[k]) && IsRecord(d', count', o)
      ensures DefinedAt(d', stroff', o, names[i], before.recs[k].value, before.recs[k].section, kind,
                        Readable(Actions()[i], names[i], size, defs, size'))
      ensures exists r :: r in before.recs && r.kind == kind
                          && IsAt(r, before.recs[k].name, before.recs[k].value, before.recs[k].section)
      ensures PrimaryLeads(before, assoc, e) ==> before.recs[k].section !in removed
    {
      var primary;
      var action := Actions()[i];
      MissingIsDefined(before, names[i]);
      e, primary, kind := ActionMeans(before, names[i], action);
      k := PrimaryReads(before, assoc, removed, names, Actions(), d, mid, primary);
      RecordKept(size, defs, d', stroff', count', size', before.recs[k], k);
      o := AliasDefined(size, defs, d', stroff', count', size', i, action, before.recs[k].value, before.recs[k].section,
                        kind);
      assert before.recs[k] in before.recs && IsAt(before.recs[k], primary, before.recs[k].value,
                                                   before.recs[k].section);
      StaysLive(e, primary, before.recs[k].section);
    }

    lemma StaysLive(e: FoldSymbol, primary: Bytes, section: int)
      requires Valid() && before.symbols.Inside(e.address) && e.address in before.symbols.primaryAt
      requires primary == before.symbols.primaryAt[e.address] && primary in Defined(before.recs)
      requires section == Defined(before.recs)[primary].1
      ensures PrimaryLeads(before, assoc, e) ==> section !in removed
    {
      if PrimaryLeads(before, assoc, e) {
        PrimaryStaysLive(before, assoc, removed, e);
      }
    }
  }
}
