/** `fold` of src/cmd/coff.rs on the bytes of an object: folding, the missing aliases, and the export directives. */
module CoffObject {
  import opened Words
  import opened Endian
  import opened CoffFormat
  import opened CoffFolding
  import opened CoffAliases
  import CoffFates
  import CoffAppending
  import Directives

  const DRECTVE: Bytes := [46, 100, 114, 101, 99, 116, 118, 101]

  function HeaderAt(sec: nat): nat
    requires sec >= 1
  {
    20 + (sec - 1) * 40
  }

  predicate HasHeaders(d: Bytes, nsec: nat) {
    20 + 40 * nsec <= |d|
  }

  /** Where the raw data of a `.drectve` section is, if it is inside the file. */
  function DirectivesAt(d: Bytes, sec: nat): (r: (nat, nat))
    requires 1 <= sec && HasHeaders(d, sec)
    ensures r.0 <= r.1 <= |d|
  {
    var h := HeaderAt(sec);
    var size, raw := Read32(d, h + 16), Read32(d, h + 20);
    if d[h..h + 8] == DRECTVE && raw + size <= |d| then (raw, raw + size) else (0, 0)
  }

  function Part(d: Bytes, range: (nat, nat)): Bytes
    requires range.0 <= range.1 <= |d|
  {
    d[range.0..range.1]
  }

  /** The object with the export directives of one range blanked. */
  function BlankedIn(d: Bytes, range: (nat, nat)): (r: Bytes)
    requires range.0 <= range.1 <= |d|
    ensures |r| == |d|
    ensures forall k | 0 <= k < |d| && !Holds(range, k) :: r[k] == d[k]
    ensures Part(r, range) == Directives.Blanked(Part(d, range))
  {
    var blanked := Directives.Blanked(Part(d, range));
    var r := Put(d, range.0, blanked);
    assert r[range.0..range.1] == blanked;
    r
  }

  predicate Holds(range: (nat, nat), k: nat) {
    range.0 <= k < range.1
  }

  /** The object once the directives of the first `n` sections are blanked, one after the other. */
  function BlankedTo(d: Bytes, n: nat): (r: Bytes)
    requires HasHeaders(d, n)
    ensures |r| == |d|
  {
    if n == 0 then d else BlankedIn(BlankedTo(d, n - 1), DirectivesAt(BlankedTo(d, n - 1), n))
  }

  /** The loop over the sections that blanks their export directives. */
  method BlankSections(data: Bytes, nsec: nat) returns (data': Bytes)
    requires HasHeaders(data, nsec)
    ensures data' == BlankedTo(data, nsec)
  {
    data' := data;
    for sec := 0 to nsec
      invariant |data'| == |data| && data' == BlankedTo(data, sec)
    {
      assert HasHeaders(data', sec + 1);
      data' := BlankSection(data', DirectivesAt(data', sec + 1));
    }
  }

  method BlankSection(data: Bytes, range: (nat, nat)) returns (data': Bytes)
    requires range.0 <= range.1 <= |data|
    ensures data' == BlankedIn(data, range)
  {
    var directives := new Byte[range.1 - range.0](k requires 0 <= k < range.1 - range.0 => data[range.0 + k]);
    assert directives[..] == Part(data, range);
    var removed := Directives.BlankExports(directives);
    data' := Put(data, range.0, directives[..]);
  }

  /** The directives of the first `n` sections. */
  ghost function Ranges(d: Bytes, n: nat): (ranges: seq<(nat, nat)>)
    requires HasHeaders(d, n)
    ensures |ranges| == n && forall i | 0 <= i < n :: ranges[i] == DirectivesAt(d, i + 1)
  {
    seq(n, i requires 0 <= i < n => DirectivesAt(d, i + 1))
  }

  /** Ranges in `[lo, hi)`, apart from each other; empty ones may be anywhere. */
  ghost predicate Separate(ranges: seq<(nat, nat)>, lo: nat, hi: nat) {
    && (forall i | 0 <= i < |ranges| :: ranges[i].0 <= ranges[i].1 <= hi && (Empty(ranges[i]) || lo <= ranges[i].0))
    && (forall i, j | 0 <= i < j < |ranges| :: Beside(ranges[i], ranges[j]))
  }

  predicate Empty(range: (nat, nat)) {
    range.0 == range.1
  }

  predicate Beside(r: (nat, nat), s: (nat, nat)) {
    Empty(r) || Empty(s) || r.1 <= s.0 || s.1 <= r.0
  }

  /** What blanking separate ranges one after the other makes of an object. */
  ghost predicate BlankedApart(d: Bytes, ranges: seq<(nat, nat)>, d': Bytes) {
    && |d'| == |d|
    && (forall i | 0 <= i < |ranges| ::
          ranges[i].0 <= ranges[i].1 <= |d| && Part(d', ranges[i]) == Directives.Blanked(Part(d, ranges[i])))
    && (forall k | 0 <= k < |d| && (forall i | 0 <= i < |ranges| :: !Holds(ranges[i], k)) :: d'[k] == d[k])
  }

  lemma BlankOne(d: Bytes, ranges: seq<(nat, nat)>, was: Bytes, range: (nat, nat), lo: nat)
    requires range.0 <= range.1 <= |d| && Separate(ranges + [range], lo, |d|) && BlankedApart(d, ranges, was)
    ensures BlankedApart(d, ranges + [range], BlankedIn(was, range))
  {
    var all, d' := ranges + [range], BlankedIn(was, range);
    assert all[|ranges|] == range;
    forall i | 0 <= i < |ranges| ensures Part(d', ranges[i]) == Directives.Blanked(Part(d, ranges[i])) {
      assert all[i] == ranges[i] && Beside(all[i], all[|ranges|]);
      PartBeside(was, range, ranges[i]);
    }
    PartUntouched(d, ranges, was, range);
    forall k | 0 <= k < |d| && (forall i | 0 <= i < |all| :: !Holds(all[i], k)) ensures d'[k] == d[k] {
      forall i | 0 <= i < |ranges| ensures !Holds(ranges[i], k) {
        assert all[i] == ranges[i];
      }
      assert !Holds(all[|ranges|], k);
    }
  }

  lemma PartBeside(d: Bytes, range: (nat, nat), other: (nat, nat))
    requires range.0 <= range.1 <= |d| && other.0 <= other.1 <= |d| && Beside(other, range)
    ensures Part(BlankedIn(d, range), other) == Part(d, other)
  {
  }

  lemma PartUntouched(d: Bytes, ranges: seq<(nat, nat)>, was: Bytes, range: (nat, nat))
    requires range.0 <= range.1 <= |d| && BlankedApart(d, ranges, was)
    requires forall i | 0 <= i < |ranges| :: Beside((ranges + [range])[i], (ranges + [range])[|ranges|])
    ensures Part(was, range) == Part(d, range)
  {
    forall k | range.0 <= k < range.1 ensures was[k] == d[k] {
      forall i | 0 <= i < |ranges| ensures !Holds(ranges[i], k) {
        assert (ranges + [range])[i] == ranges[i] && (ranges + [range])[|ranges|] == range;
      }
    }
  }

  /** The headers are read as they were. */
  lemma SameDirectives(d: Bytes, d': Bytes, sec: nat)
    requires 1 <= sec && HasHeaders(d, sec) && |d'| == |d| && forall k | 0 <= k < 20 + 40 * sec :: d'[k] == d[k]
    ensures DirectivesAt(d', sec) == DirectivesAt(d, sec)
  {
    var h := HeaderAt(sec);
    assert d'[h..h + 8] == d[h..h + 8];
    Read32Same(d, d', h + 16);
    Read32Same(d, d', h + 20);
  }

  /** Where directives lie apart, and outside the headers, blanking does what it should to each and nothing else. */
  lemma {:induction false} BlankingIs(d: Bytes, nsec: nat, n: nat)
    requires HasHeaders(d, nsec) && n <= nsec && Separate(Ranges(d, n), 20 + 40 * nsec, |d|)
    ensures BlankedApart(d, Ranges(d, n), BlankedTo(d, n))
  {
    if n > 0 {
      var ranges, range := Ranges(d, n - 1), DirectivesAt(d, n);
      assert Ranges(d, n) == ranges + [range];
      SeparateFront(ranges, range, 20 + 40 * nsec, |d|);
      BlankingIs(d, nsec, n - 1);
      BlankNext(d, nsec, n, ranges, BlankedTo(d, n - 1), range);
    }
  }

  lemma BlankNext(d: Bytes, nsec: nat, n: nat, ranges: seq<(nat, nat)>, was: Bytes, range: (nat, nat))
    requires 1 <= n <= nsec && HasHeaders(d, nsec) && was == BlankedTo(d, n - 1) && range == DirectivesAt(d, n)
    requires Separate(ranges, 20 + 40 * nsec, |d|) && Separate(ranges + [range], 20 + 40 * nsec, |d|)
    requires BlankedApart(d, ranges, was)
    ensures BlankedApart(d, ranges + [range], BlankedTo(d, n))
  {
    HeadersKept(d, ranges, was, 20 + 40 * nsec);
    SameDirectives(d, was, n);
    BlankOne(d, ranges, was, range, 20 + 40 * nsec);
  }

  lemma SeparateFront(ranges: seq<(nat, nat)>, range: (nat, nat), lo: nat, hi: nat)
    requires Separate(ranges + [range], lo, hi)
    ensures Separate(ranges, lo, hi)
  {
    var all := ranges + [range];
    forall i | 0 <= i < |ranges| ensures all[i] == ranges[i] {
    }
  }

  lemma HeadersKept(d: Bytes, ranges: seq<(nat, nat)>, d': Bytes, lo: nat)
    requires BlankedApart(d, ranges, d') && Separate(ranges, lo, |d|) && lo <= |d|
    ensures forall k | 0 <= k < lo :: d'[k] == d[k]
  {
    forall k | 0 <= k < lo ensures d'[k] == d[k] {
      forall i | 0 <= i < |ranges| ensures !Holds(ranges[i], k) {
      }
    }
  }

  /** Each section is left with exactly its other tokens. */
  lemma TokensLeft(d: Bytes, nsec: nat, sec: nat)
    requires HasHeaders(d, nsec) && Separate(Ranges(d, nsec), 20 + 40 * nsec, |d|) && 1 <= sec <= nsec
    ensures Directives.Tokens(Part(BlankedTo(d, nsec), DirectivesAt(d, sec))) ==
            Directives.Rest(Directives.Tokens(Part(d, DirectivesAt(d, sec))))
  {
    BlankingIs(d, nsec, nsec);
    assert Ranges(d, nsec)[sec - 1] == DirectivesAt(d, sec);
    Directives.TokensOfBlanked(Part(d, DirectivesAt(d, sec)));
  }

  /** What `fold` decides of an object before it writes anything. */
  ghost predicate Decided(data: Bytes, layout: Layout, symbols: Symbols, names: seq<Bytes>, stages: Stages, ok: bool)
    requires layout.Fits(data)
  {
    var before := Before(data, layout, symbols, RecordsFrom(data, layout, 0));
    && before.Valid() && stages.before == before && stages.assoc == Associations(data, before.recs)
       && stages.names == names
    && (Foldable(before) ==> LeastClosed(stages.assoc, CoffFates.MustGo(before), stages.removed))
    && (ok <==> Foldable(before) && InHeaders(layout, stages.removed))
  }

  /** No record makes the folding fail. */
  ghost predicate Foldable(before: Before)
    requires before.layout.Fits(before.d)
  {
    forall i | 0 <= i < |before.recs| :: !CoffFates.MustFail(before, i)
  }

  /**
   * The whole of `fold`: folds the object, defines the missing aliases and blanks the export directives. It fails
   * where a record must make it fail. It is also given up when a removed section has no header, where the
   * source overwrites whatever is there, or panics.
   */
  method FoldObject(data: Bytes, layout: Layout, symbols: Symbols, names: seq<Bytes>)
    returns (ok: bool, data': Bytes, ghost stages: Stages, ghost defined: Bytes, ghost stroff': nat, ghost count': nat,
             ghost size': nat)
    requires layout.Fits(data) && TableSound(data, layout, 0) && CoffAppending.HasStrings(data, layout)
    requires symbols.Primaries() && Listed(symbols, names)
    ensures Decided(data, layout, symbols, names, stages, ok)
    ensures ok ==> stages.Valid() && HasHeaders(defined, layout.nsec) && data' == BlankedTo(defined, layout.nsec)
    ensures ok && CoffAppending.SizesFit(layout, Read32(data, layout.Stroff()), DefsOf(stages.Actions())) ==>
              stages.Final(Read32(data, layout.Stroff()), DefsOf(stages.Actions()), defined, stroff', count', size')
  {
    ok, data', stages, stroff', count', size' := FoldAndDefine(data, layout, symbols, names);
    defined := data';
    if ok {
      data' := BlankSections(data', layout.nsec);
    }
  }

  method FoldAndDefine(data: Bytes, layout: Layout, symbols: Symbols, names: seq<Bytes>)
    returns (ok: bool, data': Bytes, ghost stages: Stages, ghost stroff': nat, ghost count': nat, ghost size': nat)
    requires layout.Fits(data) && TableSound(data, layout, 0) && CoffAppending.HasStrings(data, layout)
    requires symbols.Primaries() && Listed(symbols, names)
    ensures Decided(data, layout, symbols, names, stages, ok)
    ensures ok ==> stages.Valid() && HasHeaders(data', layout.nsec)
    ensures ok && CoffAppending.SizesFit(layout, Read32(data, layout.Stroff()), DefsOf(stages.Actions())) ==>
              stages.Final(Read32(data, layout.Stroff()), DefsOf(stages.Actions()), data', stroff', count', size')
  {
    var folding := new Folding(data, layout, symbols);
    var recs, assoc;
    ok, recs, assoc := folding.Fold();
    ok := ok && InHeaders(layout, folding.removed);
    data', stroff', count', size' := data, 0, 0, 0;
    ghost var before := Before(data, layout, symbols, recs);
    stages := Stages(before, assoc, folding.removed, names, folding.data, data);
    HeadersInFile(data, layout, folding.removed);
    CoffFates.FoldFailsIff(before);
    CoffFates.GoingIs(before);
    if ok {
      ghost var mid;
      StringsKept(before, assoc, folding.removed, folding.data);
      FoldedRewritable(before, assoc, folding.removed, folding.data, names);
      data', mid, stroff', count', size' := DefineMissing(folding.data, layout, symbols, recs, names);
      stages := Stages(before, assoc, folding.removed, names, folding.data, mid);
    }
  }

  lemma HeadersInFile(d: Bytes, layout: Layout, removed: set<int>)
    requires layout.Fits(d)
    ensures InHeaders(layout, removed) ==> InFile(d, removed)
  {
  }

  /** Folding leaves the string table alone. */
  lemma StringsKept(before: Before, assoc: map<int, int>, removed: set<int>, d: Bytes)
    requires before.Valid() && PlanOf(before).Valid() && FoldResult(before, assoc, removed, d)
             && InHeaders(before.layout, removed)
    requires CoffAppending.HasStrings(before.d, before.layout)
    ensures Read32(d, before.layout.Stroff()) == Read32(before.d, before.layout.Stroff())
            && CoffAppending.HasStrings(d, before.layout)
  {
    forall k | before.layout.Stroff() <= k < |d| ensures d[k] == before.d[k] {
      NotWritten(before, removed, k);
    }
    Read32Same(before.d, d, before.layout.Stroff());
  }

  lemma NotWritten(before: Before, removed: set<int>, k: int)
    requires before.Valid() && before.layout.Stroff() <= k && forall sec | sec in removed :: sec <= before.layout.nsec
    ensures !FieldWritten(PlanOf(before), k) && !InChars(removed, k)
  {
    forall i | 0 <= i < |before.recs| ensures before.recs[i].off + 18 <= k {
    }
    forall sec | sec in removed && 1 <= sec ensures CharsAt(sec) + 4 <= k {
    }
  }
}
