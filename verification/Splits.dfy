/** Splits of src/obj/splits.rs and their merging by `ObjInfo::add_split` of src/obj/mod.rs. */
module Splits {
  import opened Wrappers

  datatype Split = Split(unit: string, end: int, align: Option<int>, common: bool, autogenerated: bool, skip: bool,
                         rename: Option<string>)

  /** The splits of a section by start address; those that start together are ordered by end. */
  type SplitMap = map<int, seq<Split>>

  datatype Section = Section(start: int, end: int, splits: SplitMap)

  predicate Has(splits: SplitMap, a: int, i: int) {
    a in splits && 0 <= i < |splits[a]|
  }

  /** Where the unit has splits. */
  function Places(splits: SplitMap, unit: string): set<(int, int)> {
    set a, i | a in splits && 0 <= i < |splits[a]| && splits[a][i].unit == unit :: (a, i)
  }

  /** `for_unit`: an error if the unit has more than one. */
  function ForUnit(splits: SplitMap, unit: string): (r: Result<Option<(int, int)>>)
    ensures r == Success(None) <==> Places(splits, unit) == {}
    ensures r.Success? && r.value.Some? ==>
              var (a, i) := r.value.value;
              Has(splits, a, i) && splits[a][i].unit == unit && Places(splits, unit) == {(a, i)}
    ensures r.Failure? ==> !OnePerUnit(splits)
  {
    var places := Places(splits, unit);
    if places == {} then Success(None)
    else
      SomePlace(places);
      if exists p | p in places :: places == {p} then
        var p :| p in places && places == {p};
        Success(Some(p))
      else
        assert !OnePerUnit(splits) by {
          var p :| p in places;
          assert exists q :: q in places && q != p by { assert places != {p}; SomePlace(places - {p}); }
        }
        Failure
  }

  lemma SomePlace(places: set<(int, int)>)
    ensures places != {} ==> exists p :: p in places
  {
  }

  ghost predicate OnePerUnit(splits: SplitMap) {
    forall a, i, b, j | Has(splits, a, i) && Has(splits, b, j) && splits[a][i].unit == splits[b][j].unit ::
        a == b && i == j
  }

  /** Ends are above starts, as `add_split` takes them to be. */
  ghost predicate Shaped(splits: SplitMap) {
    forall a, i | Has(splits, a, i) :: a < splits[a][i].end
  }

  /** Splits neither overlap nor start together. */
  ghost predicate Disjoint(splits: SplitMap) {
    forall a, i, b, j | Has(splits, a, i) && Has(splits, b, j) && (a, i) != (b, j) ::
        splits[a][i].end <= b || splits[b][j].end <= a
  }

  /** A split of another unit that starts before the address and ends after it. */
  ghost predicate Straddled(splits: SplitMap, address: int, unit: string) {
    exists a, i :: Has(splits, a, i) && splits[a][i].unit != unit && a < address < splits[a][i].end
  }

  /** Some split that starts in the range is hand-written, of a unit other than `but`. */
  predicate HandWritten(splits: SplitMap, start: int, end: int, but: Option<string>) {
    exists a | a in splits && start <= a < end :: exists i | 0 <= i < |splits[a]| ::
      !splits[a][i].autogenerated && Some(splits[a][i].unit) != but
  }

  /** The units of the splits that start in the range. */
  function UnitsIn(splits: SplitMap, start: int, end: int): set<string> {
    set a, i | a in splits && start <= a < end && 0 <= i < |splits[a]| :: splits[a][i].unit
  }

  /** The splits that do not start in the range. */
  function Outside(splits: SplitMap, start: int, end: int): SplitMap {
    map a | a in splits && !(start <= a < end) :: splits[a]
  }

  function Renamed(splits: SplitMap, units: set<string>, to: string): (r: SplitMap)
    ensures r.Keys == splits.Keys && forall a | a in splits :: |r[a]| == |splits[a]|
    ensures forall a, i | Has(splits, a, i) && Has(r, a, i) ::
              r[a][i] == if splits[a][i].unit in units then splits[a][i].(unit := to) else splits[a][i]
  {
    map a | a in splits ::
      seq(|splits[a]|, i requires 0 <= i < |splits[a]| => if splits[a][i].unit in units then splits[a][i].(unit := to)
          else splits[a][i])
  }

  /** `sort_by_key` of a list that was sorted before the last split was pushed. */
  function InsertByEnd(list: seq<Split>, split: Split): (r: seq<Split>)
    ensures multiset(r) == multiset(list) + multiset{split}
    ensures |r| == |list| + 1
  {
    if list == [] || list[|list| - 1].end <= split.end then list + [split]
    else
      assert list == list[..|list| - 1] + [list[|list| - 1]];
      InsertByEnd(list[..|list| - 1], split) + [list[|list| - 1]]
  }

  function Pushed(splits: SplitMap, address: int, split: Split): SplitMap {
    splits[address := InsertByEnd(if address in splits then splits[address] else [], split)]
  }

  /** What `add_split` decides from the splits of the section. */
  datatype Decision = Refuse | Nothing | Push | Extend(start: int, end: int, split: Split)

  function Decide(splits: SplitMap, address: int, split: Split): Decision {
    match ForUnit(splits, split.unit)
    case Failure => Refuse
    case Success(None) => Push
    case Success(Some((a, i))) =>
      var existing := splits[a][i];
      var start, end := if a < address then a else address, if existing.end < split.end then split.end
          else existing.end;
      if split.align.Some? && existing.align.Some? && split.align != existing.align then Refuse
      else if split.common != existing.common then Refuse
      else if start >= a && end <= existing.end then Nothing
      else if split.autogenerated && HandWritten(splits, start, end, None) then Nothing
      else if HandWritten(splits, start, end, Some(split.unit)) then Refuse
      else Extend(start, end, Split(split.unit, end, if split.align.Some? then split.align
          else existing.align, split.common,
                                    split.autogenerated && existing.autogenerated, false, None))
  }

  /** The unit's one split, at `a`. */
  ghost predicate OnlySplit(splits: SplitMap, unit: string, a: int, i: int) {
    && Has(splits, a, i) && splits[a][i].unit == unit
    && forall b, j | Has(splits, b, j) && splits[b][j].unit == unit :: a == b && i == j
  }

  ghost predicate Clash(split: Split, other: Split) {
    || (split.align.Some? && other.align.Some? && split.align.value != other.align.value)
    || split.common != other.common
  }

  /** A hand-written split starts in the range, of the unit itself too or only of others. */
  ghost predicate Guarded(splits: SplitMap, start: int, end: int, unit: string, itself: bool) {
    exists b, j :: Has(splits, b, j) && start <= b < end && !splits[b][j].autogenerated
                   && (itself || splits[b][j].unit != unit)
  }

  /**
   * What must be decided for a unit with one split: a clash is refused; what is covered already changes nothing,
   * nor does a generated split over any hand-written one; a split over another unit's hand-written one is
   * refused; everything else extends.
   */
  lemma DecideIff(splits: SplitMap, address: int, split: Split, a: int, i: int)
    requires OnlySplit(splits, split.unit, a, i)
    ensures var was, decision := splits[a][i], Decide(splits, address, split);
            var start := if a < address then a else address;
            var end := if was.end < split.end then split.end else was.end;
            var covered := a <= address && split.end <= was.end;
            var kept := covered || (split.autogenerated && Guarded(splits, start, end, split.unit, true));
            && (decision.Refuse? <==>
                  Clash(split, was) || (!kept && Guarded(splits, start, end, split.unit, false)))
            && (decision.Nothing? <==> !Clash(split, was) && kept)
            && (decision.Extend? <==>
                  !Clash(split, was) && !kept && !Guarded(splits, start, end, split.unit, false))
            && (decision.Extend? ==> (decision.start, decision.end) == (start, end))
  {
    OnePlace(splits, split.unit, a, i);
    var was := splits[a][i];
    var start, end := if a < address then a else address, if was.end < split.end then split.end else was.end;
    GuardedIff(splits, start, end, split.unit);
  }

  lemma OnePlace(splits: SplitMap, unit: string, a: int, i: int)
    requires OnlySplit(splits, unit, a, i)
    ensures Places(splits, unit) == {(a, i)} && ForUnit(splits, unit) == Success(Some((a, i)))
  {
    assert (a, i) in Places(splits, unit);
    assert Places(splits, unit) == {(a, i)};
    if ForUnit(splits, unit).Success? {
      assert ForUnit(splits, unit).value.value in {(a, i)};
    }
  }

  lemma GuardedIff(splits: SplitMap, start: int, end: int, unit: string)
    ensures Guarded(splits, start, end, unit, true) <==> HandWritten(splits, start, end, None)
    ensures Guarded(splits, start, end, unit, false) <==> HandWritten(splits, start, end, Some(unit))
  {
    forall but: Option<string> | HandWritten(splits, start, end, but) && (but == None || but == Some(unit))
      ensures Guarded(splits, start, end, unit, but == None)
    {
      var a :| a in splits && start <= a < end && exists i | 0 <= i < |splits[a]| ::
        !splits[a][i].autogenerated && Some(splits[a][i].unit) != but;
      var i :| 0 <= i < |splits[a]| && !splits[a][i].autogenerated && Some(splits[a][i].unit) != but;
      assert Has(splits, a, i);
    }
  }

  /** What an extension makes of the unit's split. */
  lemma MergedIs(splits: SplitMap, address: int, split: Split, a: int, i: int)
    requires OnlySplit(splits, split.unit, a, i) && Decide(splits, address, split).Extend?
    ensures var was, merged := splits[a][i], Decide(splits, address, split).split;
            && merged.unit == split.unit && merged.end == Decide(splits, address, split).end
            && merged.common == was.common && (merged.autogenerated <==> was.autogenerated && split.autogenerated)
            && !merged.skip && merged.rename.None?
            && (split.align.Some? ==> merged.align == split.align) && (was.align.Some? ==> merged.align == was.align)
            && (split.align.None? && was.align.None? ==> merged.align.None?)
  {
    OnePlace(splits, split.unit, a, i);
  }

  /** A unit without a split gets one, where splits that start together stay in order of their ends. */
  lemma PushIff(splits: SplitMap, address: int, split: Split)
    ensures Decide(splits, address, split) == Push <==>
            forall b, j | Has(splits, b, j) :: splits[b][j].unit != split.unit
    ensures (forall a | a in splits :: EndsAscend(splits[a])) ==>
              forall a | a in Pushed(splits, address, split) :: EndsAscend(Pushed(splits, address, split)[a])
  {
    forall b, j | Has(splits, b, j) && splits[b][j].unit == split.unit ensures (b, j) in Places(splits, split.unit) {
    }
    if Places(splits, split.unit) != {} {
      SomePlace(Places(splits, split.unit));
    }
    var list := if address in splits then splits[address] else [];
    if EndsAscend(list) {
      InsertedAscends(list, split);
    }
  }

  ghost predicate EndsAscend(list: seq<Split>) {
    forall i, j | 0 <= i < j < |list| :: list[i].end <= list[j].end
  }

  lemma {:induction false} InsertedAscends(list: seq<Split>, split: Split)
    requires EndsAscend(list)
    ensures EndsAscend(InsertByEnd(list, split))
  {
    if list != [] && split.end < list[|list| - 1].end {
      var front, last := list[..|list| - 1], list[|list| - 1];
      InsertedAscends(front, split);
      var r := InsertByEnd(front, split);
      forall i | 0 <= i < |r| ensures r[i].end <= last.end {
        assert r[i] in multiset(r);
        assert r[i] in multiset(front) + multiset{split};
        assert r[i] != split ==> r[i] in front;
      }
    }
  }

  /** The section's splits after an extension: one split in place of all that started in the range. */
  function Extended(splits: SplitMap, start: int, end: int, split: Split): SplitMap {
    Renamed(Outside(splits, start, end), UnitsIn(splits, start, end) - {split.unit}, split.unit)[start := [split]]
  }

  /** The section's splits after `add_split` has succeeded. */
  function After(splits: SplitMap, address: int, split: Split): SplitMap {
    match Decide(splits, address, split)
    case Push => Pushed(splits, address, split)
    case Extend(start, end, merged) => Extended(splits, start, end, merged)
    case _ => splits
  }

  /** An extension starts from the unit's one split, which it takes in with what was asked for. */
  lemma ExtendFrom(splits: SplitMap, address: int, split: Split) returns (a: int, i: int)
    requires Shaped(splits) && address < split.end && Decide(splits, address, split).Extend?
    ensures var Extend(start, end, merged) := Decide(splits, address, split);
            && Has(splits, a, i) && splits[a][i].unit == split.unit == merged.unit
               && Places(splits, split.unit) == {(a, i)}
            && start == (if a < address then a else address) && start <= a < end
               && splits[a][i].end <= end == merged.end
            && split.end <= end
            && (end == split.end || end == splits[a][i].end)
            && !HandWritten(splits, start, end, Some(split.unit))
            && (split.autogenerated ==> !HandWritten(splits, start, end, None))
            && |Outside(splits, start, end).Keys| < |splits.Keys|
  {
    var Extend(start, end, merged) := Decide(splits, address, split);
    var place := ForUnit(splits, split.unit).value.value;
    a, i := place.0, place.1;
    var left := Outside(splits, start, end).Keys;
    assert left <= splits.Keys - {a};
    FewerKeys(left, splits.Keys - {a});
  }

  lemma FewerKeys(a: set<int>, b: set<int>)
    requires a <= b
    ensures |a| <= |b|
  {
    assert b == a + (b - a);
  }

  /** Where each unit has one split, no unit overwritten by an extension is left to be renamed. */
  lemma NothingToRename(splits: SplitMap, start: int, end: int, units: set<string>, to: string)
    requires OnePerUnit(splits) && units <= UnitsIn(splits, start, end)
    ensures Renamed(Outside(splits, start, end), units, to) == Outside(splits, start, end)
  {
    var rest := Outside(splits, start, end);
    var r := Renamed(rest, units, to);
    forall a | a in rest ensures r[a] == rest[a] {
      forall i | 0 <= i < |rest[a]| ensures r[a][i] == rest[a][i] {
        assert Has(rest, a, i) && Has(r, a, i) && Has(splits, a, i);
        if rest[a][i].unit in units {
          var b, j :| b in splits && start <= b < end && 0 <= j < |splits[b]| && splits[b][j].unit == rest[a][i].unit;
          assert Has(splits, b, j);
        }
      }
    }
  }

  /** After the old splits are gone, the merged one is simply pushed. */
  lemma ThenPushed(splits: SplitMap, address: int, split: Split)
    requires OnePerUnit(splits) && Shaped(splits) && address < split.end && Decide(splits, address, split).Extend?
    ensures var Extend(start, end, merged) := Decide(splits, address, split);
            var rest := Renamed(Outside(splits, start, end), UnitsIn(splits, start, end) - {split.unit}, split.unit);
            && rest == Outside(splits, start, end) && OnePerUnit(rest) && Shaped(rest)
            && Decide(rest, start, merged) == Push && Pushed(rest, start, merged) == After(splits, address, split)
  {
    var Extend(start, end, merged) := Decide(splits, address, split);
    var a, i := ExtendFrom(splits, address, split);
    NothingToRename(splits, start, end, UnitsIn(splits, start, end) - {split.unit}, split.unit);
    var rest := Outside(splits, start, end);
    forall b, j | Has(rest, b, j) ensures Has(splits, b, j) && rest[b][j] == splits[b][j] { }
    forall b, j | Has(rest, b, j) ensures rest[b][j].unit != split.unit {
      assert rest[b][j].unit == split.unit ==> (b, j) in Places(splits, split.unit);
    }
    assert Places(rest, split.unit) == {};
    assert OnePerUnit(rest) && Shaped(rest);
    assert Decide(rest, start, merged) == Push;
    assert start !in rest;
    assert InsertByEnd([], merged) == [merged];
  }

  lemma StillShaped(splits: SplitMap, start: int, end: int, units: set<string>, to: string)
    requires Shaped(splits)
    ensures Shaped(Renamed(Outside(splits, start, end), units, to))
  {
    var rest := Outside(splits, start, end);
    var r := Renamed(rest, units, to);
    forall a, i | Has(r, a, i) ensures a < r[a][i].end {
      assert Has(rest, a, i) && Has(splits, a, i);
    }
  }

  lemma {:induction false} InsertedAt(list: seq<Split>, split: Split) returns (p: nat)
    ensures p <= |list| && InsertByEnd(list, split) == list[..p] + [split] + list[p..]
  {
    if list == [] || list[|list| - 1].end <= split.end {
      p := |list|;
      assert list[..p] + [split] + list[p..] == list + [split];
    } else {
      p := InsertedAt(list[..|list| - 1], split);
      assert list[..p] + [split] + list[p..] ==
               list[..|list| - 1][..p] + [split] + list[..|list| - 1][p..] + [list[|list| - 1]];
    }
  }

  /** Each unit still has at most one split. */
  lemma AfterOnePerUnit(splits: SplitMap, address: int, split: Split)
    requires OnePerUnit(splits) && Shaped(splits) && address < split.end
    ensures OnePerUnit(After(splits, address, split))
  {
    match Decide(splits, address, split)
    case Push => PushedOnePerUnit(splits, address, split);
    case Extend(start, end, merged) =>
      ThenPushed(splits, address, split);
      PushedOnePerUnit(Outside(splits, start, end), start, merged);
    case _ =>
  }

  lemma PushedOnePerUnit(splits: SplitMap, address: int, split: Split)
    requires OnePerUnit(splits) && Decide(splits, address, split) == Push
    ensures OnePerUnit(Pushed(splits, address, split))
  {
    var p := InsertedAt(if address in splits then splits[address] else [], split);
    var after := Pushed(splits, address, split);
    forall a, i, b, j | Has(after, a, i) && Has(after, b, j) && after[a][i].unit == after[b][j].unit
      ensures a == b && i == j {
      PushedFrom(splits, address, split, p, a, i);
      PushedFrom(splits, address, split, p, b, j);
    }
  }

  lemma PushedFrom(splits: SplitMap, address: int, split: Split, p: nat, a: int, i: int)
    requires Decide(splits, address, split) == Push && Has(Pushed(splits, address, split), a, i)
    requires var list := if address in splits then splits[address] else [];
             p <= |list| && InsertByEnd(list, split) == list[..p] + [split] + list[p..]
    ensures var after, j := Pushed(splits, address, split), Before(address, p, a, i);
            if a == address && i == p then after[a][i] == split
            else Has(splits, a, j) && splits[a][j] == after[a][i] && after[a][i].unit != split.unit
  {
    var j := Before(address, p, a, i);
    if !(a == address && i == p) {
      assert Has(splits, a, j);
      assert splits[a][j].unit == split.unit ==> (a, j) in Places(splits, split.unit);
    }
  }

  /** The index a split of the result had before one was inserted at `p`. */
  function Before(address: int, p: int, a: int, i: int): int {
    if a == address && i > p then i - 1 else i
  }

  /** No hand-written split of another unit is removed or changed. */
  lemma HandWrittenKept(splits: SplitMap, address: int, split: Split, a: int, i: int)
    requires OnePerUnit(splits) && Shaped(splits) && address < split.end
    requires Has(splits, a, i) && !splits[a][i].autogenerated && splits[a][i].unit != split.unit
    ensures var after := After(splits, address, split); exists j :: Has(after, a, j) && after[a][j] == splits[a][i]
  {
    var after := After(splits, address, split);
    match Decide(splits, address, split)
    case Push =>
      PushedKeeps(splits, address, split, a, i);
    case Extend(start, end, merged) =>
      ExtendedKeeps(splits, address, split, a, i);
    case _ =>
      assert Has(after, a, i);
  }

  lemma PushedKeeps(splits: SplitMap, address: int, split: Split, a: int, i: int)
    requires Has(splits, a, i)
    ensures var after := Pushed(splits, address, split); exists j :: Has(after, a, j) && after[a][j] == splits[a][i]
  {
    var after := Pushed(splits, address, split);
    if a == address {
      var p := InsertedAt(splits[a], split);
      var j := if i >= p then i + 1 else i;
      assert Has(after, a, j) && after[a][j] == splits[a][i];
    } else {
      assert Has(after, a, i);
    }
  }

  lemma ExtendedKeeps(splits: SplitMap, address: int, split: Split, a: int, i: int)
    requires OnePerUnit(splits) && Shaped(splits) && address < split.end && Decide(splits, address, split).Extend?
    requires Has(splits, a, i) && !splits[a][i].autogenerated && splits[a][i].unit != split.unit
    ensures var after := After(splits, address, split); Has(after, a, i) && after[a][i] == splits[a][i]
  {
    var Extend(start, end, merged) := Decide(splits, address, split);
    var b, k := ExtendFrom(splits, address, split);
    ThenPushed(splits, address, split);
    assert start <= a < end ==> HandWritten(splits, start, end, Some(split.unit));
    assert a in Outside(splits, start, end);
  }

  /** The split covers what was asked for, and all that the unit had. */
  ghost predicate Covers(splits: SplitMap, address: int, split: Split, a: int, covering: Split) {
    && covering.unit == split.unit && a <= address && split.end <= covering.end
    && forall b, j | Has(splits, b, j) && splits[b][j].unit == split.unit :: a <= b && splits[b][j].end <= covering.end
  }

  /** Whenever anything changes, one split of the unit covers both. */
  lemma CoversBoth(splits: SplitMap, address: int, split: Split) returns (a: int, i: int)
    requires OnePerUnit(splits) && Shaped(splits) && address < split.end
    ensures After(splits, address, split) != splits ==>
              var after := After(splits, address, split);
              Has(after, a, i) && Covers(splits, address, split, a, after[a][i])
  {
    a, i := 0, 0;
    match Decide(splits, address, split)
    case Push =>
      a := address;
      i := PushedCovers(splits, address, split);
    case Extend(start, end, merged) =>
      a, i := start, 0;
      ExtendedCovers(splits, address, split);
    case _ =>
  }

  lemma PushedCovers(splits: SplitMap, address: int, split: Split) returns (p: nat)
    requires Decide(splits, address, split) == Push
    ensures Has(Pushed(splits, address, split), address, p)
    ensures Covers(splits, address, split, address, Pushed(splits, address, split)[address][p])
  {
    p := InsertedAt(if address in splits then splits[address] else [], split);
    forall b, j | Has(splits, b, j) ensures splits[b][j].unit != split.unit {
      assert splits[b][j].unit == split.unit ==> (b, j) in Places(splits, split.unit);
    }
  }

  lemma ExtendedCovers(splits: SplitMap, address: int, split: Split)
    requires Shaped(splits) && address < split.end && Decide(splits, address, split).Extend?
    ensures var Extend(start, end, merged) := Decide(splits, address, split);
            && Has(Extended(splits, start, end, merged), start, 0)
               && Extended(splits, start, end, merged)[start][0] == merged
            && Covers(splits, address, split, start, merged)
  {
    var b, k := ExtendFrom(splits, address, split);
    forall c, j | Has(splits, c, j) && splits[c][j].unit == split.unit ensures c == b && j == k {
      assert (c, j) in Places(splits, split.unit);
    }
  }

  /** The result is the merged split, and the splits of other units that start outside its range. */
  ghost predicate OneMerged(splits: SplitMap, start: int, end: int, merged: Split, after: SplitMap) {
    && Has(after, start, 0) && after[start][0] == merged
    && (forall a, i | Has(after, a, i) && a == start :: i == 0)
    && (forall a, i | Has(after, a, i) && a != start ::
          Has(splits, a, i) && after[a][i] == splits[a][i] && !(start <= a < end) && splits[a][i].unit != merged.unit)
    && (forall a, i | Has(splits, a, i) && !(start <= a < end) :: Has(after, a, i))
  }

  lemma ExtendedShape(splits: SplitMap, address: int, split: Split)
    requires OnePerUnit(splits) && Shaped(splits) && address < split.end && Decide(splits, address, split).Extend?
    ensures var Extend(start, end, merged) := Decide(splits, address, split);
            OneMerged(splits, start, end, merged, After(splits, address, split))
  {
    var Extend(start, end, merged) := Decide(splits, address, split);
    var after := After(splits, address, split);
    var b, k := ExtendFrom(splits, address, split);
    ThenPushed(splits, address, split);
    forall a, i | Has(after, a, i) && a != start
      ensures Has(splits, a, i) && after[a][i] == splits[a][i] && !(start <= a < end)
              && splits[a][i].unit != merged.unit
    {
      assert Has(splits, a, i);
      assert splits[a][i].unit == split.unit ==> (a, i) in Places(splits, split.unit);
    }
  }

  /** An extension keeps splits disjoint exactly when no other unit's split straddles where it starts. */
  lemma ExtensionDisjoint(splits: SplitMap, address: int, split: Split)
    requires OnePerUnit(splits) && Shaped(splits) && Disjoint(splits) && address < split.end
             && Decide(splits, address, split).Extend?
    ensures Disjoint(After(splits, address, split)) <==>
              !Straddled(splits, Decide(splits, address, split).start, split.unit)
    ensures !Straddled(splits, address, split.unit) ==> Disjoint(After(splits, address, split))
  {
    var Extend(start, end, merged) := Decide(splits, address, split);
    var b, k := ExtendFrom(splits, address, split);
    ExtendedShape(splits, address, split);
    MergedDisjoint(splits, start, end, merged, After(splits, address, split));
    if start != address {
      forall a, i | Has(splits, a, i) && splits[a][i].unit != split.unit && a < start
        ensures splits[a][i].end <= start {
        assert (a, i) != (b, k);
      }
    }
  }

  /** Unit `b` holds 0 to 0x20 and unit `a` 0x30 to 0x40: adding 0x10 to 0x38 to `a` leaves the two overlapping. */
  lemma StraddledFails()
    ensures var a, b := Auto("a", 0x40), Auto("b", 0x20);
            var splits := map[0 := [b], 0x30 := [a]];
            && OnePerUnit(splits) && Shaped(splits) && Disjoint(splits) && Decide(splits, 0x10, Auto("a", 0x38)).Extend?
            && !Disjoint(After(splits, 0x10, Auto("a", 0x38)))
  {
    var a, b := Auto("a", 0x40), Auto("b", 0x20);
    var splits := map[0 := [b], 0x30 := [a]];
    assert a.unit[0] != b.unit[0];
    TwoSplits(splits, a, b);
    assert Has(splits, 0, 0);
    ExtensionDisjoint(splits, 0x10, Auto("a", 0x38));
  }

  function Auto(unit: string, end: int): Split {
    Split(unit, end, None, false, true, false, None)
  }

  lemma TwoSplits(splits: SplitMap, a: Split, b: Split)
    requires splits == map[0 := [b], 0x30 := [a]] && a == Auto("a", 0x40) && b == Auto("b", 0x20) && a.unit != b.unit
    ensures OnePerUnit(splits) && Shaped(splits) && Disjoint(splits)
    ensures Decide(splits, 0x10, Auto("a", 0x38)).Extend? && Decide(splits, 0x10, Auto("a", 0x38)).start == 0x10
  {
    assert forall k, i | Has(splits, k, i) :: i == 0 && (k == 0 || k == 0x30);
    assert (0x30, 0) in Places(splits, "a");
    assert Places(splits, "a") == {(0x30, 0)};
  }

  lemma MergedDisjoint(splits: SplitMap, start: int, end: int, merged: Split, after: SplitMap)
    requires Disjoint(splits) && start < end == merged.end && OneMerged(splits, start, end, merged, after)
    requires forall a, i | Has(splits, a, i) && splits[a][i].unit == merged.unit :: start <= a < end
    ensures Disjoint(after) <==> !Straddled(splits, start, merged.unit)
  {
    if Straddled(splits, start, merged.unit) {
      var a, i :| Has(splits, a, i) && splits[a][i].unit != merged.unit && a < start < splits[a][i].end;
      assert Has(after, a, i) && after[a][i] == splits[a][i];
    } else {
      forall a, i | Has(after, a, i) && a < start ensures after[a][i].end <= start {
        assert Has(splits, a, i);
      }
    }
  }

  function AllRenamed(sections: seq<Section>, units: set<string>, to: string): (r: seq<Section>)
    ensures |r| == |sections|
    ensures forall i | 0 <= i < |r| :: r[i] == sections[i].(splits := Renamed(sections[i].splits, units, to))
  {
    seq(|sections|, i requires 0 <= i < |sections| => sections[i].(splits := Renamed(sections[i].splits, units, to)))
  }

  /**
   * All the sections after `add_split` has succeeded: where units were overwritten, they are renamed in every
   * section.
   */
  function SectionsAfter(sections: seq<Section>, index: nat, address: int, split: Split): seq<Section>
    requires index < |sections|
  {
    var section := sections[index];
    var after := section.(splits := After(section.splits, address, split));
    match Decide(section.splits, address, split)
    case Extend(start, end, _) => AllRenamed(sections, UnitsIn(section.splits, start, end) - {split.unit},
                                             split.unit)[index := after]
    case _ => sections[index := after]
  }

  /** Every other section keeps its splits, under the new name where an extension overwrote their unit. */
  lemma OthersRenamed(sections: seq<Section>, index: nat, address: int, split: Split, k: nat, a: int, i: int)
    requires index < |sections| && k < |sections| && k != index && Has(sections[k].splits, a, i)
    ensures var after := SectionsAfter(sections, index, address, split);
            var decision := Decide(sections[index].splits, address, split);
            var overwritten := decision.Extend? && sections[k].splits[a][i].unit != split.unit && exists b, j ::
              Has(sections[index].splits, b, j) && decision.start <= b < decision.end
                && sections[index].splits[b][j].unit == sections[k].splits[a][i].unit;
            && Has(after[k].splits, a, i) && after[k].splits.Keys == sections[k].splits.Keys
            && after[k].splits[a][i] ==
               if overwritten then sections[k].splits[a][i].(unit := split.unit) else sections[k].splits[a][i]
  {
    var decision := Decide(sections[index].splits, address, split);
    if decision.Extend? {
      var unit := sections[k].splits[a][i].unit;
      assert unit in UnitsIn(sections[index].splits, decision.start, decision.end) <==> exists b, j ::
          Has(sections[index].splits, b, j) && decision.start <= b < decision.end
            && sections[index].splits[b][j].unit == unit;
    }
  }

  /** What `add_split` accepts. */
  predicate Accepted(section: Section, address: int, split: Split) {
    (split.end == 0 || split.end <= section.end) && !Decide(section.splits, address, split).Refuse?
  }

  /** The sections once the overwritten splits are gone, before the merged one is added. */
  function Cleared(sections: seq<Section>, index: nat, start: int, end: int, unit: string): (r: seq<Section>)
    requires index < |sections|
    ensures |r| == |sections|
  {
    var section := sections[index];
    AllRenamed(sections[index := section.(splits := Outside(section.splits, start, end))],
               UnitsIn(section.splits, start, end) - {unit}, unit)
  }

  lemma Again(sections: seq<Section>, index: nat, address: int, split: Split)
    requires index < |sections| && Shaped(sections[index].splits) && address < split.end
             && Decide(sections[index].splits, address, split).Extend?
    ensures var Extend(start, end, merged) := Decide(sections[index].splits, address, split);
            var cleared := Cleared(sections, index, start, end, split.unit);
            && start < merged.end && Shaped(cleared[index].splits)
               && |cleared[index].splits.Keys| < |sections[index].splits.Keys|
            && (OnePerUnit(sections[index].splits) ==>
                  OnePerUnit(cleared[index].splits) &&
                  SectionsAfter(cleared, index, start, merged) == SectionsAfter(sections, index, address, split))
            && (OnePerUnit(sections[index].splits) && EndsInside(sections[index]) ==>
                  EndsInside(cleared[index]) && (split.end <= sections[index].end ==>
                      Accepted(cleared[index], start, merged)))
  {
    var splits := sections[index].splits;
    var Extend(start, end, merged) := Decide(splits, address, split);
    var a, i := ExtendFrom(splits, address, split);
    StillShaped(splits, start, end, UnitsIn(splits, start, end) - {split.unit}, split.unit);
    if OnePerUnit(splits) {
      ThenPushed(splits, address, split);
      var cleared := Cleared(sections, index, start, end, split.unit);
      assert cleared[index].splits == Outside(splits, start, end);
      assert SectionsAfter(cleared, index, start, merged) == SectionsAfter(sections, index, address, split);
      forall b, j | Has(cleared[index].splits, b, j)
        ensures Has(splits, b, j) && cleared[index].splits[b][j] == splits[b][j] { }
    }
  }

  /** The call's effect where each unit has one split in the section, and its failures where ends are inside it. */
  ghost predicate Outcome(before: seq<Section>, index: nat, address: int, split: Split, ok: bool, after: seq<Section>)
    requires index < |before|
  {
    OnePerUnit(before[index].splits) ==>
      && (ok ==> after == SectionsAfter(before, index, address, split))
      && (EndsInside(before[index]) ==> (ok <==> Accepted(before[index], address, split)) && (!ok ==> after == before))
  }

  lemma OutcomeAgain(before: seq<Section>, index: nat, address: int, split: Split, cleared: seq<Section>, ok: bool,
                     after: seq<Section>)
    requires index < |before| && Shaped(before[index].splits) && address < split.end <= before[index].end
    requires Decide(before[index].splits, address, split).Extend?
    requires var Extend(start, end, merged) := Decide(before[index].splits, address, split);
             cleared == Cleared(before, index, start, end, split.unit)
                 && Outcome(cleared, index, start, merged, ok, after)
    ensures Outcome(before, index, address, split, ok, after)
  {
    Again(before, index, address, split);
  }

  ghost predicate EndsInside(section: Section) {
    forall a, i | Has(section.splits, a, i) :: section.splits[a][i].end <= section.end
  }

  class ObjInfo {
    var sections: seq<Section>

    constructor (sections: seq<Section>)
      ensures this.sections == sections
    {
      this.sections := sections;
    }

    method AddSplit(index: nat, address: int, split: Split) returns (r: Result<()>)
      requires index < |sections| ==> Shaped(sections[index].splits)
      requires address < split.end && 0 < split.end
      modifies this
      decreases if index < |sections| then |sections[index].splits.Keys| else 0
      ensures |sections| == |old(sections)|
      ensures r.Success? ==> index < |sections|
      ensures index < |sections| ==> Outcome(old(sections), index, address, split, r.Success?, sections)
    {
      if index >= |sections| {
        return Failure;
      }
      ghost var before := sections;
      var again;
      r, again := Step(index, address, split);
      if again.Some? {
        var (start, merged) := again.value;
        Again(before, index, address, split);
        ghost var cleared := sections;
        r := AddSplit(index, start, merged);
        OutcomeAgain(before, index, address, split, cleared, r.Success?, sections);
      }
    }

    /** One call without its recursion: where it would go on from, if it extends a split. */
    method Step(index: nat, address: int, split: Split) returns (r: Result<()>, again: Option<(int, Split)>)
      requires index < |sections| && Shaped(sections[index].splits) && address < split.end && 0 < split.end
      modifies this
      ensures again.None? ==>
                |sections| == |old(sections)| && Outcome(old(sections), index, address, split, r.Success?, sections)
      ensures again.Some? ==>
                var decision := Decide(old(sections[index].splits), address, split);
                && decision.Extend? && again.value == (decision.start, decision.split)
                   && split.end <= old(sections[index]).end
                && sections == Cleared(old(sections), index, decision.start, decision.end, split.unit)
    {
      var section := sections[index];
      if !(split.end == 0 || split.end <= section.end) {
        return Failure, None;
      }
      r, again := Success(()), None;
      match Decide(section.splits, address, split) {
        case Refuse =>
          r := Failure;
        case Nothing =>
        case Push =>
          sections := sections[index := section.(splits := Pushed(section.splits, address, split))];
        case Extend(start, end, merged) =>
          var renamed := UnitsIn(section.splits, start, end) - {split.unit};
          sections := sections[index := section.(splits := Outside(section.splits, start, end))];
          sections := AllRenamed(sections, renamed, split.unit);
          again := Some((start, merged));
      }
    }
  }
}
