/** `calc_diff_ranges` of src/util/diff.rs: the ranges of instructions to print around those that differ. */
module DiffRanges {

  /** The instructions on both sides, each with whether it differs, pair by pair. */
  datatype Diff = Diff(left: seq<bool>, right: seq<bool>, collapse: nat) {
    function Len(): nat {
      if |left| < |right| then |left| else |right|
    }

    predicate Differs(i: int) {
      0 <= i < Len() && (left[i] || right[i])
    }

    /** The window of lines around an index, clipped to the list. */
    function WindowStart(i: int): int {
      if i < collapse then 0 else i - collapse
    }

    function WindowEnd(i: int): int {
      if Len() < i + collapse + 1 then Len() else i + collapse + 1
    }

    predicate Shows(range: (nat, nat), i: int) {
      range.0 <= WindowStart(i) && WindowEnd(i) <= range.1
    }

    ghost predicate Shown(ranges: seq<(nat, nat)>, i: int) {
      exists k :: 0 <= k < |ranges| && Shows(ranges[k], i)
    }

    /** Some differing index is no further away than one line more than are shown around it. */
    ghost predicate Near(j: int) {
      exists i :: Differs(i) && -(collapse + 1) <= i - j <= collapse + 1
    }

    ghost predicate AllNear(from: int, upto: int) {
      forall j | from <= j < upto :: Near(j)
    }

    ghost predicate Spread(ranges: seq<(nat, nat)>) {
      forall j, k | 0 <= j < k < |ranges| :: ranges[j].1 + 2 <= ranges[k].0
    }

    /** Ranges inside the list, apart, and of nothing but lines near a difference. */
    ghost predicate Good(ranges: seq<(nat, nat)>) {
      && Spread(ranges)
      && forall k | 0 <= k < |ranges| :: ranges[k].0 < ranges[k].1 <= Len() && AllNear(ranges[k].0, ranges[k].1)
    }

    /** Ranges may start from here on. */
    ghost predicate EndBefore(ranges: seq<(nat, nat)>, start: int) {
      forall k | 0 <= k < |ranges| :: ranges[k].1 + 2 <= start
    }

    /** What has been printed or is in the range open since `start` shows every difference before `idx`. */
    ghost predicate SeenAll(ranges: seq<(nat, nat)>, start: int, idx: int) {
      forall i | 0 <= i < idx && Differs(i) :: Shown(ranges, i) || start <= WindowStart(i)
    }

    lemma Push(ranges: seq<(nat, nat)>, start: nat, last: int, end: nat, idx: int)
      requires Good(ranges) && EndBefore(ranges, start) && SeenAll(ranges, start, idx)
      requires start <= last < end <= Len() && Differs(last) && AllNear(start, last + 1) && end <= last + collapse + 1
      requires forall i | last < i < idx :: !Differs(i)
      requires end == last + collapse + 1 || end == Len()
      ensures Good(ranges + [(start, end)])
      ensures forall i | 0 <= i < idx && Differs(i) :: Shown(ranges + [(start, end)], i)
    {
      var more := ranges + [(start, end)];
      forall j | last < j < end ensures Near(j) {
        assert Differs(last);
      }
      forall i | 0 <= i < idx && Differs(i) ensures Shown(more, i) {
        if k :| 0 <= k < |ranges| && Shows(ranges[k], i) {
          assert Shows(more[k], i);
        } else {
          assert !Shown(ranges, i);
          assert Shows(more[|ranges|], i);
        }
      }
    }

    /** Two differences no more than twice the lines apart leave no line between them far from both. */
    lemma Between(start: int, last: int, idx: int)
      requires AllNear(start, last + 1) && Differs(last) && Differs(idx) && last < idx <= last + 2 * collapse + 2
      ensures AllNear(start, idx + 1)
    {
      forall j | last < j <= idx ensures Near(j) {
        assert j - last <= collapse + 1 || idx - j <= collapse + 1;
      }
    }

    lemma StartOf(idx: int, start: int)
      requires Differs(idx) && start == WindowStart(idx)
      ensures AllNear(start, idx + 1)
    {
      forall j | start <= j < idx + 1 ensures Near(j) {
        assert idx - j <= collapse;
      }
    }
  }

  datatype State = Idle | DiffStart(start: nat) | DiffRange(start: nat, end: nat)

  /** The state machine agrees with what it has read. */
  ghost predicate Agrees(diff: Diff, state: State, ranges: seq<(nat, nat)>, idx: nat) {
    && diff.Good(ranges)
    && match state
       case Idle => diff.EndBefore(ranges, idx - diff.collapse) && forall i | 0 <= i < idx && diff.Differs(i) ::
              diff.Shown(ranges, i)
       case DiffStart(start) =>
         && start < idx && diff.Differs(idx - 1) && diff.EndBefore(ranges, start)
         && diff.SeenAll(ranges, start, idx) && diff.AllNear(start, idx)
       case DiffRange(start, end) =>
         && start < end < idx <= end + 2 * diff.collapse + 1 && diff.Differs(end - 1) && diff.EndBefore(ranges, start)
         && (forall i | end <= i < idx :: !diff.Differs(i))
         && diff.SeenAll(ranges, start, idx) && diff.AllNear(start, end)
  }

  method CalcDiffRanges(diff: Diff) returns (ranges: seq<(nat, nat)>)
    ensures diff.Good(ranges)
    ensures forall i | diff.Differs(i) :: diff.Shown(ranges, i)
  {
    var state := Idle;
    ranges := [];
    var idx := 0;
    while idx < diff.Len()
      invariant idx <= diff.Len() && Agrees(diff, state, ranges, idx)
    {
      state, ranges := Step(diff, state, ranges, idx);
      idx := idx + 1;
    }
    match state
    case Idle =>
    case DiffStart(start) =>
      diff.Push(ranges, start, idx - 1, idx, idx);
      ranges := ranges + [(start, idx)];
    case DiffRange(start, end) =>
      var last := if idx < end + diff.collapse then idx else end + diff.collapse;
      diff.Push(ranges, start, end - 1, last, idx);
      ranges := ranges + [(start, last)];
  }

  /** One pair of instructions. */
  method Step(diff: Diff, state: State, ranges: seq<(nat, nat)>, idx: nat) returns (state': State,
      ranges': seq<(nat, nat)>)
    requires idx < diff.Len() && Agrees(diff, state, ranges, idx)
    ensures Agrees(diff, state', ranges', idx + 1)
  {
    var differs := diff.left[idx] || diff.right[idx];
    match state
    case Idle => state', ranges' := FromIdle(diff, ranges, idx, differs), ranges;
    case DiffStart(start) => state', ranges' := FromStart(diff, start, ranges, idx, differs), ranges;
    case DiffRange(_, _) => state', ranges' := FromRange(diff, state, ranges, idx, differs);
  }

  function FromIdle(diff: Diff, ranges: seq<(nat, nat)>, idx: nat, differs: bool): (state: State)
    requires idx < diff.Len() && Agrees(diff, Idle, ranges, idx) && differs == diff.Differs(idx)
    ensures Agrees(diff, state, ranges, idx + 1)
  {
    if differs then
      var start := if idx < diff.collapse then 0 else idx - diff.collapse;
      diff.StartOf(idx, start);
      DiffStart(start)
    else Idle
  }

  function FromStart(diff: Diff, start: nat, ranges: seq<(nat, nat)>, idx: nat, differs: bool): (state: State)
    requires idx < diff.Len() && Agrees(diff, DiffStart(start), ranges, idx) && differs == diff.Differs(idx)
    ensures Agrees(diff, state, ranges, idx + 1)
  {
    if differs then
      diff.Between(start, idx - 1, idx);
      DiffStart(start)
    else DiffRange(start, idx)
  }

  method FromRange(diff: Diff, state: State, ranges: seq<(nat, nat)>, idx: nat, differs: bool)
      returns (state': State, ranges': seq<(nat, nat)>)
    requires state.DiffRange? && idx < diff.Len() && Agrees(diff, state, ranges, idx) && differs == diff.Differs(idx)
    ensures Agrees(diff, state', ranges', idx + 1)
  {
    state', ranges' := state, ranges;
    var DiffRange(start, end) := state;
    if differs {
      state' := DiffStart(start);
      diff.Between(start, end - 1, idx);
    } else if idx > end + diff.collapse * 2 {
      diff.Push(ranges, start, end - 1, end + diff.collapse, idx);
      ranges' := ranges + [(start, end + diff.collapse)];
      state' := Idle;
    }
  }
}
