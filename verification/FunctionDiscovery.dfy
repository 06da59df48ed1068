/**
 * The function-discovery fixpoint of src/analysis/cfa.rs over one code section. Analysing a function and
 * trying to finalize one are given: whatever they answer, the fixpoint ends.
 */
module FunctionDiscovery {
  import opened Wrappers
  import opened OrderedKeys
  import Executors

  /** `FunctionInfo`; `sliced` says whether the analysis left slices. */
  datatype Info = Info(analyzed: bool, end: Option<int>, sliced: bool) {
    predicate Unfinalized() {
      analyzed && end.None? && sliced
    }
  }

  type Functions = map<int, Info>

  /** What `process_function` finds: nothing, or the functions referred to and, if final, the end. */
  datatype Processed = ProcessError | NotFunction | Sliced(references: seq<int>, end: Option<int>)

  /** What trying to finalize a function comes to. */
  datatype Finalized = FinalizeError | NotYet | Done(references: seq<int>, end: int)

  /** The section, its zero words, the ranges to be skipped, and the analyses. */
  datatype Image = Image(lo: int, hi: int, zero: int -> bool, skip: map<int, int>,
                         process: (int, Functions) -> Processed, finalize: (int, Functions, bool) -> Finalized) {
    predicate InCode(a: int) {
      lo <= a < hi
    }

    /** The skip range with the greatest start at or below the address, if it holds it: `in_skipped_range`. */
    function SkipEnd(a: int): (r: Option<int>)
      ensures r.Some? ==> a < r.value
    {
      var start := Floor(skip.Keys, a);
      if start.Some? && a < skip[start.value] then Some(skip[start.value]) else None
    }

    /** Skip ranges neither overlap nor abut. */
    ghost predicate SkipsApart() {
      forall s, t | s in skip && t in skip && s < t :: skip[s] < t
    }

    ghost predicate Skipped(a: int) {
      exists s :: s in skip && s <= a < skip[s]
    }

    lemma SkipEndIs(a: int)
      requires SkipsApart()
      ensures SkipEnd(a).Some? <==> Skipped(a)
      ensures SkipEnd(a).Some? ==> !Skipped(SkipEnd(a).value)
    {
      var start := Floor(skip.Keys, a);
      forall s | s in skip && s <= a && Some(s) != start ensures skip[s] <= a {
        assert s < start.value;
      }
      if SkipEnd(a).Some? {
        forall s | s in skip ensures !(s <= skip[start.value] < skip[s]) {
          assert s < start.value ==> skip[s] < start.value;
          assert start.value < s ==> skip[start.value] < s;
        }
      }
    }

    /** Past the skip range the address is in, if it is in one. */
    function Past(a: int): (r: int)
      ensures a <= r
    {
      if SkipEnd(a).Some? then SkipEnd(a).value else a
    }

    /** From one address to the other there is nothing but zero words, each perhaps after a skipped range. */
    ghost predicate Padding(from: int, upto: int)
      decreases upto - from
    {
      from == upto || (zero(Past(from)) && Past(from) + 4 <= upto && Padding(Past(from) + 4, upto))
    }

    lemma {:induction false} PaddingMore(from: int, mid: int)
      requires Padding(from, mid) && zero(Past(mid))
      ensures Padding(from, Past(mid) + 4) && from <= mid
      decreases mid - from
    {
      if from != mid {
        PaddingMore(Past(from) + 4, mid);
      }
    }

    /** Every address passed over is skipped, or in a zero word. */
    lemma {:induction false} PaddingIs(from: int, upto: int, a: int)
      requires Padding(from, upto) && from <= a < Past(upto)
      ensures (exists w :: SkipEnd(w).Some? && w <= a < Past(w)) || (exists w :: zero(w) && w <= a < w + 4)
      decreases upto - from
    {
      if a < Past(from) {
        assert SkipEnd(from).Some? && from <= a < Past(from);
      } else if from != upto && a >= Past(from) + 4 {
        PaddingIs(Past(from) + 4, upto, a);
      } else {
        assert zero(Past(from)) && Past(from) <= a < Past(from) + 4;
      }
    }

    /** The first word in the gap from `start` to `end` after padding: not zero, and outside the skip ranges. */
    ghost predicate FirstWord(start: int, end: int, a: int) {
      && (exists from :: Padding(start, from) && start <= from && a == Past(from))
      && a + 4 <= end && !zero(a) && (SkipsApart() ==> !Skipped(a))
    }
  }

  /** Nothing but padding up to the last word that fits below `end`. */
  ghost predicate OnlyPadding(image: Image, start: int, end: int) {
    exists upto :: image.Padding(start, upto) && start <= upto && end < image.Past(upto) + 4
  }

  /** Each address of a padded gap is in a skipped range, in a zero word, or in a last word cut short. */
  lemma PaddedIs(image: Image, start: int, end: int, a: int)
    requires OnlyPadding(image, start, end) && start <= a && a + 4 <= end
    ensures (exists w :: image.SkipEnd(w).Some? && w <= a < image.Past(w))
            || (exists w :: image.zero(w) && w <= a < w + 4)
  {
    var upto :| image.Padding(start, upto) && start <= upto && end < image.Past(upto) + 4;
    image.PaddingIs(start, upto, a);
  }

  /** The functions of a gap's ends: the one before it, and where the next one or the section's end is. */
  ghost predicate Gap(image: Image, functions: Functions, first: int, end: int) {
    && first in functions && functions[first].end.Some?
    && end == (match Ceiling(functions.Keys, first + 1) case Some(second) => second case None => image.hi)
  }

  /** A new function is the first word of some gap. */
  ghost predicate Detected(image: Image, functions: Functions, a: int) {
    exists first, end :: Gap(image, functions, first, end) && image.FirstWord(functions[first].end.value, end, a)
  }

  /** Every gap after a function of known end is padding. */
  ghost predicate GapsPadded(image: Image, functions: Functions) {
    forall first, end | Gap(image, functions, first, end) :: OnlyPadding(image, functions[first].end.value, end)
  }

  /** All functions start in the section, and known ends are not below the starts, those found by analysis above. */
  ghost predicate Shaped(image: Image, functions: Functions) {
    && (forall f | f in functions :: image.InCode(f))
    && (forall f | f in functions && functions[f].end.Some? :: f <= functions[f].end.value)
    && (forall f | f in functions && functions[f].end.Some? && functions[f].analyzed :: f < functions[f].end.value)
  }

  ghost predicate AllAnalyzed(functions: Functions) {
    forall a | a in functions :: functions[a].analyzed
  }

  /** What `process_functions` ends with: all analysed, none to be made final, no overlap, only padding in the gaps. */
  ghost predicate Settled(image: Image, functions: Functions) {
    AllAnalyzed(functions) && NoneFinal(image, functions, false) && NoOverlap(functions) && GapsPadded(image, functions)
  }

  /** An analysis fails on these functions. */
  ghost predicate Faulted(image: Image, functions: Functions) {
    || (exists a :: image.process(a, functions).ProcessError?)
    || (exists a, last :: image.finalize(a, functions, last).FinalizeError?)
  }

  /** No function with a known end reaches past the start of the next. */
  ghost predicate NoOverlap(functions: Functions) {
    forall f, g | f in functions && g in functions && functions[f].end.Some? && f < g :: functions[f].end.value <= g
  }

  ghost predicate EndsBeforeNext(functions: Functions, f: int)
    requires f in functions
  {
    functions[f].end.Some? && Ceiling(functions.Keys, f + 1).Some? ==>
        functions[f].end.value <= Ceiling(functions.Keys, f + 1).value
  }

  lemma NoneOverlap(functions: Functions)
    requires forall f | f in functions :: EndsBeforeNext(functions, f)
    ensures NoOverlap(functions)
  {
    forall f, g | f in functions && g in functions && functions[f].end.Some? && f < g
      ensures functions[f].end.value <= g {
      assert EndsBeforeNext(functions, f);
    }
  }

  lemma AllOutside(image: Image, functions: Functions, a: int)
    requires Shaped(image, functions) && NoOverlap(functions) && Detected(image, functions, a) && image.InCode(a)
             && a !in functions
    ensures IsNew(image, functions, a)
  {
    forall f | f in functions && functions[f].end.Some? ensures !(f <= a < functions[f].end.value) {
      DetectedOutside(image, functions, a, f);
    }
  }

  /** What `detect_new_functions` adds is outside every function with a known end. */
  lemma DetectedOutside(image: Image, functions: Functions, a: int, f: int)
    requires Shaped(image, functions) && NoOverlap(functions) && Detected(image, functions, a)
    requires f in functions && functions[f].end.Some?
    ensures !(f <= a < functions[f].end.value)
  {
    var first, end :| Gap(image, functions, first, end) && image.FirstWord(functions[first].end.value, end, a);
    if f < first {
      assert functions[f].end.value <= first;
    }
  }

  ghost predicate PaddedAfter(image: Image, functions: Functions, f: int) {
    forall end | Gap(image, functions, f, end) :: OnlyPadding(image, functions[f].end.value, end)
  }

  /** A word detected from the function at `first` on and before the next, which is new if the function is analysed. */
  ghost predicate FoundAfter(image: Image, functions: Functions, first: int, a: int) {
    && image.InCode(a) && Detected(image, functions, a) && first <= a
    && (Ceiling(functions.Keys, first + 1).Some? ==> a < Ceiling(functions.Keys, first + 1).value)
    && (first in functions && functions[first].analyzed ==> a !in functions)
  }

  /** The words found so far: detected, in order, below `next`, and new if all functions are analysed. */
  ghost predicate FoundUpto(image: Image, functions: Functions, found: seq<int>, next: Option<int>) {
    && (forall a | a in found :: image.InCode(a) && Detected(image, functions, a) && (next.Some? ==> a < next.value))
    && (forall i, j | 0 <= i < j < |found| :: found[i] < found[j])
    && (AllAnalyzed(functions) ==> forall a | a in found :: a !in functions)
  }

  /** The functions below `next` end before the next one; if nothing was found, padding follows them. */
  ghost predicate GapsUpto(image: Image, functions: Functions, none: bool, next: Option<int>) {
    forall f | f in functions && (next.None? || f < next.value) ::
      EndsBeforeNext(functions, f) && (none ==> PaddedAfter(image, functions, f))
  }

  lemma FoundStep(image: Image, functions: Functions, found: seq<int>, first: int, word: Option<int>)
    requires FoundUpto(image, functions, found, Some(first)) && first in functions
    requires word.Some? ==> FoundAfter(image, functions, first, word.value)
    ensures FoundUpto(image, functions, found + if word.Some? then [word.value]
              else [], Ceiling(functions.Keys, first + 1))
  {
    var longer := found + if word.Some? then [word.value] else [];
    forall a | a in longer ensures a in found || word == Some(a) {}
    forall i, j | 0 <= i < j < |longer| ensures longer[i] < longer[j] {
      assert longer[i] in found;
    }
  }

  lemma GapsNone(image: Image, functions: Functions, next: Option<int>)
    requires Shaped(image, functions) && next == Ceiling(functions.Keys, image.lo)
    ensures GapsUpto(image, functions, true, next)
  {
  }

  lemma GapsStep(image: Image, functions: Functions, none: bool, first: int, word: Option<int>)
    requires GapsUpto(image, functions, none, Some(first)) && first in functions && EndsBeforeNext(functions, first)
    requires word.None? ==> PaddedAfter(image, functions, first)
    ensures GapsUpto(image, functions, none && word.None?, Ceiling(functions.Keys, first + 1))
  {
  }

  lemma GapStep(image: Image, functions: Functions, found: seq<int>, first: int, word: Option<int>)
    requires FoundUpto(image, functions, found, Some(first)) && GapsUpto(image, functions, found == [], Some(first))
    requires first in functions && EndsBeforeNext(functions, first)
    requires if word.Some? then FoundAfter(image, functions, first, word.value)
               else PaddedAfter(image, functions, first)
    ensures var longer, next := found + if word.Some? then [word.value] else [], Ceiling(functions.Keys, first + 1);
            FoundUpto(image, functions, longer, next) && GapsUpto(image, functions, longer == [], next)
  {
    FoundStep(image, functions, found, first, word);
    GapsStep(image, functions, found == [], first, word);
  }

  lemma GapsDone(image: Image, functions: Functions, none: bool)
    requires GapsUpto(image, functions, none, None)
    ensures NoOverlap(functions) && (none ==> GapsPadded(image, functions))
  {
    NoneOverlap(functions);
    if none {
      forall f, end | Gap(image, functions, f, end) ensures OnlyPadding(image, functions[f].end.value, end) {
        assert PaddedAfter(image, functions, f);
      }
    }
  }

  /** The functions referred to that may be functions have been added, not analysed; the others are as they were. */
  ghost predicate AddedTo(image: Image, before: Functions, after: Functions, references: seq<int>) {
    && (forall a :: a in after <==> a in before || (a in references && image.InCode(a) && image.SkipEnd(a).None?))
    && (forall a | a in after :: after[a] == if a in before then before[a] else Info(false, None, false))
  }

  /** The function at `a` has been set, after those it refers to were added. */
  ghost predicate SetAt(image: Image, before: Functions, after: Functions, a: int, references: seq<int>, info: Info) {
    exists added :: AddedTo(image, before, added, references) && after == added[a := info]
  }

  /** A function not yet analysed has been, as the analysis of these functions says. */
  ghost predicate Analyzes(image: Image, before: Functions, after: Functions, a: int) {
    && a in before && !before[a].analyzed
    && match image.process(a, before)
       case ProcessError => false
       case NotFunction => SetAt(image, before, after, a, [], Info(true, None, before[a].sliced))
       case Sliced(references, end) => SetAt(image, before, after, a, references, Info(true, end, true))
  }

  /** A function not yet final has become so, as the attempt says. */
  ghost predicate MakesFinal(image: Image, before: Functions, after: Functions, a: int, last: bool) {
    && a in before && before[a].Unfinalized()
    && var done := image.finalize(a, before, last);
       done.Done? && SetAt(image, before, after, a, done.references, Info(true, Some(done.end), true))
  }

  /** Functions that gaps begin with have been added. */
  ghost predicate AddsNew(image: Image, before: Functions, after: Functions) {
    && (forall a | a in before :: a in after && after[a] == before[a])
    && (forall a | a in after && a !in before :: IsNew(image, before, a) && after[a] == Info(false, None, false))
  }

  ghost predicate StepTo(image: Image, before: Functions, after: Functions) {
    || (exists a :: Analyzes(image, before, after, a))
    || (exists a, last :: MakesFinal(image, before, after, a, last))
    || AddsNew(image, before, after)
  }

  ghost predicate ReachedIn(image: Image, first: Functions, last: Functions, n: nat)
    decreases n
  {
    if n == 0 then last == first
    else exists mid :: ReachedIn(image, first, mid, n - 1) && StepTo(image, mid, last)
  }

  /** The functions come from the first ones by steps, each as the analyses say of the functions before it. */
  ghost predicate Reached(image: Image, first: Functions, last: Functions) {
    exists n: nat :: ReachedIn(image, first, last, n)
  }

  lemma ReachedSelf(image: Image, first: Functions)
    ensures Reached(image, first, first)
  {
    assert ReachedIn(image, first, first, 0);
  }

  lemma ReachedMore(image: Image, first: Functions, mid: Functions, last: Functions)
    requires Reached(image, first, mid) && StepTo(image, mid, last)
    ensures Reached(image, first, last)
  {
    var n: nat :| ReachedIn(image, first, mid, n);
    assert ReachedIn(image, first, last, n + 1);
  }

  lemma ReachedTwice(image: Image, first: Functions, mid: Functions, last: Functions)
    requires Reached(image, first, mid) && Reached(image, mid, last)
    ensures Reached(image, first, last)
  {
    var n: nat :| ReachedIn(image, mid, last, n);
    ReachedOn(image, first, mid, last, n);
  }

  lemma {:induction false} ReachedOn(image: Image, first: Functions, mid: Functions, last: Functions, n: nat)
    requires Reached(image, first, mid) && ReachedIn(image, mid, last, n)
    ensures Reached(image, first, last)
    decreases n
  {
    if n > 0 {
      var before :| ReachedIn(image, mid, before, n - 1) && StepTo(image, before, last);
      ReachedOn(image, first, mid, before, n - 1);
      ReachedMore(image, first, before, last);
    }
  }

  /** None of the functions not yet final can be made so. */
  ghost predicate NoneFinal(image: Image, functions: Functions, last: bool) {
    forall a | a in functions && functions[a].Unfinalized() :: image.finalize(a, functions, last).NotYet?
  }

  lemma SetAdvances(image: Image, before: Functions, added: Functions, a: int, references: seq<int>, info: Info)
    requires AddedTo(image, before, added, references) && (a in before || image.InCode(a))
    ensures SetAt(image, before, added[a := info], a, references, info)
    ensures Advanced(image, before, added[a := info], a)
  {
    forall f | f in before.Keys ensures f in added[a := info].Keys { assert f in added; }
  }

  class AnalyzerState {
    const image: Image
    var functions: Functions

    constructor (image: Image, functions: Functions)
      ensures this.image == image && this.functions == functions
    {
      this.image, this.functions := image, functions;
    }

    method TryAddFunction(a: int)
      modifies this
      ensures functions == if image.InCode(a) && image.SkipEnd(a).None? && a !in old(functions)
                           then old(functions)[a := Info(false, None, false)] else old(functions)
    {
      if !image.InCode(a) || image.SkipEnd(a).Some? {
        return;
      }
      if a !in functions {
        functions := functions[a := Info(false, None, false)];
      }
    }

    method TryAddAll(references: seq<int>)
      modifies this
      ensures AddedTo(image, old(functions), functions, references)
    {
      for i := 0 to |references|
        invariant AddedTo(image, old(functions), functions, references[..i])
      {
        TryAddFunction(references[i]);
      }
      assert references[..|references|] == references;
    }

    method SkipAlignment(start: int, end: int) returns (r: Option<int>)
      ensures r.Some? ==> image.FirstWord(start, end, r.value)
      ensures r.None? ==> OnlyPadding(image, start, end)
    {
      var a := start;
      while true
        invariant image.Padding(start, a) && start <= a
        decreases end - a
      {
        var skip := image.SkipEnd(a);
        ghost var from := a;
        if skip.Some? {
          a := skip.value;
        }
        if a + 4 > end {
          return None;
        }
        if !image.zero(a) {
          if image.SkipsApart() {
            image.SkipEndIs(from);
          }
          return Some(a);
        }
        image.PaddingMore(start, from);
        a := a + 4;
      }
    }

    /** The gaps after functions of known end, in address order: the first word of each that is not padding. */
    method FindGaps() returns (r: Result<seq<int>>)
      requires Shaped(image, functions)
      ensures r.Success? ==> NoOverlap(functions) && FoundUpto(image, functions, r.value, None)
      ensures r.Success? && r.value == [] ==> GapsPadded(image, functions)
      ensures r.Failure? ==> !NoOverlap(functions)
    {
      var found := [];
      var next := Ceiling(functions.Keys, image.lo);
      GapsNone(image, functions, next);
      while next.Some?
        invariant next.Some? ==> next.value in functions
        invariant FoundUpto(image, functions, found, next) && GapsUpto(image, functions, found == [], next)
        decreases if next.Some? then Greatest(functions.Keys) - next.value + 1 else 0
      {
        var gap := FindGap(next.value);
        if gap.Failure? {
          return Failure;
        }
        GapStep(image, functions, found, next.value, gap.value);
        found := found + if gap.value.Some? then [gap.value.value] else [];
        next := Ceiling(functions.Keys, next.value + 1);
      }
      r := Success(found);
      GapsDone(image, functions, found == []);
    }

    /** The first word of the gap after one function that is not padding; an error if it reaches past the next. */
    method FindGap(first: int) returns (r: Result<Option<int>>)
      requires Shaped(image, functions) && first in functions
      ensures r.Success? ==> EndsBeforeNext(functions, first)
      ensures r.Success? && r.value.Some? ==> FoundAfter(image, functions, first, r.value.value)
      ensures r.Success? && r.value.None? ==> PaddedAfter(image, functions, first)
      ensures r.Failure? ==> !NoOverlap(functions)
    {
      if functions[first].end.None? {
        return Success(None);
      }
      var second := Ceiling(functions.Keys, first + 1);
      var firstEnd, end := functions[first].end.value, if second.Some? then second.value else image.hi;
      if second.Some? && firstEnd > end {
        return Failure;
      }
      if second.None? && firstEnd >= image.hi {
        assert image.Padding(firstEnd, firstEnd);
        return Success(None);
      }
      var word := SkipAlignment(firstEnd, end);
      assert Gap(image, functions, first, end);
      r := Success(if word.Some? && word.value < end then word else None);
    }

    /** `detect_new_functions`: adds the functions the gaps begin with, none of which may be there already. */
    method DetectNewFunctions() returns (r: Result<bool>)
      requires Shaped(image, functions)
      modifies this
      ensures r.Success? ==> (forall a | a in old(functions) :: a in functions && functions[a] == old(functions)[a])
      ensures r.Success? ==> forall a | a in functions && a !in old(functions) ::
                IsNew(image, old(functions), a) && functions[a] == Info(false, None, false)
      ensures r.Success? ==> (r.value <==> functions != old(functions))
      ensures r.Success? && !r.value ==> NoOverlap(functions) && GapsPadded(image, functions)
      ensures r.Failure? && AllAnalyzed(old(functions)) ==> functions == old(functions) && !NoOverlap(functions)
    {
      var found := FindGaps();
      if found.Failure? {
        return Failure;
      }
      r := AddFound(found.value);
      if r.Failure? {
        return;
      }
      forall a | a in functions && a !in old(functions) ensures IsNew(image, old(functions), a) {
        AllOutside(image, old(functions), a);
      }
    }

    /** Adds what has been found, up to what is there already. */
    method AddFound(found: seq<int>) returns (r: Result<bool>)
      requires forall i, j | 0 <= i < j < |found| :: found[i] < found[j]
      modifies this`functions
      ensures r.Failure? ==> exists a :: a in found && a in old(functions)
      ensures r.Success? ==>
                && (forall a | a in old(functions) :: a in functions && functions[a] == old(functions)[a])
                && (forall a | a in functions && a !in old(functions) ::
                      a in found && functions[a] == Info(false, None, false))
                && (r.value <==> found != []) && (r.value <==> functions != old(functions))
    {
      for i := 0 to |found|
        invariant forall a | a in old(functions) :: a in functions && functions[a] == old(functions)[a]
        invariant forall a | a in functions && a !in old(functions) ::
                    a in found[..i] && functions[a] == Info(false, None, false)
        invariant if i == 0 then functions == old(functions)
                    else found[0] in functions && found[0] !in old(functions)
      {
        var a := found[i];
        if a in functions {
          assert a in found;
          functions := functions[a := Info(false, None, false)];
          return Failure;
        }
        functions := functions[a := Info(false, None, false)];
        assert found[..i + 1] == found[..i] + [a];
      }
      assert found[..|found|] == found;
      r := Success(|found| > 0);
    }

    /** `process_function_at`: the function is analysed, and those it refers to are added. */
    method ProcessFunctionAt(a: int) returns (ok: bool)
      requires image.InCode(a)
      modifies this
      ensures ok ==> a in functions && functions[a].analyzed && Advanced(image, old(functions), functions, a)
      ensures ok && Sane(image) && Shaped(image, old(functions)) ==> Shaped(image, functions)
      ensures ok ==> match image.process(a, old(functions))
                     case Sliced(references, end) => SetAt(image, old(functions), functions, a, references,
                                                           Info(true, end, true))
                     case _ => SetAt(image, old(functions), functions, a, [],
                                     Info(true, None, a in old(functions) && old(functions)[a].sliced))
      ensures ok <==> !image.process(a, old(functions)).ProcessError?
      ensures !ok ==> functions == old(functions)
    {
      match image.process(a, functions)
      case ProcessError =>
        ok := false;
      case NotFunction =>
        SetAdvances(image, functions, functions, a, [], Info(true, None, a in functions && functions[a].sliced));
        functions := functions[a := Info(true, None, a in functions && functions[a].sliced)];
        ok := true;
      case Sliced(references, end) =>
        TryAddAll(references);
        SetAdvances(image, old(functions), functions, a, references, Info(true, end, true));
        functions := functions[a := Info(true, end, true)];
        ok := true;
    }

    /** One turn of `finalize_functions` for one function. */
    method FinalizeOne(a: int, last: bool) returns (r: Result<bool>)
      requires a in functions && functions[a].Unfinalized()
      modifies this
      ensures r.Success? ==> Advanced(image, old(functions), functions, a) && a in functions
      ensures r.Success? ==>
                if r.value then functions[a].analyzed && functions[a].end.Some? else functions == old(functions)
      ensures r.Success? && !r.value ==> image.finalize(a, functions, last).NotYet?
      ensures r.Success? && r.value ==>
                var done := image.finalize(a, old(functions), last);
                done.Done? && SetAt(image, old(functions), functions, a, done.references,
                                    Info(true, Some(done.end), true))
      ensures r.Success? && Sane(image) && Shaped(image, old(functions)) ==> Shaped(image, functions)
      ensures r.Failure? ==> functions == old(functions) && image.finalize(a, functions, last).FinalizeError?
    {
      match image.finalize(a, functions, last)
      case FinalizeError =>
        r := Failure;
      case NotYet =>
        r := Success(false);
      case Done(references, end) =>
        TryAddAll(references);
        SetAdvances(image, old(functions), functions, a, references, Info(true, Some(end), true));
        functions := functions[a := Info(true, Some(end), true)];
        r := Success(true);
    }

    /** `finalize_functions`: tries every function that was not final at the start. */
    method FinalizeFunctions(last: bool) returns (r: Result<bool>)
      requires Sane(image) && Shaped(image, functions)
      modifies this
      ensures r.Success? ==> Shaped(image, functions)
      ensures r.Success? && !r.value ==> functions == old(functions) && NoneFinal(image, functions, last)
      ensures r.Success? && r.value ==> Smaller(image, functions, old(functions))
      ensures old(functions).Keys <= functions.Keys && Reached(image, old(functions), functions)
      ensures r.Failure? ==> Faulted(image, functions)
    {
      var todo := Unfinalized(functions);
      r := Success(false);
      ReachedSelf(image, functions);
      while todo != {}
        invariant Shaped(image, functions) && r.Success?
        invariant old(functions).Keys <= functions.Keys
        invariant todo <= functions.Keys && forall a | a in todo :: functions[a].Unfinalized()
        invariant if r.value then Smaller(image, functions, old(functions)) else functions == old(functions)
        invariant Reached(image, old(functions), functions)
        invariant !r.value ==>
                    forall a | a in Unfinalized(functions) && a !in todo :: image.finalize(a, functions, last).NotYet?
        decreases |todo|
      {
        var a := Least(todo);
        todo := todo - {a};
        ghost var before := functions;
        var done := FinalizeOne(a, last);
        if done.Failure? {
          return Failure;
        }
        if done.value {
          Finalizes(image, before, functions, a);
          assert MakesFinal(image, before, functions, a, last);
          ReachedMore(image, old(functions), before, functions);
          r := Success(true);
        }
      }
    }

    /** `process_functions`: until nothing is left to analyse, to finalize or to detect. */
    method ProcessFunctions() returns (ok: bool)
      requires Sane(image) && Shaped(image, functions)
      modifies this
      ensures ok ==> Shaped(image, functions) && Settled(image, functions)
      ensures ok ==> functions == old(functions) || Smaller(image, functions, old(functions))
      ensures old(functions).Keys <= functions.Keys && Reached(image, old(functions), functions)
      ensures !ok ==> Faulted(image, functions) || !NoOverlap(functions)
    {
      ok := true;
      var going := true;
      ReachedSelf(image, functions);
      while going
        invariant ok && Shaped(image, functions)
        invariant functions == old(functions) || Smaller(image, functions, old(functions))
        invariant old(functions).Keys <= functions.Keys && Reached(image, old(functions), functions)
        invariant !going ==> Settled(image, functions)
        decreases Left(image, functions.Keys), |Unanalyzed(functions)|, |Unfinalized(functions)|, going
      {
        ghost var before := functions;
        ok, going := ProcessNext();
        ReachedTwice(image, old(functions), before, functions);
        if !ok {
          return;
        }
      }
    }

    /** One turn: analyses the first function that is not, or else finalizes or detects some. */
    method ProcessNext() returns (ok: bool, going: bool)
      requires Sane(image) && Shaped(image, functions)
      modifies this
      ensures ok ==> Shaped(image, functions)
      ensures ok && going ==> Smaller(image, functions, old(functions))
      ensures ok && !going ==> functions == old(functions) && Settled(image, functions)
      ensures old(functions).Keys <= functions.Keys && Reached(image, old(functions), functions)
      ensures !ok ==> Faulted(image, functions) || !NoOverlap(functions)
    {
      going := true;
      ReachedSelf(image, functions);
      var unanalyzed := Unanalyzed(functions);
      if unanalyzed != {} {
        var a := Least(unanalyzed);
        ok := ProcessFunctionAt(a);
        if ok {
          Processes(image, old(functions), functions, a);
          assert Analyzes(image, old(functions), functions, a);
          ReachedMore(image, old(functions), old(functions), functions);
        }
      } else {
        assert forall a | a in functions && !functions[a].analyzed :: a in unanalyzed;
        var finalized := FinalizeFunctions(false);
        if finalized.Failure? {
          return false, false;
        }
        ok := true;
        if !finalized.value {
          var detected := DetectNewFunctions();
          if detected.Failure? {
            return false, false;
          }
          going := detected.value;
          if going {
            Detects(image, old(functions), functions);
            assert AddsNew(image, old(functions), functions);
            ReachedMore(image, old(functions), old(functions), functions);
          }
        }
      }
    }

    /** The passes of `detect_functions` after the known functions: they end, all functions analysed and decided. */
    method FinishFunctions() returns (ok: bool)
      requires Sane(image) && Shaped(image, functions)
      modifies this
      ensures ok ==> Settled(image, functions) && Unfinalized(functions) == {}
      ensures old(functions).Keys <= functions.Keys && Reached(image, old(functions), functions)
      ensures !ok ==> Faulted(image, functions) || !NoOverlap(functions) || Unfinalized(functions) != {}
    {
      ok := true;
      var going := true;
      ReachedSelf(image, functions);
      while going
        invariant ok && Shaped(image, functions)
        invariant old(functions).Keys <= functions.Keys && Reached(image, old(functions), functions)
        invariant !going ==> Settled(image, functions)
        decreases Left(image, functions.Keys), |Unanalyzed(functions)|, |Unfinalized(functions)|, going
      {
        ghost var before := functions;
        ok, going := FinishNext();
        ReachedTwice(image, old(functions), before, functions);
        if !ok {
          return;
        }
      }
      ok := Unfinalized(functions) == {};
    }

    /** One turn: all functions are analysed, and then a last attempt is made at those not final. */
    method FinishNext() returns (ok: bool, going: bool)
      requires Sane(image) && Shaped(image, functions)
      modifies this
      ensures ok ==> Shaped(image, functions)
      ensures ok ==> functions == old(functions) || Smaller(image, functions, old(functions))
      ensures ok && going ==> Smaller(image, functions, old(functions))
      ensures ok && !going ==> Settled(image, functions)
      ensures old(functions).Keys <= functions.Keys && Reached(image, old(functions), functions)
      ensures !ok ==> Faulted(image, functions) || !NoOverlap(functions)
    {
      going := false;
      ok := ProcessFunctions();
      if !ok {
        return;
      }
      ghost var between := functions;
      var again := FinalizeFunctions(true);
      ReachedTwice(image, old(functions), between, functions);
      if again.Failure? {
        return false, false;
      }
      going := again.value;
      if going && between != old(functions) {
        SmallerTwice(image, functions, between, old(functions));
      }
    }
  }

  /** A function detected: not known before, outside every function of known end, the first word of its gap. */
  ghost predicate IsNew(image: Image, functions: Functions, a: int) {
    && a !in functions && image.InCode(a) && Detected(image, functions, a)
    && forall f | f in functions && functions[f].end.Some? :: !(f <= a < functions[f].end.value)
  }

  /** Functions have only been added, unanalysed and in the section, and only the one at `at` has changed. */
  ghost predicate Advanced(image: Image, before: Functions, after: Functions, at: int) {
    && before.Keys <= after.Keys
    && (forall a | a in before && a != at :: after[a] == before[a])
    && (forall a | a in after && a !in before :: image.InCode(a) && (a != at ==> after[a] == Info(false, None, false)))
  }

  /** An end that an analysis finds is above the start. */
  ghost predicate Sane(image: Image) {
    && (forall a, functions :: var r := image.process(a, functions); r.Sliced? && r.end.Some? ==> a < r.end.value)
    && (forall a, functions, last :: var r := image.finalize(a, functions, last); r.Done? ==> a < r.end)
  }

  function Unanalyzed(functions: Functions): set<int> {
    set a | a in functions && !functions[a].analyzed
  }

  function Unfinalized(functions: Functions): set<int> {
    set a | a in functions && functions[a].Unfinalized()
  }

  /** The addresses of the section that are no function yet. */
  ghost function Left(image: Image, keys: set<int>): nat {
    Executors.Remaining(image.lo, image.hi, keys)
  }

  /** Fewer addresses left; or as many, and fewer functions not analysed; or as many, and fewer not final. */
  ghost predicate Smaller(image: Image, after: Functions, before: Functions) {
    var a, b := Left(image, after.Keys), Left(image, before.Keys);
    || a < b
    || (a == b && |Unanalyzed(after)| < |Unanalyzed(before)|)
    || (a == b && |Unanalyzed(after)| == |Unanalyzed(before)| && |Unfinalized(after)| < |Unfinalized(before)|)
  }

  lemma SmallerTwice(image: Image, after: Functions, between: Functions, before: Functions)
    requires Smaller(image, after, between) && Smaller(image, between, before)
    ensures Smaller(image, after, before)
  {
  }

  /** A new function in the section leaves fewer addresses. */
  lemma NewIsFewer(image: Image, before: Functions, after: Functions)
    requires before.Keys <= after.Keys && forall a | a in after && a !in before :: image.InCode(a)
    ensures after.Keys == before.Keys || Left(image, after.Keys) < Left(image, before.Keys)
  {
    Executors.RemainingShrinks(image.lo, image.hi, before.Keys, after.Keys);
    var more := after.Keys - before.Keys;
    SomeMember(more);
    if more == {} {
      assert after.Keys == before.Keys + more;
    }
  }

  lemma FewerMembers(smaller: set<int>, larger: set<int>, a: int)
    requires smaller <= larger && a in larger && a !in smaller
    ensures |smaller| < |larger|
  {
    var rest := larger - {a};
    assert smaller <= rest;
    assert rest == smaller + (rest - smaller);
  }

  lemma Processes(image: Image, before: Functions, after: Functions, a: int)
    requires a in before && !before[a].analyzed && a in after && after[a].analyzed && Advanced(image, before, after, a)
    ensures Smaller(image, after, before)
  {
    NewIsFewer(image, before, after);
    if after.Keys == before.Keys {
      forall b | b in Unanalyzed(after) ensures b in Unanalyzed(before) { assert b in before.Keys; }
      FewerMembers(Unanalyzed(after), Unanalyzed(before), a);
    }
  }

  lemma Finalizes(image: Image, before: Functions, after: Functions, a: int)
    requires a in before && before[a].Unfinalized() && a in after && after[a].analyzed && after[a].end.Some?
    requires Advanced(image, before, after, a)
    ensures Smaller(image, after, before)
  {
    NewIsFewer(image, before, after);
    if after.Keys == before.Keys {
      forall b ensures b in Unanalyzed(after) <==>
          b in Unanalyzed(before) { assert b in after.Keys <==> b in before.Keys; }
      assert Unanalyzed(after) == Unanalyzed(before);
      forall b | b in Unfinalized(after) ensures b in Unfinalized(before) { assert b in before.Keys; }
      FewerMembers(Unfinalized(after), Unfinalized(before), a);
    }
  }

  lemma SameKeysSame(before: Functions, after: Functions)
    requires forall a | a in before :: a in after && after[a] == before[a]
    ensures after.Keys == before.Keys ==> after == before
  {
    if after.Keys == before.Keys {
      forall a | a in after ensures a in before && after[a] == before[a] { assert a in after.Keys; }
    }
  }

  lemma Detects(image: Image, before: Functions, after: Functions)
    requires after != before && (forall a | a in before :: a in after && after[a] == before[a])
    requires forall a | a in after && a !in before :: IsNew(image, before, a) && after[a] == Info(false, None, false)
    ensures Smaller(image, after, before)
    ensures Shaped(image, before) ==> Shaped(image, after)
  {
    forall a | a in before.Keys ensures a in after.Keys { assert a in before; }
    NewIsFewer(image, before, after);
    SameKeysSame(before, after);
  }
}
