/**
 * Spans kept by their starts, asked for an address by its predecessor alone: `is_within_decoded_span` of
 * src/analysis/x86.rs, `in_skipped_range` of src/analysis/cfa.rs, and under them `AddressRanges::contains`.
 */
module Spans {
  import opened Wrappers
  import opened OrderedKeys

  /** The span with the greatest start at or below the address holds it. */
  predicate WithinSpan(spans: map<int, int>, a: int) {
    match Floor(spans.Keys, a)
    case Some(start) => a < spans[start]
    case None => false
  }

  /** Some span holds the address. */
  ghost predicate InUnion(spans: map<int, int>, a: int) {
    exists start :: start in spans && start <= a < spans[start]
  }

  function Top(spans: map<int, int>, start: int): int
    requires start in spans
  {
    if spans[start] < start then start else spans[start]
  }

  /** The earlier span reaches past the end of the later one, at an address where no other has started. */
  ghost predicate Overhangs(spans: map<int, int>, s: int, t: int) {
    && s in spans && t in spans && s < t && Top(spans, t) < spans[s]
    && var next := Ceiling(spans.Keys, t + 1); next.Some? ==> Top(spans, t) < next.value
  }

  /** No earlier span reaches past the end of a later one before the next span starts. */
  ghost predicate Staircase(spans: map<int, int>) {
    forall s, t | s in spans && t in spans :: !Overhangs(spans, s, t)
  }

  ghost predicate Apart(spans: map<int, int>) {
    forall s, t | s in spans && t in spans && s < t :: spans[s] <= t
  }

  /** The predecessor decides membership in the union for every address exactly when the spans are such a staircase. */
  lemma PredecessorDecides(spans: map<int, int>)
    ensures (forall a :: WithinSpan(spans, a) <==> InUnion(spans, a)) <==> Staircase(spans)
  {
    if Staircase(spans) {
      forall a ensures WithinSpan(spans, a) <==> InUnion(spans, a) {
        Decides(spans, a);
      }
    } else {
      var s, t :| s in spans && t in spans && Overhangs(spans, s, t);
      Misses(spans, s, t);
    }
  }

  lemma Decides(spans: map<int, int>, a: int)
    requires Staircase(spans)
    ensures WithinSpan(spans, a) <==> InUnion(spans, a)
  {
    if s :| s in spans && s <= a < spans[s] {
      var t := Floor(spans.Keys, a).value;
      assert !Overhangs(spans, s, t);
    }
  }

  /** In the gap after the later span the predecessor says no, though the earlier span holds the address. */
  lemma Misses(spans: map<int, int>, s: int, t: int)
    requires Overhangs(spans, s, t)
    ensures InUnion(spans, Top(spans, t)) && !WithinSpan(spans, Top(spans, t))
  {
    var a := Top(spans, t);
    assert s in spans && s <= a < spans[s];
    assert Floor(spans.Keys, a) == Some(t);
  }

  /** Address 8 is in the earlier span, which reaches past the later one; the predecessor says no. */
  lemma OverhangFails()
    ensures var spans := map[0 := 10, 4 := 6]; InUnion(spans, 8) && !WithinSpan(spans, 8)
  {
    var spans := map[0 := 10, 4 := 6];
    assert 0 in spans && 4 in spans.Keys;
    assert forall k | k in spans.Keys :: k == 0 || k == 4;
    assert Floor(spans.Keys, 8) == Some(4);
  }

  /** Disjoint spans are a staircase. */
  lemma ApartDecides(spans: map<int, int>)
    requires Apart(spans)
    ensures Staircase(spans)
  {
  }
}
