/**
 * What a successful analysis of src/analysis/slices.rs means: which addresses it takes for its own, what becomes of
 * every successor, and where its references come from.
 */
module SliceMeaning {
  import opened Wrappers
  import opened Executors
  import opened BlockMap
  import opened SliceReplay

  lemma {:induction false} ExploredAt(code: Code, scope: Scope, entry: int, roots: set<int>, trace: seq<int>, i: nat)
    requires Explored(code, scope, entry, roots, trace) && i < |trace|
    ensures var before := Replay(code, scope, entry, trace[..i]);
            && MayRun(code, scope, entry, roots, trace[..i], trace[i])
            && !Ends(code, scope, before.found, trace[i])
            && !Errs(code, scope, before.found, StartAt(before, trace[i]), trace[i])
            && Replay(code, scope, entry, trace[..i + 1]) == Ran(code, scope, before, trace[i])
  {
    var n := |trace| - 1;
    if i < n {
      ExploredAt(code, scope, entry, roots, trace[..n], i);
      assert trace[..n][..i] == trace[..i] && trace[..n][..i + 1] == trace[..i + 1];
    } else {
      assert trace[..i + 1] == trace;
    }
  }

  /** No address is executed twice. */
  lemma ExecutedOnce(code: Code, scope: Scope, entry: int, roots: set<int>, trace: seq<int>, i: nat, j: nat)
    requires Explored(code, scope, entry, roots, trace) && i < j < |trace|
    ensures trace[i] != trace[j]
  {
    ExploredAt(code, scope, entry, roots, trace, j);
    AddressesAre(trace[..j], trace[i]);
    assert trace[..j][i] == trace[i];
  }

  /** Nothing found is lost, but for the successors of the address `a`. */
  ghost predicate Kept(found: Found, found': Found, a: int) {
    && found.blocks.Keys <= found'.blocks.Keys && found.references <= found'.references
    && found.possible <= found'.possible
    && forall b | b != a ::
         (b in found.branches <==> b in found'.branches)
         && (b in found.branches ==> found'.branches[b] == found.branches[b])
  }

  lemma StepKept(code: Code, scope: Scope, found: Found, start: int, a: int)
    ensures Kept(found, AfterStep(code, scope, found, start, a), a)
  {
    StepKeys(code, scope, found, start, a);
    var closed := Closed(found, start, a);
    match code.step(a)
    case JumpTable(table, Some(entries), size) => StartsKeys(closed.(tables := found.tables[table := size]), entries);
    case Branch(edges) => EdgesKeys(scope, closed, edges);
    case _ =>
  }

  /** What an instruction added is still there in the end, and its successors too. */
  lemma {:induction false} KeptToEnd(code: Code, scope: Scope, entry: int, roots: set<int>, trace: seq<int>, i: nat)
    requires Explored(code, scope, entry, roots, trace) && i < |trace|
    ensures var now, last := Replay(code, scope, entry, trace[..i + 1]).found, Replay(code, scope, entry, trace).found;
            && now.blocks.Keys <= last.blocks.Keys && now.references <= last.references && now.possible <= last.possible
            && (trace[i] in now.branches <==> trace[i] in last.branches)
            && (trace[i] in now.branches ==> last.branches[trace[i]] == now.branches[trace[i]])
    decreases |trace|
  {
    var n := |trace| - 1;
    if i < n {
      var before := Replay(code, scope, entry, trace[..n]);
      KeptToEnd(code, scope, entry, roots, trace[..n], i);
      assert trace[..n][..i + 1] == trace[..i + 1];
      ExecutedOnce(code, scope, entry, roots, trace, i, n);
      StepKept(code, scope, before.found, StartAt(before, trace[n]), trace[n]);
    } else {
      assert trace[..i + 1] == trace;
    }
  }

  /** A branch list begins with the instruction that has it: none is there before it runs. */
  lemma {:induction false} NoneYet(code: Code, scope: Scope, entry: int, roots: set<int>, trace: seq<int>, a: int)
    requires Explored(code, scope, entry, roots, trace) && a !in Addresses(trace)
    ensures a !in Replay(code, scope, entry, trace).found.branches
  {
    if trace != [] {
      var n := |trace| - 1;
      var before := Replay(code, scope, entry, trace[..n]);
      NoneYet(code, scope, entry, roots, trace[..n], a);
      StepKept(code, scope, before.found, StartAt(before, trace[n]), trace[n]);
    }
  }

  /** The address is the start of another function, or lies in one. */
  ghost predicate LiesElsewhere(scope: Scope, a: int) {
    a != scope.start && exists f :: LiesIn(scope, a, f) && f != scope.start
  }

  /** It has been referenced, or the other function that it lies in has been. */
  ghost predicate Referred(scope: Scope, references: set<int>, a: int) {
    || (a in references && a != scope.start)
    || exists f :: f in references && f != scope.start && LiesIn(scope, a, f)
  }

  lemma ElsewhereIsForeign(scope: Scope, references: set<int>, a: int)
    ensures LiesElsewhere(scope, a) ==> IsForeign(scope, references, a)
    ensures IsForeign(scope, references, a) ==>
              Referred(scope, references + {ForeignAt(scope, references, a)}, a)
              && (ForeignAt(scope, references, a) in references || LiesIn(scope, a, ForeignAt(scope, references, a)))
  {
    if LiesElsewhere(scope, a) {
      var f :| LiesIn(scope, a, f) && f != scope.start;
      assert Foreign(scope, references, a, if a in references then a else f);
    }
  }

  lemma ReferredMore(scope: Scope, references: set<int>, references': set<int>, a: int)
    requires Referred(scope, references, a) && references <= references'
    ensures Referred(scope, references', a)
  {
  }

  /** Every address executed is this function's own: it lies in no other known function, unless it is the start. */
  lemma StaysHome(code: Code, scope: Scope, entry: int, roots: set<int>, trace: seq<int>, i: nat)
    requires Explored(code, scope, entry, roots, trace) && i < |trace|
    ensures !LiesElsewhere(scope, trace[i])
  {
    ExploredAt(code, scope, entry, roots, trace, i);
    ElsewhereIsForeign(scope, Replay(code, scope, entry, trace[..i]).found.references, trace[i]);
  }

  /** Every block start has been executed. */
  lemma StartsExecuted(code: Code, scope: Scope, start: int, roots: set<int>, trace: seq<int>, found: Found, k: int)
    requires Analyzed(code, scope, start, roots, trace, found) && k in found.blocks
    ensures start in trace && k in trace && !LiesElsewhere(scope, k)
  {
    StartCovered(found.blocks, k);
    StartCovered(found.blocks, start);
    var i :| 0 <= i < |trace| && trace[i] == k;
    StaysHome(code, scope, start, roots, trace, i);
  }

  lemma StartCovered(b: Blocks, k: int)
    requires k in b && AllClosed(b) && Separate(b)
    ensures Covered(b, k)
  {
    assert Covers(b, k, k);
  }

  /** What one edge of a branch comes to once all have been looked at. */
  lemma {:induction false} EdgeMeans(scope: Scope, found: Found, edges: seq<Edge>, j: nat)
    requires j < |edges| && edges[j].target.Known?
    ensures var after, t := AfterEdges(scope, found, edges), edges[j].target.addr;
            && (LiesElsewhere(scope, t) ==> Referred(scope, after.references, t))
            && (Referred(scope, after.references, t)
                || if edges[j].link
                   then (if edges[j].enclosing.Some? then edges[j].enclosing.value else t) in after.references
                   else t in Successors(scope, found, edges) && t in after.blocks)
  {
    var n := |edges| - 1;
    var before, after := AfterEdges(scope, found, edges[..n]), AfterEdges(scope, found, edges);
    EdgesKeys(scope, found, edges);
    EdgeKept(scope, before, edges[n]);
    if j < n {
      EdgeMeans(scope, found, edges[..n], j);
      if Referred(scope, before.references, edges[j].target.addr) {
        ReferredMore(scope, before.references, after.references, edges[j].target.addr);
      }
    } else {
      ElsewhereIsForeign(scope, before.references, edges[n].target.addr);
    }
  }

  lemma EdgeKept(scope: Scope, found: Found, edge: Edge)
    ensures found.references <= AfterEdge(scope, found, edge).references
            && found.blocks.Keys <= AfterEdge(scope, found, edge).blocks.Keys
  {
    if edge.target.Known? {
      AddStartKeys(found.blocks, edge.target.addr);
    }
  }

  /** What became of the instruction at `a`, from all that has been found in the end. */
  ghost predicate Accounted(code: Code, scope: Scope, found: Found, seen: set<int>, a: int) {
    match code.step(a)
    case Fall => a + 1 in seen
    case Illegal(_) => false
    case JumpUnknown(unrecovered) => unrecovered ==> HasSuccessors(found, a, [a + 1])
    case JumpReturn => a !in found.branches
    case JumpTo(t) =>
      && HasSuccessors(found, a, [t])
      && (t == a || t in found.blocks || Refers(scope, found, t) || t in found.possible || t in seen)
      && (t >= scope.start && (t < a || (scope.end.Some? && t < scope.end.value)) ==> t == a || t in found.blocks)
      && (!(code.lo <= t < code.hi) || code.zeroWord(a) || LiesElsewhere(scope, t) ==>
            t == a || t in found.blocks || Refers(scope, found, t))
    case JumpTable(table, entries, size) =>
      && entries.Some?
      && if a in found.branches then
           && found.branches[a] == entries.value && table in found.tables
           && (forall e | e in entries.value :: e in found.blocks && !LiesElsewhere(scope, e))
           && exists e :: e in entries.value && scope.start < e && Within(found, a, e)
         else
           && (forall e | e in entries.value :: e in found.possible || e in seen)
           && ((forall e | e in entries.value && scope.start < e :: a + 1 < e)
               || exists e :: e in entries.value && Referable(scope, found.references, e))
    case Branch(edges) =>
      && (forall edge | edge in edges :: !edge.target.Table? && EdgeAccounted(scope, found, a, edge))
      && (a in found.branches ==> forall t | t in found.branches[a] :: t in found.blocks && exists edge ::
           edge in edges && edge.target == Known(t) && !edge.link)
  }

  /** The address or the other function that it lies in has been referenced. */
  ghost predicate Refers(scope: Scope, found: Found, a: int) {
    a in found.references || Referred(scope, found.references, a)
  }

  ghost predicate HasSuccessors(found: Found, a: int, successors: seq<int>) {
    a in found.branches && found.branches[a] == successors
  }

  /** The address may have been taken for another function's. */
  ghost predicate Referable(scope: Scope, references: set<int>, a: int) {
    a in references || exists f :: LiesIn(scope, a, f) && f != scope.start
  }

  /** A branch edge into another function refers to it; other calls refer to the callee, and the rest are successors. */
  ghost predicate EdgeAccounted(scope: Scope, found: Found, a: int, edge: Edge) {
    edge.target.Known? ==>
      var t := edge.target.addr;
      && (LiesElsewhere(scope, t) ==> Referred(scope, found.references, t) && t !in found.blocks)
      && (Referred(scope, found.references, t)
          || if edge.link then (if edge.enclosing.Some? then edge.enclosing.value else t) in found.references
             else a in found.branches && t in found.branches[a] && t in found.blocks)
  }

  /** What an instruction added is part of what has been found in the end, where only executed code starts blocks. */
  ghost predicate Included(scope: Scope, after: Found, found: Found, seen: set<int>, a: int) {
    && after.blocks.Keys <= found.blocks.Keys && after.references <= found.references
    && after.possible - seen <= found.possible && after.tables.Keys <= found.tables.Keys
    && (a in after.branches <==> a in found.branches)
    && (a in after.branches ==> found.branches[a] == after.branches[a])
    && forall k | k in found.blocks :: k in seen && !LiesElsewhere(scope, k)
  }

  lemma JumpAccounted(code: Code, scope: Scope, m: Found, start: int, a: int, found: Found, seen: set<int>)
    requires code.step(a).JumpTo? && !Errs(code, scope, m, start, a) && !IsForeign(scope, m.references, a)
    requires Included(scope, AfterStep(code, scope, m, start, a), found, seen, a)
    ensures Accounted(code, scope, found, seen, a)
  {
    var t, closed := code.step(a).addr, Closed(m, start, a);
    var after := AfterStep(code, scope, m, start, a);
    assert HasSuccessors(after, a, [t]);
    if t != a {
      if Inside(scope, closed.blocks, a, t) {
        AddStartKeys(closed.blocks, t);
        assert t in found.blocks;
      } else {
        ElsewhereIsForeign(scope, m.references, t);
        if IsForeign(scope, m.references, t) {
          ReferredMore(scope, m.references + {ForeignAt(scope, m.references, t)}, found.references, t);
        } else if !(code.lo <= t < code.hi) || code.zeroWord(a) {
          assert t in after.references;
        } else {
          assert t in after.possible;
        }
      }
    }
  }

  lemma TableAccounted(code: Code, scope: Scope, m: Found, start: int, a: int, found: Found, seen: set<int>)
    requires code.step(a).JumpTable? && code.step(a).entries.Some? && a !in m.branches
    requires Included(scope, AfterStep(code, scope, m, start, a), found, seen, a)
    requires m.blocks.Keys <= found.blocks.Keys && m.references <= found.references
    ensures Accounted(code, scope, found, seen, a)
  {
    var entries, closed := code.step(a).entries.value, Closed(m, start, a);
    var after := AfterStep(code, scope, m, start, a);
    if TakesTable(scope, closed, a, entries) {
      var with := closed.(tables := m.tables[code.step(a).table := code.step(a).size]);
      StartsKeys(with, entries);
      assert after == WithSuccessors(WithStarts(with, entries), a, entries);
      assert a in found.branches && found.branches[a] == entries;
      var e :| e in entries && scope.start < e && Within(closed, a, e);
      assert closed.blocks.Keys <= found.blocks.Keys;
    } else {
      forall e | e in entries ensures e in found.possible || e in seen {
        assert e in after.possible;
      }
      TableRefused(scope, closed, a, entries, found);
    }
  }

  /** A table that is not taken has no entry so far, or one of another function. */
  lemma TableRefused(scope: Scope, closed: Found, a: int, entries: seq<int>, found: Found)
    requires !TakesTable(scope, closed, a, entries) && closed.references <= found.references
    ensures (forall e | e in entries && scope.start < e :: a + 1 < e)
            || exists e :: e in entries && Referable(scope, found.references, e)
  {
    if e :| e in entries && scope.start < e && e <= a + 1 {
      assert Within(closed, a, e);
      var other :| other in entries && IsForeign(scope, closed.references, other);
      ElsewhereIsForeign(scope, closed.references, other);
      assert Referable(scope, found.references, other);
    }
  }

  lemma BranchAccounted(code: Code, scope: Scope, m: Found, start: int, a: int, found: Found, seen: set<int>)
    requires code.step(a).Branch? && !Errs(code, scope, m, start, a) && !IsForeign(scope, m.references, a)
    requires a !in m.branches && Included(scope, AfterStep(code, scope, m, start, a), found, seen, a)
    ensures Accounted(code, scope, found, seen, a)
  {
    var edges, closed := code.step(a).edges, Closed(m, start, a);
    EdgesKeys(scope, closed, edges);
    var out := Successors(scope, closed, edges);
    forall edge | edge in edges ensures !edge.target.Table? && EdgeAccounted(scope, found, a, edge) {
      if edge.target.Known? {
        var j :| 0 <= j < |edges| && edges[j] == edge;
        EdgeMeans(scope, closed, edges, j);
        var after := AfterEdges(scope, closed, edges);
        if Referred(scope, after.references, edge.target.addr) {
          ReferredMore(scope, after.references, found.references, edge.target.addr);
        }
      }
    }
    forall t | t in out ensures exists edge :: edge in edges && edge.target == Known(t) && !edge.link {
      SuccessorOfEdge(scope, closed, edges, t);
    }
  }

  lemma {:induction false} SuccessorOfEdge(scope: Scope, found: Found, edges: seq<Edge>, t: int)
    requires t in Successors(scope, found, edges)
    ensures exists edge :: edge in edges && edge.target == Known(t) && !edge.link
  {
    var n := |edges| - 1;
    if t in Successors(scope, found, edges[..n]) {
      SuccessorOfEdge(scope, found, edges[..n], t);
      var edge :| edge in edges[..n] && edge.target == Known(t) && !edge.link;
      assert edge in edges;
    } else {
      assert edges[n] in edges;
    }
  }

  /** Every instruction executed is accounted for by what has been found in the end. */
  lemma AllAccounted(code: Code, scope: Scope, start: int, roots: set<int>, trace: seq<int>, found: Found, i: nat)
    requires NoIllegalStep(code) && Analyzed(code, scope, start, roots, trace, found) && i < |trace|
    ensures Accounted(code, scope, found, Addresses(trace), trace[i])
  {
    var a, before := trace[i], Replay(code, scope, start, trace[..i]);
    var at := StartAt(before, a);
    ExploredAt(code, scope, start, roots, trace, i);
    StepIncluded(code, scope, start, roots, trace, found, i);
    match code.step(a)
    case Fall => FallAccounted(code, scope, start, roots, trace, found, i);
    case JumpTo(_) => JumpAccounted(code, scope, before.found, at, a, found, Addresses(trace));
    case JumpTable(_, _, _) => TableAccounted(code, scope, before.found, at, a, found, Addresses(trace));
    case Branch(_) => BranchAccounted(code, scope, before.found, at, a, found, Addresses(trace));
    case _ =>
  }

  lemma StepIncluded(code: Code, scope: Scope, start: int, roots: set<int>, trace: seq<int>, found: Found, i: nat)
    requires Analyzed(code, scope, start, roots, trace, found) && i < |trace|
    ensures var a, before := trace[i], Replay(code, scope, start, trace[..i]);
            && a !in before.found.branches && before.found.blocks.Keys <= found.blocks.Keys
            && before.found.references <= found.references
            && Included(scope, AfterStep(code, scope, before.found, StartAt(before, a), a), found, Addresses(trace), a)
  {
    var a, before := trace[i], Replay(code, scope, start, trace[..i]);
    ExploredAt(code, scope, start, roots, trace, i);
    ExploredFront(code, scope, start, roots, trace, i);
    NoneYet(code, scope, start, roots, trace[..i], a);
    StepKept(code, scope, before.found, StartAt(before, a), a);
    KeptToEnd(code, scope, start, roots, trace, i);
    TablesToEnd(code, scope, start, roots, trace, i);
    forall k | k in found.blocks ensures k in Addresses(trace) && !LiesElsewhere(scope, k) {
      StartsExecuted(code, scope, start, roots, trace, found, k);
      AddressesAre(trace, k);
    }
  }

  lemma {:induction false} ExploredFront(code: Code, scope: Scope, entry: int, roots: set<int>, trace: seq<int>, i: nat)
    requires Explored(code, scope, entry, roots, trace) && i <= |trace|
    ensures Explored(code, scope, entry, roots, trace[..i])
  {
    if i < |trace| {
      ExploredFront(code, scope, entry, roots, trace[..|trace| - 1], i);
      assert trace[..|trace| - 1][..i] == trace[..i];
    } else {
      assert trace[..i] == trace;
    }
  }

  lemma {:induction false} TablesToEnd(code: Code, scope: Scope, entry: int, roots: set<int>, trace: seq<int>, i: nat)
    requires Explored(code, scope, entry, roots, trace) && i < |trace|
    ensures Replay(code, scope, entry, trace[..i + 1]).found.tables.Keys
            <= Replay(code, scope, entry, trace).found.tables.Keys
    decreases |trace|
  {
    var n := |trace| - 1;
    if i < n {
      var before := Replay(code, scope, entry, trace[..n]);
      TablesToEnd(code, scope, entry, roots, trace[..n], i);
      assert trace[..n][..i + 1] == trace[..i + 1];
      StepTables(code, scope, before.found, StartAt(before, trace[n]), trace[n]);
    } else {
      assert trace[..i + 1] == trace;
    }
  }

  lemma StepTables(code: Code, scope: Scope, found: Found, start: int, a: int)
    ensures found.tables.Keys <= AfterStep(code, scope, found, start, a).tables.Keys
  {
    var closed := Closed(found, start, a);
    match code.step(a)
    case JumpTable(table, Some(entries), size) => StartsKeys(closed.(tables := found.tables[table := size]), entries);
    case Branch(edges) => EdgesKeys(scope, closed, edges);
    case _ =>
  }

  /** The run goes on after an instruction that falls through, in the same block or at the start of another. */
  lemma FallAccounted(code: Code, scope: Scope, start: int, roots: set<int>, trace: seq<int>, found: Found, i: nat)
    requires Analyzed(code, scope, start, roots, trace, found) && i < |trace| && code.step(trace[i]).Fall?
    ensures trace[i] + 1 in Addresses(trace)
  {
    var a, before := trace[i], Replay(code, scope, start, trace[..i]);
    ExploredAt(code, scope, start, roots, trace, i);
    StepIncluded(code, scope, start, roots, trace, found, i);
    assert i + 1 == |trace| ==> trace[..i + 1] == trace;
    if a + 1 !in before.found.blocks {
      ExploredAt(code, scope, start, roots, trace, i + 1);
      assert trace[i + 1] == a + 1;
      AddressesAre(trace, a + 1);
    }
  }

  /** All successors of what was executed are executed too, unless they are another function's, or only possible. */
  lemma SuccessorsExecuted(code: Code, scope: Scope, start: int, roots: set<int>, trace: seq<int>, found: Found, i: nat)
    requires NoIllegalStep(code) && Analyzed(code, scope, start, roots, trace, found) && i < |trace|
    ensures match code.step(trace[i])
            case Fall => trace[i] + 1 in trace
            case JumpUnknown(unrecovered) => unrecovered ==> trace[i] + 1 in trace
            case JumpTo(t) => t in trace || Refers(scope, found, t) || t in found.possible
            case JumpTable(_, entries, _) =>
              entries.Some? && ((forall e | e in entries.value :: e in trace) ||
                                forall e | e in entries.value :: e in trace || e in found.possible)
            case Branch(edges) =>
              forall edge | edge in edges && edge.target.Known? && !edge.link ::
                edge.target.addr in trace || Referred(scope, found.references, edge.target.addr)
            case _ => true
  {
    var a := trace[i];
    AllAccounted(code, scope, start, roots, trace, found, i);
    forall b ensures b in trace <==> b in Addresses(trace) { AddressesAre(trace, b); }
    forall k | k in found.blocks ensures k in trace {
      StartsExecuted(code, scope, start, roots, trace, found, k);
    }
    if code.step(a).JumpUnknown? && code.step(a).unrecovered {
      UnknownStarts(code, scope, start, roots, trace, found, i);
    }
    if code.step(a).Branch? {
      forall edge | edge in code.step(a).edges && edge.target.Known? && !edge.link
        ensures edge.target.addr in trace || Referred(scope, found.references, edge.target.addr) {
        assert EdgeAccounted(scope, found, a, edge);
      }
    }
  }

  lemma UnknownStarts(code: Code, scope: Scope, start: int, roots: set<int>, trace: seq<int>, found: Found, i: nat)
    requires Analyzed(code, scope, start, roots, trace, found) && i < |trace|
    requires code.step(trace[i]) == JumpUnknown(true)
    ensures trace[i] + 1 in found.blocks
  {
    var a, before := trace[i], Replay(code, scope, start, trace[..i]);
    StepIncluded(code, scope, start, roots, trace, found, i);
    AddStartKeys(Closed(before.found, StartAt(before, a), a).blocks, a + 1);
  }

  /** The instruction gives a reason to refer to the function at `f`. */
  ghost predicate Mentions(code: Code, scope: Scope, a: int, f: int) {
    match code.step(a)
    case JumpTo(t) =>
      || (f == t && (!(code.lo <= t < code.hi) || code.zeroWord(a)))
      || (LiesIn(scope, t, f) && f != scope.start)
    case Branch(edges) => exists edge :: edge in edges && EdgeMentions(scope, edge, f)
    case _ => false
  }

  ghost predicate EdgeMentions(scope: Scope, edge: Edge, f: int) {
    && edge.target.Known?
    && ((LiesIn(scope, edge.target.addr, f) && f != scope.start)
        || (edge.link && f == if edge.enclosing.Some? then edge.enclosing.value else edge.target.addr))
  }

  lemma {:induction false} EdgesMention(scope: Scope, found: Found, edges: seq<Edge>, f: int)
    requires f in AfterEdges(scope, found, edges).references && f !in found.references
    ensures exists edge :: edge in edges && EdgeMentions(scope, edge, f)
  {
    var n := |edges| - 1;
    var before := AfterEdges(scope, found, edges[..n]);
    if f in before.references {
      EdgesMention(scope, found, edges[..n], f);
      var edge :| edge in edges[..n] && EdgeMentions(scope, edge, f);
      assert edge in edges;
    } else {
      assert edges[n] in edges && EdgeMentions(scope, edges[n], f);
    }
  }

  lemma StepMentions(code: Code, scope: Scope, found: Found, start: int, a: int, f: int)
    requires f in AfterStep(code, scope, found, start, a).references && f !in found.references
    ensures Mentions(code, scope, a, f)
  {
    var closed := Closed(found, start, a);
    match code.step(a)
    case JumpTable(table, Some(entries), size) => StartsKeys(closed.(tables := found.tables[table := size]), entries);
    case Branch(edges) => EdgesMention(scope, closed, edges, f);
    case _ =>
  }

  /** No reference is invented: each is mentioned by an instruction that was executed. */
  lemma {:induction false} ReferencesMentioned(code: Code, scope: Scope, entry: int, roots: set<int>, trace: seq<int>,
                                               f: int)
    requires Explored(code, scope, entry, roots, trace) && f in Replay(code, scope, entry, trace).found.references
    ensures exists a :: a in trace && Mentions(code, scope, a, f)
  {
    var n := |trace| - 1;
    var before := Replay(code, scope, entry, trace[..n]);
    if f in before.found.references {
      ReferencesMentioned(code, scope, entry, roots, trace[..n], f);
      var a :| a in trace[..n] && Mentions(code, scope, a, f);
      assert a in trace;
    } else {
      StepMentions(code, scope, before.found, StartAt(before, trace[n]), trace[n], f);
      assert trace[n] in trace;
    }
  }

  /** What the analysis was stopped by: the last address lies in another function, or holds zeros. */
  lemma StoppedBy(code: Code, scope: Scope, entry: int, roots: set<int>, trace: seq<int>)
    requires StoppedAt(code, scope, entry, roots, trace, false)
    ensures var a := trace[|trace| - 1];
            code.step(a) == Illegal(true)
            || (exists f :: LiesIn(scope, a, f) && f != scope.start)
            || exists b :: b in trace && Mentions(code, scope, b, a)
  {
    var front, a := trace[..|trace| - 1], trace[|trace| - 1];
    var references := Replay(code, scope, entry, front).found.references;
    if a in references {
      ReferencesMentioned(code, scope, entry, roots, front, a);
      var b :| b in front && Mentions(code, scope, b, a);
      assert b in trace;
    }
  }
}
