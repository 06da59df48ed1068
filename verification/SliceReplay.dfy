/**
 * What the analysis of src/analysis/slices.rs makes of a run, instruction by instruction, in one code section of
 * word addresses. What an instruction does to control flow is an arbitrary oracle, so every VM state and every
 * decoding is covered; each address runs at most once, which makes one answer per address enough.
 */
module SliceReplay {
  import opened Wrappers
  import opened OrderedKeys
  import opened Executors
  import opened BlockMap

  /** `BranchTarget` of a conditional or linking branch. */
  datatype Target = Known(addr: int) | Table | Elsewhere

  /** One `Branch`; `enclosing` is the start of a symbol that holds a call's target, if any. */
  datatype Edge = Edge(target: Target, link: bool, enclosing: Option<int>)

  datatype Step =
    | Fall
    | Illegal(zero: bool)
    | JumpUnknown(unrecovered: bool)
    | JumpReturn
    | JumpTo(addr: int)
    | JumpTable(table: int, entries: Option<seq<int>>, size: int)
    | Branch(edges: seq<Edge>)

  /** `checks` is false where the prologue or epilogue check is an error. */
  datatype Code = Code(lo: int, hi: int, step: int -> Step, checks: int -> bool, zeroWord: int -> bool,
                       nop: int -> bool)

  /** The bounds an analysis is given, and the functions known so far with their ends. */
  datatype Scope = Scope(start: int, end: Option<int>, known: map<int, Option<int>>)

  /** What the analysis has found: blocks, successors, referenced functions, possible blocks, jump tables. */
  datatype Found = Found(blocks: Blocks, branches: map<int, seq<int>>, references: set<int>, possible: set<int>,
                         tables: map<int, int>)

  /** Stepping over a non-zero illegal word skips the test that stops a block at the next one. */
  ghost predicate NoIllegalStep(code: Code) {
    forall a :: code.step(a) != Illegal(false)
  }

  /** The greatest known start at or below the address. */
  ghost predicate Nearest(scope: Scope, a: int, f: int) {
    f in scope.known && f <= a && forall g | g in scope.known && g <= a :: g <= f
  }

  /** The address is the start of that known function, or lies in it. */
  ghost predicate LiesIn(scope: Scope, a: int, f: int) {
    Nearest(scope, a, f) && (f == a || (scope.known[f].Some? && a < scope.known[f].value))
  }

  /** The function known to be at the address: itself once it has been referenced, or the one it lies in. */
  ghost predicate Knows(scope: Scope, references: set<int>, a: int, f: int) {
    if a in references then f == a else LiesIn(scope, a, f)
  }

  /** It is another function than the one analysed. */
  ghost predicate Foreign(scope: Scope, references: set<int>, a: int, f: int) {
    Knows(scope, references, a, f) && f != scope.start
  }

  ghost predicate IsForeign(scope: Scope, references: set<int>, a: int) {
    exists f :: Foreign(scope, references, a, f)
  }

  ghost function ForeignAt(scope: Scope, references: set<int>, a: int): (f: int)
    requires IsForeign(scope, references, a)
    ensures Foreign(scope, references, a, f)
  {
    var f :| Foreign(scope, references, a, f);
    f
  }

  lemma OneKnown(scope: Scope, references: set<int>, a: int, f: int, g: int)
    requires Knows(scope, references, a, f) && Knows(scope, references, a, g)
    ensures f == g
  {
  }

  ghost function Closed(found: Found, start: int, a: int): Found {
    found.(blocks := found.blocks[start := Some(a + 1)])
  }

  ghost function WithStart(found: Found, a: int): Found {
    found.(blocks := AddStart(found.blocks, a).0)
  }

  ghost function WithStarts(found: Found, targets: seq<int>): Found {
    if targets == [] then found
    else WithStart(WithStarts(found, targets[..|targets| - 1]), targets[|targets| - 1])
  }

  ghost function WithSuccessors(found: Found, a: int, successors: seq<int>): Found {
    found.(branches := found.branches[a := successors])
  }

  ghost function Referring(found: Found, f: int): Found {
    found.(references := found.references + {f})
  }

  /** A jump within the bounds known, below the end of the last block, or backwards. */
  ghost predicate Inside(scope: Scope, blocks: Blocks, a: int, target: int) {
    target >= scope.start && ((scope.end.Some? && target < scope.end.value)
                              || (LastEnd(blocks).Some? && target < LastEnd(blocks).value) || target < a)
  }

  /** A jump elsewhere: to another function, out of the section, or perhaps to a block. */
  ghost function AfterOutside(code: Code, scope: Scope, found: Found, a: int, target: int): Found {
    if IsForeign(scope, found.references, target)
      then Referring(found, ForeignAt(scope, found.references, target))
    else if !(code.lo <= target < code.hi) || code.zeroWord(a) then Referring(found, target)
    else found.(possible := found.possible + {target})
  }

  /** No further than the next address or the last block start. */
  ghost predicate Within(found: Found, a: int, e: int) {
    e <= a + 1 || exists k :: k in found.blocks && e <= k
  }

  /** Some entry lies after the start, no further than the blocks so far, and none is another function's. */
  ghost predicate TakesTable(scope: Scope, found: Found, a: int, entries: seq<int>) {
    && (exists e :: e in entries && scope.start < e && Within(found, a, e))
    && (forall e | e in entries :: !IsForeign(scope, found.references, e))
  }

  /** A branch edge that is a successor: not a call, and not to another function. */
  ghost predicate IsSuccessor(scope: Scope, references: set<int>, edge: Edge) {
    edge.target.Known? && !edge.link && !IsForeign(scope, references, edge.target.addr)
  }

  ghost function AfterEdge(scope: Scope, found: Found, edge: Edge): Found {
    if !edge.target.Known? then found
    else if IsForeign(scope, found.references, edge.target.addr)
      then Referring(found, ForeignAt(scope, found.references, edge.target.addr))
    else if edge.link then Referring(found, if edge.enclosing.Some? then edge.enclosing.value else edge.target.addr)
    else WithStart(found, edge.target.addr)
  }

  ghost function AfterEdges(scope: Scope, found: Found, edges: seq<Edge>): Found {
    if edges == [] then found
    else AfterEdge(scope, AfterEdges(scope, found, edges[..|edges| - 1]), edges[|edges| - 1])
  }

  ghost function Successors(scope: Scope, found: Found, edges: seq<Edge>): seq<int> {
    if edges == [] then [] else
      var front, edge := edges[..|edges| - 1], edges[|edges| - 1];
      Successors(scope, found, front)
      + if IsSuccessor(scope, AfterEdges(scope, found, front).references, edge) then [edge.target.addr] else []
  }

  /** What the instruction at `a`, in the block from `start`, adds to what has been found. */
  ghost function AfterStep(code: Code, scope: Scope, found: Found, start: int, a: int): Found {
    var closed := Closed(found, start, a);
    match code.step(a)
    case Fall => if a + 1 in found.blocks then WithSuccessors(closed, a, [a + 1]) else found
    case JumpUnknown(unrecovered) =>
      if unrecovered then WithSuccessors(WithStart(closed, a + 1), a, [a + 1]) else closed
    case JumpTo(target) =>
      var jumped := WithSuccessors(closed, a, [target]);
      if target == a then jumped
      else if Inside(scope, closed.blocks, a, target) then WithStart(jumped, target)
      else AfterOutside(code, scope, jumped, a, target)
    case JumpTable(table, Some(entries), size) =>
      if TakesTable(scope, closed, a, entries)
        then WithSuccessors(WithStarts(closed.(tables := found.tables[table := size]), entries), a, entries)
      else closed.(possible := found.possible + set e | e in entries)
    case Branch(edges) =>
      var successors, after := Successors(scope, closed, edges), AfterEdges(scope, closed, edges);
      if successors == [] then after else WithSuccessors(after, a, successors)
    case _ => closed
  }

  /** How the run goes on. */
  ghost function Answer(code: Code, scope: Scope, found: Found, start: int, a: int): CbResult<bool> {
    match code.step(a)
    case Fall => if a + 1 in found.blocks then EndBlock else Continue
    case JumpTo(target) =>
      var blocks := Closed(found, start, a).blocks;
      if target != a && Inside(scope, blocks, a, target) && AddStart(blocks, target).1 then Jump(target) else EndBlock
    case _ => EndBlock
  }

  /** The analysis is given up at `a`: it hits another function, or zeros. */
  ghost predicate Ends(code: Code, scope: Scope, found: Found, a: int) {
    code.checks(a) && (IsForeign(scope, found.references, a) || code.step(a) == Illegal(true))
  }

  /** It is an error at `a`: a check, a table that is not read, or a jump to this function from outside its bounds. */
  ghost predicate Errs(code: Code, scope: Scope, found: Found, start: int, a: int) {
    || !code.checks(a)
    || (!IsForeign(scope, found.references, a) &&
        match code.step(a)
        case JumpTable(_, entries, _) => entries.None?
        case Branch(edges) => exists edge :: edge in edges && edge.target.Table?
        case JumpTo(target) =>
          && target != a && !Inside(scope, Closed(found, start, a).blocks, a, target)
          && Knows(scope, found.references, target, scope.start)
        case _ => false)
  }

  /** What has been found after so many instructions, and the start of the block still running. */
  datatype Moment = Moment(found: Found, running: Option<int>)

  ghost function StartAt(moment: Moment, a: int): int {
    if moment.running.Some? then moment.running.value else a
  }

  ghost function Ran(code: Code, scope: Scope, moment: Moment, a: int): Moment {
    var start := StartAt(moment, a);
    Moment(AfterStep(code, scope, moment.found, start, a),
           if Answer(code, scope, moment.found, start, a) == Continue then Some(start) else None)
  }

  /** The analysis of the instructions of a trace, in its order, from the entry. */
  ghost function Replay(code: Code, scope: Scope, entry: int, trace: seq<int>): Moment {
    if trace == [] then Moment(Found(map[entry := None], map[], {}, {}, map[]), None)
    else Ran(code, scope, Replay(code, scope, entry, trace[..|trace| - 1]), trace[|trace| - 1])
  }

  /** The instruction at `p` can be followed by the one at `a` in the same function. */
  ghost predicate LeadsTo(code: Code, p: int, a: int) {
    match code.step(p)
    case Fall => a == p + 1
    case JumpUnknown(unrecovered) => unrecovered && a == p + 1
    case JumpTo(target) => a == target
    case JumpTable(_, entries, _) => entries.Some? && a in entries.value
    case Branch(edges) => exists edge :: edge in edges && edge.target == Known(a) && !edge.link
    case _ => false
  }

  /** There was a reason to run the address: it is a root, or an executed instruction leads to it. */
  ghost predicate Sourced(code: Code, roots: set<int>, seen: set<int>, a: int) {
    a in roots || exists p :: p in seen && LeadsTo(code, p, a)
  }

  ghost predicate AllSourced(code: Code, roots: set<int>, seen: set<int>, stack: seq<int>) {
    forall a | a in stack :: Sourced(code, roots, seen, a)
  }

  ghost predicate Nops(code: Code, from: int, upto: int) {
    forall a | from <= a < upto :: code.nop(a)
  }

  /**
   * The roots: the entry, what follows executed code in a gap below a later block, and what follows executed
   * code and nops below the known end.
   */
  ghost predicate Root(code: Code, scope: Scope, entry: int, seen: set<int>, starts: set<int>, r: int) {
    || r == entry
    || (r - 1 in seen && exists s :: s in starts && r < s)
    || (scope.end.Some? && r < scope.end.value && exists e :: e - 1 in seen && e <= r && Nops(code, e, r))
  }

  ghost predicate Rooted(code: Code, scope: Scope, entry: int, seen: set<int>, starts: set<int>, roots: set<int>) {
    forall r | r in roots :: Root(code, scope, entry, seen, starts, r)
  }

  lemma RootedKept(code: Code, scope: Scope, entry: int, seen: set<int>, starts: set<int>, roots: set<int>,
                   seen': set<int>, starts': set<int>)
    requires Rooted(code, scope, entry, seen, starts, roots) && seen <= seen' && starts <= starts'
    ensures Rooted(code, scope, entry, seen', starts', roots)
  {
    forall r | r in roots ensures Root(code, scope, entry, seen', starts', r) {
      assert Root(code, scope, entry, seen, starts, r);
    }
  }

  ghost function Addresses(trace: seq<int>): set<int> {
    if trace == [] then {} else Addresses(trace[..|trace| - 1]) + {trace[|trace| - 1]}
  }

  /** The address can run next: it lies in the section, is new, has a reason, and extends a block still running. */
  ghost predicate MayRun(code: Code, scope: Scope, entry: int, roots: set<int>, trace: seq<int>, a: int) {
    && code.lo <= a < code.hi && a !in Addresses(trace) && Sourced(code, roots, Addresses(trace), a)
    && (Replay(code, scope, entry, trace).running.Some? ==> trace != [] && a == trace[|trace| - 1] + 1)
  }

  /** The addresses executed so far: each could run next, and neither ended the analysis nor was an error. */
  ghost predicate Explored(code: Code, scope: Scope, entry: int, roots: set<int>, trace: seq<int>) {
    trace == [] ||
    var front, a := trace[..|trace| - 1], trace[|trace| - 1];
    var before := Replay(code, scope, entry, front);
    && Explored(code, scope, entry, roots, front) && MayRun(code, scope, entry, roots, front, a)
    && !Ends(code, scope, before.found, a) && !Errs(code, scope, before.found, StartAt(before, a), a)
  }

  lemma {:induction false} MoreRoots(code: Code, scope: Scope, entry: int, roots: set<int>, trace: seq<int>,
                                     roots': set<int>)
    requires Explored(code, scope, entry, roots, trace) && roots <= roots'
    ensures Explored(code, scope, entry, roots', trace)
  {
    if trace != [] {
      MoreRoots(code, scope, entry, roots, trace[..|trace| - 1], roots');
    }
  }

  lemma ExploredMore(code: Code, scope: Scope, entry: int, roots: set<int>, trace: seq<int>, a: int)
    requires Explored(code, scope, entry, roots, trace) && MayRun(code, scope, entry, roots, trace, a)
    requires var before := Replay(code, scope, entry, trace);
             !Ends(code, scope, before.found, a) && !Errs(code, scope, before.found, StartAt(before, a), a)
    ensures Explored(code, scope, entry, roots, trace + [a])
    ensures Replay(code, scope, entry, trace + [a]) == Ran(code, scope, Replay(code, scope, entry, trace), a)
    ensures Addresses(trace + [a]) == Addresses(trace) + {a}
  {
    assert (trace + [a])[..|trace|] == trace;
  }

  /** The run stopped at its last address: that ended the analysis, or was an error. */
  ghost predicate StoppedAt(code: Code, scope: Scope, entry: int, roots: set<int>, trace: seq<int>, error: bool) {
    trace != [] &&
    var front, a := trace[..|trace| - 1], trace[|trace| - 1];
    var before := Replay(code, scope, entry, front);
    && Explored(code, scope, entry, roots, front) && MayRun(code, scope, entry, roots, front, a)
    && if error then Errs(code, scope, before.found, StartAt(before, a), a) else Ends(code, scope, before.found, a)
  }

  lemma Stopped(code: Code, scope: Scope, entry: int, roots: set<int>, front: seq<int>, a: int, error: bool)
    requires Explored(code, scope, entry, roots, front) && MayRun(code, scope, entry, roots, front, a)
    requires var before := Replay(code, scope, entry, front);
             if error then Errs(code, scope, before.found, StartAt(before, a), a)
             else Ends(code, scope, before.found, a)
    ensures StoppedAt(code, scope, entry, roots, front + [a], error)
  {
    assert (front + [a])[..|front|] == front;
  }

  lemma OneLeft(stack: seq<int>, a: int)
    requires multiset(stack) == multiset{a}
    ensures stack == [a]
  {
    assert |multiset(stack)| == 1;
    assert stack[0] in multiset(stack);
  }

  /** An error: at the last address, or because the run leads out of the section. */
  ghost predicate Failed(code: Code, scope: Scope, entry: int, roots: set<int>, trace: seq<int>) {
    || StoppedAt(code, scope, entry, roots, trace, true)
    || (Explored(code, scope, entry, roots, trace)
        && exists a :: !(code.lo <= a < code.hi) && Sourced(code, roots, Addresses(trace), a))
  }

  lemma AddressesMore(trace: seq<int>, a: int)
    ensures Addresses(trace + [a]) == Addresses(trace) + {a}
  {
    assert (trace + [a])[..|trace|] == trace;
  }

  /** Visited entries can be dropped from the stack: an open block's start is unvisited. */
  lemma PoppedKeeps(b: Blocks, visited: set<int>, stack: seq<int>, rest: seq<int>, skipped: seq<int>)
    requires Consistent(b, visited, stack)
    requires stack == rest + skipped && forall a | a in skipped :: a in visited
    ensures Consistent(b, visited, rest)
  {
    forall k | k in b && b[k].None? ensures k in rest {
      OpenUnvisited(b, visited, stack, k);
    }
  }

  /** The end of a block with a gap after it is a root: it follows executed code and is below a later start. */
  lemma GapRoot(code: Code, scope: Scope, entry: int, b: Blocks, stack: seq<int>, seen: set<int>, k: int)
    requires Consistent(b, seen, stack) && k in b && b[k].Some? && GapAfter(b, k)
    ensures Root(code, scope, entry, seen, b.Keys, b[k].value)
  {
    assert Covers(b, k, b[k].value - 1);
    assert Next(b, k).value in b.Keys;
  }

  /** So is what follows the last block and nops, below the known end. */
  lemma TrailingRoot(code: Code, scope: Scope, entry: int, b: Blocks, stack: seq<int>, seen: set<int>, r: int)
    requires Consistent(b, seen, stack) && LastEnd(b).Some? && LastEnd(b).value <= r
    requires scope.end.Some? && r < scope.end.value && Nops(code, LastEnd(b).value, r)
    ensures Root(code, scope, entry, seen, b.Keys, r)
  {
    assert Covers(b, Greatest(b.Keys), LastEnd(b).value - 1);
  }

  /** Nothing at or after the end of the last block has been visited. */
  lemma PastEndUnvisited(b: Blocks, visited: set<int>, stack: seq<int>, a: int)
    requires Consistent(b, visited, stack) && LastEnd(b).Some? && LastEnd(b).value <= a
    ensures a !in visited
  {
    forall k ensures !Covers(b, k, a) {
      assert k in b ==> k <= Greatest(b.Keys);
    }
  }

  /** The jump leads to this function, and from outside its bounds. */
  ghost predicate FailsJump(scope: Scope, found: Found, start: int, a: int, target: int) {
    && target != a && !Inside(scope, Closed(found, start, a).blocks, a, target)
    && Knows(scope, found.references, target, scope.start)
  }

  /** The address runs in a block from `start`: the one still running, which it extends, or its own. */
  ghost predicate Extends(moment: Moment, trace: seq<int>, start: int, a: int) {
    start == StartAt(moment, a) && (moment.running.Some? ==> trace != [] && a == trace[|trace| - 1] + 1)
  }

  /** After the last block there are only nops up to the end, or it is still open. */
  ghost predicate Reaches(code: Code, b: Blocks, end: int) {
    match LastEnd(b)
    case None => true
    case Some(last) => exists e :: last <= e && Nops(code, last, e) && e >= end
  }

  lemma MaxIs(scope: Scope, found: Found, a: int, entries: seq<int>, max: int)
    requires found.blocks != map[]
    requires max == if Greatest(found.blocks.Keys) < a + 1 then a + 1 else Greatest(found.blocks.Keys)
    ensures forall e :: Within(found, a, e) <==> e <= max
  {
    forall e ensures Within(found, a, e) <==> e <= max {
      assert Greatest(found.blocks.Keys) in found.blocks;
    }
  }

  lemma {:induction false} StartsKeys(found: Found, targets: seq<int>)
    ensures found.blocks.Keys <= WithStarts(found, targets).blocks.Keys
    ensures forall t | t in targets :: t in WithStarts(found, targets).blocks
    ensures WithStarts(found, targets) == found.(blocks := WithStarts(found, targets).blocks)
  {
    if targets != [] {
      var n := |targets| - 1;
      StartsKeys(found, targets[..n]);
      AddStartKeys(WithStarts(found, targets[..n]).blocks, targets[n]);
      assert targets == targets[..n] + [targets[n]];
    }
  }

  lemma {:induction false} EdgesKeys(scope: Scope, found: Found, edges: seq<Edge>)
    ensures found.blocks.Keys <= AfterEdges(scope, found, edges).blocks.Keys
    ensures found.references <= AfterEdges(scope, found, edges).references
    ensures AfterEdges(scope, found, edges) == found.(blocks := AfterEdges(scope, found, edges).blocks,
                                                      references := AfterEdges(scope, found, edges).references)
    ensures forall t | t in Successors(scope, found, edges) :: t in AfterEdges(scope, found, edges).blocks
  {
    if edges != [] {
      var n := |edges| - 1;
      EdgesKeys(scope, found, edges[..n]);
      if edges[n].target.Known? {
        AddStartKeys(AfterEdges(scope, found, edges[..n]).blocks, edges[n].target.addr);
      }
    }
  }

  /** A step only adds block starts. */
  lemma StepKeys(code: Code, scope: Scope, found: Found, start: int, a: int)
    ensures found.blocks.Keys <= AfterStep(code, scope, found, start, a).blocks.Keys
  {
    var closed := Closed(found, start, a);
    match code.step(a)
    case JumpUnknown(_) => AddStartKeys(closed.blocks, a + 1);
    case JumpTo(target) => AddStartKeys(closed.blocks, target);
    case JumpTable(table, Some(entries), size) =>
      StartsKeys(closed.(tables := found.tables[table := size]), entries);
    case Branch(edges) => EdgesKeys(scope, closed, edges);
    case _ =>
  }

  /** The result of a successful analysis that executed `trace`. */
  ghost predicate Analyzed(code: Code, scope: Scope, start: int, roots: set<int>, trace: seq<int>, found: Found) {
    && start in found.blocks && AllClosed(found.blocks) && Separate(found.blocks)
    && (forall a :: a in trace <==> Covered(found.blocks, a))
    && Rooted(code, scope, start, Addresses(trace), found.blocks.Keys, roots)
    && Explored(code, scope, start, roots, trace)
    && IsReplay(found, Replay(code, scope, start, trace), Addresses(trace))
  }

  /** What has been found is what the replay finds; possible blocks that have run may have been dropped. */
  ghost predicate IsReplay(found: Found, moment: Moment, seen: set<int>) {
    && moment.running.None? && found == moment.found.(possible := found.possible)
    && found.possible <= moment.found.possible && moment.found.possible - seen <= found.possible
  }

  lemma {:induction false} AddressesAre(trace: seq<int>, a: int)
    ensures a in trace <==> a in Addresses(trace)
  {
    if trace != [] {
      AddressesAre(trace[..|trace| - 1], a);
      assert trace == trace[..|trace| - 1] + [trace[|trace| - 1]];
    }
  }

  lemma Finished(code: Code, scope: Scope, start: int, roots: set<int>, trace: seq<int>, seen: set<int>, found: Found)
    requires Consistent(found.blocks, seen, []) && seen == Addresses(trace) && start in found.blocks
    requires Rooted(code, scope, start, seen, found.blocks.Keys, roots) && Explored(code, scope, start, roots, trace)
    requires IsReplay(found, Replay(code, scope, start, trace), seen)
    ensures Analyzed(code, scope, start, roots, trace, found)
  {
    forall a ensures a in trace <==> a in seen { AddressesAre(trace, a); }
  }
}
