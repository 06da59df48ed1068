/**
 * Basic-block construction of src/analysis/slices.rs, as the object that updates itself: a successful analysis is
 * the replay of the instructions it executed.
 */
module FunctionSlicing {
  import opened Wrappers
  import opened OrderedKeys
  import opened Executors
  import opened BlockMap
  import opened SliceReplay

  class FunctionSlices {
    var blocks: Blocks
    var branches: map<int, seq<int>>
    var functionReferences: set<int>
    var jumpTableReferences: map<int, int>
    var possibleBlocks: set<int>
    ghost var entry: int
    /** The addresses run although nothing executed leads to them. */
    ghost var roots: set<int>

    constructor ()
      ensures blocks == map[] && branches == map[] && functionReferences == {} && possibleBlocks == {}
              && jumpTableReferences == map[]
    {
      blocks, branches, functionReferences, jumpTableReferences, possibleBlocks := map[], map[], {}, map[], {};
      roots := {};
    }

    /** What has been found; a possible block that has run may have been dropped. */
    ghost predicate Is(found: Found, seen: set<int>)
      reads this`blocks, this`branches, this`functionReferences, this`jumpTableReferences, this`possibleBlocks
    {
      && blocks == found.blocks && branches == found.branches && functionReferences == found.references
      && jumpTableReferences == found.tables
      && possibleBlocks <= found.possible && found.possible - seen <= possibleBlocks
    }

    /** Between blocks: every block is finished or waits on the stack. */
    ghost predicate Settled(code: Code, executor: Executor)
      reads this`blocks, this`roots, executor
    {
      Consistent(blocks, executor.visited, executor.stack) && AllSourced(code, roots, executor.visited, executor.stack)
    }

    /** The block from `start` has just run `last`. */
    ghost predicate Running(code: Code, executor: Executor, start: int, last: int)
      reads this`blocks, this`roots, executor
    {
      && InProgress(blocks, executor.visited, executor.stack, start, last)
      && AllSourced(code, roots, executor.visited, executor.stack)
    }

    method AddBlockStart(addr: int) returns (isNew: bool)
      modifies this`blocks
      ensures (blocks, isNew) == AddStart(old(blocks), addr)
    {
      var previous := Floor(blocks.Keys, addr - 1);
      if previous.Some? && blocks[previous.value].Some? {
        var lastEnd := blocks[previous.value].value;
        if lastEnd > addr {
          blocks := blocks[previous.value := Some(addr)];
          blocks := blocks[addr := Some(lastEnd)];
          return false;
        }
      }
      if addr in blocks {
        return false;
      }
      blocks := blocks[addr := None];
      isNew := true;
    }

    /** The function that starts at `addr` or is known to contain it. */
    function KnownFunction(scope: Scope, addr: int): (r: Option<int>)
      reads this`functionReferences
      ensures r.Some? ==> Knows(scope, functionReferences, addr, r.value)
      ensures r.None? ==> forall f :: !Knows(scope, functionReferences, addr, f)
    {
      if addr in functionReferences then Some(addr) else
        var previous := Floor(scope.known.Keys, addr);
        if previous.Some? && (previous.value == addr
                              || (scope.known[previous.value].Some? && addr < scope.known[previous.value].value))
        then previous else None
    }

    /** The other function that the address is known to belong to. */
    function OtherFunction(scope: Scope, addr: int): (r: Option<int>)
      reads this`functionReferences
      ensures r.Some? <==> IsForeign(scope, functionReferences, addr)
      ensures r.Some? ==> r.value == ForeignAt(scope, functionReferences, addr)
    {
      var known := KnownFunction(scope, addr);
      assert forall f, g | Knows(scope, functionReferences, addr, f) && Knows(scope, functionReferences, addr, g) ::
          f == g by {
        forall f, g | Knows(scope, functionReferences, addr, f) && Knows(scope, functionReferences, addr, g)
          ensures f == g { OneKnown(scope, functionReferences, addr, f, g); }
      }
      if known.Some? && known.value != scope.start then
        assert Foreign(scope, functionReferences, addr, known.value);
        known
      else None
    }

    /** Closes the running block after `last` and records its successors. */
    method CloseBlock(code: Code, executor: Executor, start: int, last: int, successors: Option<seq<int>>,
                      ghost found: Found)
      requires Running(code, executor, start, last) && Is(found, executor.visited)
      modifies this`blocks, this`branches
      ensures Settled(code, executor)
      ensures var closed := Closed(found, start, last);
              Is(if successors.Some? then WithSuccessors(closed, last, successors.value) else closed, executor.visited)
    {
      blocks := blocks[start := Some(last + 1)];
      if successors.Some? {
        branches := branches[last := successors.value];
      }
    }

    /** `add_block_start` and, when the start is new, the push that goes with it. */
    method AddTarget(code: Code, executor: Executor, addr: int, ghost found: Found)
      requires Settled(code, executor) && Sourced(code, roots, executor.visited, addr) && Is(found, executor.visited)
      modifies this`blocks, executor`stack
      ensures Settled(code, executor) && Is(WithStart(found, addr), executor.visited)
    {
      ghost var blocksBefore, stackBefore := blocks, executor.stack;
      var isNew := AddBlockStart(addr);
      if isNew {
        executor.Push(addr, true);
        assert forall a | a in stackBefore :: a in multiset(executor.stack);
        assert addr in multiset(executor.stack);
        forall a | a in executor.stack ensures Sourced(code, roots, executor.visited, a) {
          assert a in multiset(executor.stack);
          assert a in multiset(stackBefore) + multiset{addr};
        }
      }
      AddStartKeeps(blocksBefore, executor.visited, stackBefore, executor.stack, addr);
    }

    method AddTargets(code: Code, executor: Executor, targets: seq<int>, ghost found: Found)
      requires Settled(code, executor) && forall t | t in targets :: Sourced(code, roots, executor.visited, t)
      requires Is(found, executor.visited)
      modifies this`blocks, executor`stack
      ensures Settled(code, executor) && Is(WithStarts(found, targets), executor.visited)
    {
      for i := 0 to |targets|
        invariant Settled(code, executor) && Is(WithStarts(found, targets[..i]), executor.visited)
      {
        AddTarget(code, executor, targets[i], WithStarts(found, targets[..i]));
        assert targets[..i + 1][..i] == targets[..i];
      }
      assert targets[..|targets|] == targets;
    }

    method OnFall(code: Code, scope: Scope, executor: Executor, addr: int, blockStart: int, ghost found: Found)
      returns (r: CbResult<bool>)
      requires Running(code, executor, blockStart, addr) && Is(found, executor.visited) && code.step(addr).Fall?
      modifies this`blocks, this`branches
      ensures r == Answer(code, scope, found, blockStart, addr)
      ensures Is(AfterStep(code, scope, found, blockStart, addr), executor.visited)
      ensures Answered(code, executor, addr, blockStart, r)
    {
      if addr + 1 in executor.visited {
        VisitedNextIsStart(blocks, executor.visited, executor.stack, blockStart, addr);
      }
      if addr + 1 in executor.visited || addr + 1 in blocks {
        CloseBlock(code, executor, blockStart, addr, Some([addr + 1]), found);
        r := EndBlock;
      } else {
        r := Continue;
      }
    }

    method OnJump(code: Code, scope: Scope, executor: Executor, addr: int, blockStart: int, target: int,
                  ghost found: Found)
      returns (r: Result<CbResult<bool>>)
      requires Running(code, executor, blockStart, addr) && Is(found, executor.visited)
      requires code.step(addr) == JumpTo(target)
      modifies this`blocks, this`branches, this`functionReferences, this`possibleBlocks
      ensures r.Failure? <==> FailsJump(scope, found, blockStart, addr, target)
      ensures r.Success? ==>
                && r.value == Answer(code, scope, found, blockStart, addr)
                && Is(AfterStep(code, scope, found, blockStart, addr), executor.visited)
                && Answered(code, executor, addr, blockStart, r.value)
    {
      CloseBlock(code, executor, blockStart, addr, Some([target]), found);
      ghost var jumped := WithSuccessors(Closed(found, blockStart, addr), addr, [target]);
      r := Success(EndBlock);
      if target == addr {
        // An infinite loop.
      } else if target >= scope.start
                && ((scope.end.Some? && target < scope.end.value)
                    || (LastEnd(blocks).Some? && target < LastEnd(blocks).value)
                    || target < addr)
      {
        r := JumpInside(code, executor, addr, blockStart, target, jumped);
      } else {
        var ok := JumpOutside(code, scope, executor, addr, target, jumped);
        r := if ok then Success(EndBlock) else Failure;
      }
    }

    /** A jump inside the function: goes on there, or ends the block if the target is a start already. */
    method JumpInside(code: Code, executor: Executor, addr: int, blockStart: int, target: int, ghost found: Found)
      returns (r: Result<CbResult<bool>>)
      requires Settled(code, executor) && code.step(addr) == JumpTo(target) && Is(found, executor.visited)
      modifies this`blocks
      ensures r == Success(if AddStart(found.blocks, target).1 then Jump(target) else EndBlock)
      ensures Answered(code, executor, addr, blockStart, r.value) && Is(WithStart(found, target), executor.visited)
    {
      AddStartKeeps(blocks, executor.visited, executor.stack, executor.stack + [target], target);
      if !AddStart(blocks, target).1 {
        AddStartKeeps(blocks, executor.visited, executor.stack, executor.stack, target);
      }
      var isNew := AddBlockStart(target);
      r := Success(if isNew then Jump(target) else EndBlock);
    }

    /** A jump elsewhere; an error if it is to this function. */
    method JumpOutside(code: Code, scope: Scope, executor: Executor, addr: int, target: int, ghost found: Found)
      returns (ok: bool)
      requires Is(found, executor.visited)
      modifies this`functionReferences, this`possibleBlocks
      ensures ok <==> !Knows(scope, found.references, target, scope.start)
      ensures ok ==> Is(AfterOutside(code, scope, found, addr, target), executor.visited)
    {
      var known, other := KnownFunction(scope, target), OtherFunction(scope, target);
      ok := true;
      if known.Some? {
        if known.value == scope.start {
          return false;
        }
        OneKnown(scope, functionReferences, target, known.value, other.value);
        functionReferences := functionReferences + {known.value};
      } else if !(code.lo <= target < code.hi) || code.zeroWord(addr) {
        functionReferences := functionReferences + {target};
      } else {
        possibleBlocks := possibleBlocks + {target};
      }
    }

    method OnJumpTable(code: Code, scope: Scope, executor: Executor, addr: int, blockStart: int,
                       table: int, entries: seq<int>, size: int, ghost found: Found)
      requires Running(code, executor, blockStart, addr) && Is(found, executor.visited)
      requires code.step(addr) == JumpTable(table, Some(entries), size)
      modifies this`blocks, this`branches, this`jumpTableReferences, this`possibleBlocks, executor`stack
      ensures Settled(code, executor)
      ensures Is(AfterStep(code, scope, found, blockStart, addr), executor.visited)
    {
      LastVisited(blocks, executor.visited, executor.stack, blockStart, addr);
      CloseBlock(code, executor, blockStart, addr, None, found);
      ghost var closed := Closed(found, blockStart, addr);
      assert blockStart in blocks;
      if TableIsInside(scope, addr, entries, closed) {
        jumpTableReferences := jumpTableReferences[table := size];
        TableInside(code, executor, addr, entries, closed.(tables := found.tables[table := size]));
      } else {
        possibleBlocks := possibleBlocks + set e | e in entries;
      }
    }

    /** Some entry is after the start, up to the last block or the next address, and none is another function's. */
    predicate TableIsInside(scope: Scope, addr: int, entries: seq<int>, ghost found: Found)
      requires blocks == found.blocks != map[] && functionReferences == found.references
      reads this`blocks, this`functionReferences
      ensures TableIsInside(scope, addr, entries, found) <==> TakesTable(scope, found, addr, entries)
    {
      var lastStart := Greatest(blocks.Keys);
      var maxBlock := if lastStart < addr + 1 then addr + 1 else lastStart;
      MaxIs(scope, found, addr, entries, maxBlock);
      && (exists e | e in entries :: scope.start < e <= maxBlock)
      && !(exists e | e in entries :: OtherFunction(scope, e).Some?)
    }

    /** A table of this function: its entries are block starts, and the successors. */
    method TableInside(code: Code, executor: Executor, addr: int, entries: seq<int>, ghost found: Found)
      requires Settled(code, executor) && addr in executor.visited && Is(found, executor.visited)
      requires code.step(addr).JumpTable? && code.step(addr).entries == Some(entries)
      modifies this`blocks, this`branches, executor`stack
      ensures Settled(code, executor)
      ensures Is(WithSuccessors(WithStarts(found, entries), addr, entries), executor.visited)
    {
      forall e | e in entries ensures Sourced(code, roots, executor.visited, e) {
        assert LeadsTo(code, addr, e);
      }
      AddTargets(code, executor, entries, found);
      branches := branches[addr := entries];
    }

    method OnBranch(code: Code, scope: Scope, executor: Executor, addr: int, blockStart: int, edges: seq<Edge>,
                    ghost found: Found)
      returns (ok: bool)
      requires Running(code, executor, blockStart, addr) && Is(found, executor.visited)
      requires code.step(addr) == Branch(edges)
      modifies this`blocks, this`branches, this`functionReferences, executor`stack
      ensures ok <==> forall edge | edge in edges :: !edge.target.Table?
      ensures ok ==> Settled(code, executor)
                     && Is(AfterStep(code, scope, found, blockStart, addr), executor.visited)
    {
      LastVisited(blocks, executor.visited, executor.stack, blockStart, addr);
      CloseBlock(code, executor, blockStart, addr, None, found);
      var outBranches: seq<int> := [];
      ghost var closed := Closed(found, blockStart, addr);
      for i := 0 to |edges|
        invariant Settled(code, executor) && addr in executor.visited
        invariant Is(AfterEdges(scope, closed, edges[..i]), executor.visited)
        invariant outBranches == SliceReplay.Successors(scope, closed, edges[..i])
        invariant forall edge | edge in edges[..i] :: !edge.target.Table?
      {
        if edges[i].target.Table? {
          return false;
        }
        assert edges[..i + 1][..i] == edges[..i];
        outBranches := OnEdge(code, scope, executor, addr, edges[i], outBranches,
                              AfterEdges(scope, closed, edges[..i]));
      }
      assert edges[..|edges|] == edges;
      if outBranches != [] {
        branches := branches[addr := outBranches];
      }
      ok := true;
    }

    /** One edge of a branch: a call or a branch into another function is a reference, the rest are successors. */
    method OnEdge(code: Code, scope: Scope, executor: Executor, addr: int, edge: Edge, outBranches: seq<int>,
                  ghost found: Found)
      returns (outBranches': seq<int>)
      requires Settled(code, executor) && addr in executor.visited && Is(found, executor.visited)
      requires code.step(addr).Branch? && edge in code.step(addr).edges
      modifies this`blocks, this`functionReferences, executor`stack
      ensures Settled(code, executor) && Is(AfterEdge(scope, found, edge), executor.visited)
      ensures outBranches' == outBranches
                              + if IsSuccessor(scope, found.references, edge) then [edge.target.addr] else []
    {
      outBranches' := outBranches;
      if edge.target.Known? {
        var target := edge.target.addr;
        var other := OtherFunction(scope, target);
        if other.Some? {
          functionReferences := functionReferences + {other.value};
        } else if edge.link {
          functionReferences := functionReferences + {if edge.enclosing.Some? then edge.enclosing.value else target};
        } else {
          outBranches' := outBranches + [target];
          assert LeadsTo(code, addr, target);
          AddTarget(code, executor, target, found);
        }
      }
    }

    method OnUnknownJump(code: Code, scope: Scope, executor: Executor, addr: int, blockStart: int, unrecovered: bool,
                         ghost found: Found)
      requires Running(code, executor, blockStart, addr) && Is(found, executor.visited)
      requires code.step(addr) == JumpUnknown(unrecovered)
      modifies this`blocks, this`branches, executor`stack
      ensures Settled(code, executor)
      ensures Is(AfterStep(code, scope, found, blockStart, addr), executor.visited)
    {
      LastVisited(blocks, executor.visited, executor.stack, blockStart, addr);
      CloseBlock(code, executor, blockStart, addr, None, found);
      if unrecovered {
        assert LeadsTo(code, addr, addr + 1);
        AddTarget(code, executor, addr + 1, Closed(found, blockStart, addr));
        branches := branches[addr := [addr + 1]];
      }
    }

    /** What the executor may rely on after each answer. */
    ghost predicate Answered(code: Code, executor: Executor, addr: int, blockStart: int, r: CbResult<bool>)
      reads this`blocks, this`roots, executor
    {
      match r
      case Continue =>
        && Running(code, executor, blockStart, addr)
        && addr + 1 !in executor.visited && addr + 1 !in blocks && LeadsTo(code, addr, addr + 1)
      case EndBlock => Settled(code, executor)
      case End(value) => !value
      case Jump(target) =>
        && target !in executor.visited && LeadsTo(code, addr, target)
        && Consistent(blocks, executor.visited, executor.stack + [target])
        && AllSourced(code, roots, executor.visited, executor.stack)
    }

    /** The `match` on what the instruction does to control flow. */
    method Step(code: Code, scope: Scope, executor: Executor, addr: int, blockStart: int, ghost found: Found)
      returns (r: Result<CbResult<bool>>)
      requires NoIllegalStep(code) && code.checks(addr) && !IsForeign(scope, found.references, addr)
      requires Running(code, executor, blockStart, addr) && Is(found, executor.visited)
      modifies this`blocks, this`branches, this`functionReferences, this`jumpTableReferences, this`possibleBlocks,
               executor`stack
      ensures r.Failure? <==> Errs(code, scope, found, blockStart, addr)
      ensures r.Success? && r.value.End? ==> !r.value.value && Ends(code, scope, found, addr)
      ensures r.Success? && !r.value.End? ==>
                && !Ends(code, scope, found, addr) && r.value == Answer(code, scope, found, blockStart, addr)
                && Is(AfterStep(code, scope, found, blockStart, addr), executor.visited)
                && Answered(code, executor, addr, blockStart, r.value)
    {
      r := Success(EndBlock);
      match code.step(addr) {
        case Fall =>
          var answer := OnFall(code, scope, executor, addr, blockStart, found);
          r := Success(answer);
        case Illegal(zero) =>
          r := Success(if zero then End(false) else Continue);
        case JumpUnknown(unrecovered) =>
          OnUnknownJump(code, scope, executor, addr, blockStart, unrecovered, found);
        case JumpReturn =>
          CloseBlock(code, executor, blockStart, addr, None, found);
        case JumpTo(target) =>
          r := OnJump(code, scope, executor, addr, blockStart, target, found);
        case JumpTable(table, entries, size) =>
          if entries.None? {
            return Failure;
          }
          OnJumpTable(code, scope, executor, addr, blockStart, table, entries.value, size, found);
        case Branch(edges) =>
          var ok := OnBranch(code, scope, executor, addr, blockStart, edges, found);
          if !ok {
            return Failure;
          }
      }
    }

    /** One call: checks, the test for another function, and the `match`. */
    method InstructionCallback(code: Code, scope: Scope, executor: Executor, addr: int, blockStart: int,
                               ghost moment: Moment)
      returns (r: Result<CbResult<bool>>)
      requires NoIllegalStep(code)
      requires Running(code, executor, blockStart, addr) && Is(moment.found, executor.visited)
      requires blockStart == StartAt(moment, addr) && addr in executor.visited
      modifies this`blocks, this`branches, this`functionReferences, this`jumpTableReferences, this`possibleBlocks,
               executor`stack
      ensures r.Failure? <==> Errs(code, scope, moment.found, blockStart, addr)
      ensures r.Success? && r.value.End? ==> !r.value.value && Ends(code, scope, moment.found, addr)
      ensures r.Success? && !r.value.End? ==>
                && !Ends(code, scope, moment.found, addr)
                && r.value == Answer(code, scope, moment.found, blockStart, addr)
                && Is(Ran(code, scope, moment, addr).found, executor.visited)
                && Answered(code, executor, addr, blockStart, r.value)
    {
      if !code.checks(addr) {
        return Failure;
      }
      possibleBlocks := possibleBlocks - {addr};
      if OtherFunction(scope, addr).Some? {
        return Success(End(false));
      }
      r := Step(code, scope, executor, addr, blockStart, moment.found);
    }

    /** The run so far: what has been found is the replay of what was executed. */
    ghost predicate Tracked(code: Code, scope: Scope, executor: Executor)
      reads this, executor
    {
      && executor.lo == code.lo && executor.hi == code.hi
      && executor.visited == Addresses(executor.trace)
      && entry in blocks && Rooted(code, scope, entry, executor.visited, blocks.Keys, roots)
      && Explored(code, scope, entry, roots, executor.trace)
      && Is(Replay(code, scope, entry, executor.trace).found, executor.visited)
    }

    ghost predicate Idle(code: Code, scope: Scope, executor: Executor)
      reads this, executor
    {
      && Settled(code, executor) && Tracked(code, scope, executor)
      && Replay(code, scope, entry, executor.trace).running.None?
    }

    /** About to run `addr`, which extends the block from `blockStart`. */
    ghost predicate Poised(code: Code, scope: Scope, executor: Executor, blockStart: int, addr: int)
      reads this, executor
    {
      && addr !in executor.visited && Sourced(code, roots, executor.visited, addr)
      && AllSourced(code, roots, executor.visited, executor.stack)
      && InProgress(blocks, executor.visited + {addr}, executor.stack, blockStart, addr)
      && Tracked(code, scope, executor)
      && Extends(Replay(code, scope, entry, executor.trace), executor.trace, blockStart, addr)
    }

    /** How a run came out. */
    ghost predicate Outcome(code: Code, scope: Scope, executor: Executor, r: Result<Option<bool>>)
      reads this, executor
    {
      match r
      case Success(None) => Idle(code, scope, executor)
      case Success(Some(value)) => !value && StoppedAt(code, scope, entry, roots, executor.trace, false)
      case Failure => Failed(code, scope, entry, roots, executor.trace)
    }

    method RunInstruction(code: Code, scope: Scope, executor: Executor, blockStart: int, addr: int)
      returns (r: Result<CbResult<bool>>)
      requires NoIllegalStep(code)
      requires executor.lo <= addr < executor.hi
      requires Poised(code, scope, executor, blockStart, addr)
      modifies this, executor
      ensures entry == old(entry) && roots == old(roots)
      ensures executor.Unvisited() < old(executor.Unvisited())
      ensures r == Success(Continue) ==> Poised(code, scope, executor, blockStart, addr + 1)
      ensures r.Success? && r.value.Jump? ==> Poised(code, scope, executor, r.value.addr, r.value.addr)
      ensures r == Success(EndBlock) ==> Idle(code, scope, executor)
      ensures r == Failure ==> StoppedAt(code, scope, entry, roots, executor.trace, true)
      ensures r.Success? && r.value.End? ==>
                !r.value.value && StoppedAt(code, scope, entry, roots, executor.trace, false)
    {
      r := VisitAndCall(code, scope, executor, blockStart, addr);
      match r
      case Success(Continue) =>
        Advance(blocks, executor.visited, executor.stack, blockStart, addr);
      case Success(Jump(target)) =>
        BlockMap.Start(blocks, executor.visited, executor.stack + [target], executor.stack, target);
      case _ =>
    }

    /** Visits the address and calls the callback for it. */
    method VisitAndCall(code: Code, scope: Scope, executor: Executor, blockStart: int, addr: int)
      returns (r: Result<CbResult<bool>>)
      requires NoIllegalStep(code)
      requires executor.lo <= addr < executor.hi
      requires Poised(code, scope, executor, blockStart, addr)
      modifies this, executor
      ensures entry == old(entry) && roots == old(roots) && executor.trace == old(executor.trace) + [addr]
      ensures executor.Unvisited() < old(executor.Unvisited())
      ensures r.Failure? ==> StoppedAt(code, scope, entry, roots, executor.trace, true)
      ensures r.Success? && r.value.End? ==>
                !r.value.value && StoppedAt(code, scope, entry, roots, executor.trace, false)
      ensures r.Success? && !r.value.End? ==>
                && Tracked(code, scope, executor) && Answered(code, executor, addr, blockStart, r.value)
                && Replay(code, scope, entry, executor.trace).running
                   == if r.value == Continue then Some(blockStart) else None
    {
      ghost var before, moment := executor.trace, Replay(code, scope, entry, executor.trace);
      AddressesMore(before, addr);
      RemainingShrinks(executor.lo, executor.hi, executor.visited, executor.visited + {addr});
      executor.Visit(addr);
      assert MayRun(code, scope, entry, roots, before, addr);
      r := InstructionCallback(code, scope, executor, addr, blockStart, moment);
      if r.Success? && !r.value.End? {
        GoneOn(code, scope, executor, before, addr, old(executor.visited), old(blocks.Keys));
      } else {
        Stopped(code, scope, entry, roots, before, addr, r.Failure?);
      }
    }

    lemma GoneOn(code: Code, scope: Scope, executor: Executor, before: seq<int>, addr: int, seen: set<int>,
                 starts: set<int>)
      requires executor.trace == before + [addr] && executor.visited == Addresses(before) + {addr}
      requires executor.lo == code.lo && executor.hi == code.hi && seen <= executor.visited && entry in starts
      requires Rooted(code, scope, entry, seen, starts, roots) && Explored(code, scope, entry, roots, before)
      requires MayRun(code, scope, entry, roots, before, addr)
      requires var moment := Replay(code, scope, entry, before);
               && starts == moment.found.blocks.Keys
               && !Ends(code, scope, moment.found, addr)
               && !Errs(code, scope, moment.found, StartAt(moment, addr), addr)
               && Is(Ran(code, scope, moment, addr).found, executor.visited)
      ensures Tracked(code, scope, executor)
      ensures Replay(code, scope, entry, executor.trace)
              == Ran(code, scope, Replay(code, scope, entry, before), addr)
    {
      var moment := Replay(code, scope, entry, before);
      ExploredMore(code, scope, entry, roots, before, addr);
      StepKeys(code, scope, moment.found, StartAt(moment, addr), addr);
      RootedKept(code, scope, entry, seen, starts, roots, executor.visited, blocks.Keys);
    }

    /** One round of the executor's inner loop: where it goes on from, or what it stops with. */
    method RunStep(code: Code, scope: Scope, executor: Executor, blockStart: int, addr: int)
      returns (stop: Option<Result<Option<bool>>>, blockStart': int, addr': int)
      requires NoIllegalStep(code)
      requires Poised(code, scope, executor, blockStart, addr)
      modifies this, executor
      ensures entry == old(entry) && roots == old(roots) && executor.Unvisited() <= old(executor.Unvisited())
      ensures stop.None? ==>
                Poised(code, scope, executor, blockStart', addr') && executor.Unvisited() < old(executor.Unvisited())
      ensures stop.Some? ==> Outcome(code, scope, executor, stop.value)
      ensures stop == Some(Success(None)) ==> executor.Unvisited() < old(executor.Unvisited())
    {
      stop, blockStart', addr' := None, blockStart, addr + 1;
      if !(executor.lo <= addr < executor.hi) {
        return Some(Failure), blockStart, addr;
      }
      var answer := RunInstruction(code, scope, executor, blockStart, addr);
      match answer
      case Failure =>
        stop := Some(Failure);
      case Success(Continue) =>
      case Success(Jump(target)) =>
        blockStart', addr' := target, target;
      case Success(EndBlock) =>
        stop := Some(Success(None));
      case Success(End(value)) =>
        stop := Some(Success(Some(value)));
    }

    /** The executor's inner loop with this callback. */
    method RunBlock(code: Code, scope: Scope, executor: Executor, start: int) returns (r: Result<Option<bool>>)
      requires NoIllegalStep(code)
      requires executor.lo <= start < executor.hi
      requires Poised(code, scope, executor, start, start)
      modifies this, executor
      ensures entry == old(entry) && roots == old(roots) && Outcome(code, scope, executor, r)
      ensures executor.Unvisited() <= old(executor.Unvisited())
      ensures r == Success(None) ==> executor.Unvisited() < old(executor.Unvisited())
    {
      var stop, blockStart, addr := RunStep(code, scope, executor, start, start);
      while stop.None?
        invariant executor.Unvisited() <= old(executor.Unvisited()) && entry == old(entry) && roots == old(roots)
        invariant stop.None? ==> Poised(code, scope, executor, blockStart, addr)
        invariant stop.Some? ==> Outcome(code, scope, executor, stop.value)
        invariant stop == Some(Success(None)) ==> executor.Unvisited() < old(executor.Unvisited())
        decreases executor.Unvisited(), stop.None?
      {
        stop, blockStart, addr := RunStep(code, scope, executor, blockStart, addr);
      }
      return stop.value;
    }

    /** One round of the executor's outer loop: the next unvisited entry, if there is one. */
    method RunNext(code: Code, scope: Scope, executor: Executor) returns (r: Result<Option<bool>>, ran: bool)
      requires NoIllegalStep(code) && Idle(code, scope, executor)
      modifies this, executor
      ensures entry == old(entry) && roots == old(roots) && Outcome(code, scope, executor, r)
      ensures executor.Unvisited() <= old(executor.Unvisited())
      ensures r == Success(None) && ran ==> executor.Unvisited() < old(executor.Unvisited())
      ensures r == Success(None) && !ran ==> executor.stack == []
      ensures r == Success(None) && old(executor.TopUnvisited()) ==> ran
    {
      ghost var stackBefore := executor.stack;
      var popped, skipped := executor.PopUnvisited();
      if popped.Drained? {
        PoppedKeeps(blocks, executor.visited, stackBefore, [], skipped);
        return Success(None), false;
      }
      assert popped.addr in stackBefore;
      if popped.Outside? {
        return Failure, false;
      }
      PoppedKeeps(blocks, executor.visited, stackBefore, executor.stack + [popped.addr], skipped);
      BlockMap.Start(blocks, executor.visited, executor.stack + [popped.addr], executor.stack, popped.addr);
      r := RunBlock(code, scope, executor, popped.addr);
      ran := true;
    }

    /** `executor.run` with this callback. */
    method Run(code: Code, scope: Scope, executor: Executor) returns (r: Result<Option<bool>>)
      requires NoIllegalStep(code) && Idle(code, scope, executor)
      modifies this, executor
      ensures entry == old(entry) && roots == old(roots) && Outcome(code, scope, executor, r)
      ensures r == Success(None) ==> executor.stack == []
      ensures executor.Unvisited() <= old(executor.Unvisited())
      ensures r == Success(None) && old(executor.TopUnvisited()) ==> executor.Unvisited() < old(executor.Unvisited())
    {
      var ran;
      r, ran := RunNext(code, scope, executor);
      while r == Success(None) && ran
        invariant Outcome(code, scope, executor, r)
        invariant r == Success(None) && !ran ==> executor.stack == []
        invariant executor.Unvisited() <= old(executor.Unvisited()) && entry == old(entry) && roots == old(roots)
        invariant r == Success(None) && (ran || old(executor.TopUnvisited())) ==>
                    executor.Unvisited() < old(executor.Unvisited())
        decreases executor.Unvisited(), r == Success(None) && ran
      {
        r, ran := RunNext(code, scope, executor);
      }
    }

    /** The first closed block that the next start does not follow at once, with where it ends. */
    method FirstDisconnectedBlock() returns (r: Option<(int, int)>)
      ensures r.Some? ==> r.value.0 in blocks && blocks[r.value.0] == Some(r.value.1) && GapAfter(blocks, r.value.0)
      ensures r.None? ==> NoGap(blocks)
    {
      if blocks == map[] {
        return None;
      }
      var first := Least(blocks.Keys);
      ghost var last := Greatest(blocks.Keys);
      var second := Next(blocks, first);
      while second.Some?
        invariant first in blocks && second == Next(blocks, first)
        invariant forall k | k in blocks && k < first :: !GapAfter(blocks, k)
        decreases last - first
      {
        if blocks[first].Some? && blocks[second.value].Some? && second.value > blocks[first].value {
          return Some((first, blocks[first].value));
        }
        first := second.value;
        second := Next(blocks, first);
      }
      r := None;
    }

    /** The nops after `end` are passed over, up to `knownEnd`. */
    method SkipNops(code: Code, end: int, knownEnd: int) returns (r: int)
      ensures end <= r && (r == end || r <= knownEnd) && Nops(code, end, r)
    {
      r := end;
      while r < knownEnd && code.lo <= r < code.hi && code.nop(r)
        invariant end <= r && (r == end || r <= knownEnd) && Nops(code, end, r)
        decreases knownEnd - r
      {
        r := r + 1;
      }
    }

    method RunFrom(code: Code, scope: Scope, executor: Executor, addr: int) returns (r: Result<Option<bool>>)
      requires NoIllegalStep(code) && Idle(code, scope, executor) && executor.stack == []
      requires addr !in executor.visited && Root(code, scope, entry, executor.visited, blocks.Keys, addr)
      modifies this, executor
      ensures entry == old(entry) && roots >= old(roots) && Outcome(code, scope, executor, r)
      ensures r == Success(None) ==> executor.stack == []
      ensures executor.Unvisited() <= old(executor.Unvisited())
      ensures r == Success(None) ==> executor.Unvisited() < old(executor.Unvisited())
    {
      MoreRoots(code, scope, entry, roots, executor.trace, roots + {addr});
      roots := roots + {addr};
      executor.Push(addr, true);
      OneLeft(executor.stack, addr);
      r := Run(code, scope, executor);
    }

    /** Blocks between two closed ones that nothing known jumps to are run as well. */
    method VisitUnreachable(code: Code, scope: Scope, executor: Executor) returns (r: Result<Option<bool>>)
      requires NoIllegalStep(code) && Idle(code, scope, executor) && executor.stack == []
      modifies this, executor
      ensures entry == old(entry) && roots >= old(roots) && Outcome(code, scope, executor, r)
      ensures executor.Unvisited() <= old(executor.Unvisited())
      ensures r == Success(None) ==> executor.stack == [] && NoGap(blocks)
    {
      r := Success(None);
      var gap := FirstDisconnectedBlock();
      while gap.Some?
        invariant r == Success(None) && Idle(code, scope, executor) && executor.stack == []
        invariant gap.Some? ==>
                    gap.value.0 in blocks && blocks[gap.value.0] == Some(gap.value.1) && GapAfter(blocks, gap.value.0)
        invariant gap.None? ==> NoGap(blocks)
        invariant executor.Unvisited() <= old(executor.Unvisited()) && entry == old(entry) && roots >= old(roots)
        decreases executor.Unvisited()
      {
        r := VisitGap(code, scope, executor, gap.value.0, gap.value.1);
        if r != Success(None) {
          return;
        }
        gap := FirstDisconnectedBlock();
      }
    }

    /** Runs what follows a block that has a gap after it. */
    method VisitGap(code: Code, scope: Scope, executor: Executor, start: int, end: int)
      returns (r: Result<Option<bool>>)
      requires NoIllegalStep(code) && Idle(code, scope, executor) && executor.stack == []
      requires start in blocks && blocks[start] == Some(end) && GapAfter(blocks, start)
      modifies this, executor
      ensures entry == old(entry) && roots >= old(roots) && Outcome(code, scope, executor, r)
      ensures r == Success(None) ==> executor.stack == []
      ensures executor.Unvisited() <= old(executor.Unvisited())
      ensures r == Success(None) ==> executor.Unvisited() < old(executor.Unvisited())
    {
      assert Covers(blocks, start, start);
      possibleBlocks := possibleBlocks - {start};
      GapUnvisited(blocks, executor.visited, executor.stack, start);
      GapRoot(code, scope, entry, blocks, executor.stack, executor.visited, start);
      r := RunFrom(code, scope, executor, end);
    }

    /** What follows the last block is run up to the known end; blocks may then leave gaps. */
    method VisitTrailing(code: Code, scope: Scope, executor: Executor, knownEnd: int) returns (r: Result<Option<bool>>)
      requires NoIllegalStep(code) && Idle(code, scope, executor) && executor.stack == []
      requires scope.end == Some(knownEnd)
      modifies this, executor
      ensures entry == old(entry) && roots >= old(roots) && Outcome(code, scope, executor, r)
      ensures r == Success(None) ==> executor.stack == [] && Reaches(code, blocks, knownEnd)
      ensures executor.Unvisited() <= old(executor.Unvisited())
    {
      r := Success(None);
      while true
        invariant r == Success(None) && Idle(code, scope, executor) && executor.stack == []
        invariant executor.Unvisited() <= old(executor.Unvisited()) && entry == old(entry) && roots >= old(roots)
        decreases executor.Unvisited()
      {
        var last := LastEnd(blocks);
        if last.None? {
          return;
        }
        var end := SkipNops(code, last.value, knownEnd);
        if end >= knownEnd {
          return;
        }
        PastEndUnvisited(blocks, executor.visited, executor.stack, end);
        TrailingRoot(code, scope, entry, blocks, executor.stack, executor.visited, end);
        r := RunFrom(code, scope, executor, end);
        if r != Success(None) {
          return;
        }
      }
    }

    /**
     * The whole analysis, from an empty table. When it succeeds, what has been found is the replay of what was
     * executed, the executed addresses are exactly those of the blocks, which are closed and disjoint, and without
     * a known end they leave no gap. Otherwise it was stopped where the trace ends.
     */
    method Analyze(code: Code, start: int, scope: Scope) returns (r: Result<bool>, ghost trace: seq<int>)
      requires NoIllegalStep(code)
      requires blocks == map[] && branches == map[] && functionReferences == {} && possibleBlocks == {}
               && jumpTableReferences == map[]
      modifies this
      ensures r == Success(true) ==>
                Analyzed(code, scope, start, roots, trace,
                         Found(blocks, branches, functionReferences, possibleBlocks, jumpTableReferences))
      ensures r == Success(true) ==>
                match scope.end case None => Tiles(blocks) case Some(end) => Reaches(code, blocks, end)
      ensures r == Success(false) ==> StoppedAt(code, scope, start, roots, trace, false)
      ensures r == Failure ==> Failed(code, scope, start, roots, trace)
    {
      var isNew := AddBlockStart(start);
      entry, roots := start, {start};
      var executor := new Executor(code.lo, code.hi);
      executor.Push(start, false);
      assert executor.stack == [start];
      var result := RunAll(code, scope, executor);
      trace := executor.trace;
      match result
      case Failure =>
        r := Failure;
      case Success(Some(value)) =>
        r := Success(false);
      case Success(None) =>
        // Every block is closed: an open one would wait on the stack.
        Finished(code, scope, start, roots, trace, executor.visited,
                 Found(blocks, branches, functionReferences, possibleBlocks, jumpTableReferences));
        if scope.end.None? {
          GapFreeTiles(blocks);
        }
        r := Success(true);
    }

    /** The run from the start, and the visits to what it left out. */
    method RunAll(code: Code, scope: Scope, executor: Executor) returns (r: Result<Option<bool>>)
      requires NoIllegalStep(code) && Idle(code, scope, executor)
      modifies this, executor
      ensures Outcome(code, scope, executor, r) && entry == old(entry) && roots >= old(roots)
      ensures r == Success(None) ==> executor.stack == []
      ensures r == Success(None) ==>
                match scope.end case None => NoGap(blocks) case Some(end) => Reaches(code, blocks, end)
    {
      r := Run(code, scope, executor);
      if r != Success(None) {
        return;
      }
      r := VisitUnreachable(code, scope, executor);
      if r != Success(None) {
        return;
      }
      if scope.end.Some? {
        r := VisitTrailing(code, scope, executor, scope.end.value);
      }
    }
  }
}
