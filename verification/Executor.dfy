/**
 * The branched executor of src/analysis/executor.rs over one code section. An address is the index
 * of a 4-byte word, as `VisitedAddresses::bit_for` computes it, so the next instruction is at `+ 1`.
 */
module Executors {
  import opened Wrappers

  datatype CbResult<+R> = Continue | Jump(addr: int) | EndBlock | End(value: R)

  /** What the callback is shown: the instruction, the start of its block, and `executor.visited`. */
  datatype CbData = CbData(addr: int, blockStart: int, visited: set<int>)

  datatype StackPush = StackPush(addr: int, sort: bool)

  /** One call of an `FnMut` callback: its captured state afterwards, the pushes it made, its answer. */
  datatype CbEffect<+S, +R> = CbEffect(state: S, pushes: seq<StackPush>, answer: Result<CbResult<R>>)

  datatype Call<+S, +R> = Call(before: S, data: CbData, effect: CbEffect<S, R>)

  datatype Popped = Drained | Outside(addr: int) | Block(addr: int)

  ghost predicate Ascending(s: seq<int>) {
    forall i, j :: 0 <= i < j < |s| ==> s[i] <= s[j]
  }

  /** `sort_by_key`, lowest first; only addresses are kept, so stability is invisible. */
  function Sorted(s: seq<int>): (r: seq<int>)
    ensures multiset(r) == multiset(s)
    ensures Ascending(r)
  {
    if s == [] then [] else
      assert s == [s[0]] + s[1..];
      Insert(Sorted(s[1..]), s[0])
  }

  function Insert(s: seq<int>, x: int): (r: seq<int>)
    requires Ascending(s)
    ensures multiset(r) == multiset(s) + multiset{x}
    ensures forall v :: v in r <==> v == x || v in s
    ensures Ascending(r)
  {
    if s == [] then [x]
    else if x <= s[0] then AscendingCons(x, s); [x] + s
    else
      assert s == [s[0]] + s[1..];
      var rest := Insert(s[1..], x);
      AscendingCons(s[0], rest);
      [s[0]] + rest
  }

  lemma AscendingCons(x: int, s: seq<int>)
    requires Ascending(s) && forall v | v in s :: x <= v
    ensures Ascending([x] + s)
  {
    var r := [x] + s;
    forall i, j | 0 <= i < j < |r| ensures r[i] <= r[j] {
      assert r[j] == s[j - 1] && s[j - 1] in s && (i > 0 ==> r[i] == s[i - 1]);
    }
  }

  /** The log of a run is a chain: each call starts in the state the one before left. */
  ghost predicate Chained<S, R>(cb: (S, CbData) -> CbEffect<S, R>, first: S, calls: seq<Call<S, R>>, last: S) {
    if calls == [] then last == first else
      var n := |calls| - 1;
      && Chained(cb, first, calls[..n], calls[n].before)
      && calls[n].effect == cb(calls[n].before, calls[n].data)
      && last == calls[n].effect.state
  }

  ghost function Executed<S, R>(calls: seq<Call<S, R>>): seq<int> {
    if calls == [] then [] else Executed(calls[..|calls| - 1]) + [calls[|calls| - 1].data.addr]
  }

  ghost function VisitedBy<S, R>(before: set<int>, calls: seq<Call<S, R>>): set<int> {
    if calls == [] then before else VisitedBy(before, calls[..|calls| - 1]) + {calls[|calls| - 1].data.addr}
  }

  ghost function PushedBy<S, R>(calls: seq<Call<S, R>>): set<int> {
    if calls == [] then {} else
      var n := |calls| - 1;
      PushedBy(calls[..n]) + set p | p in calls[n].effect.pushes :: p.addr
  }

  /** The last call ended its block, or jumped to visited code: the next entry comes off the stack. */
  ghost predicate Rested<S, R>(calls: seq<Call<S, R>>, visited: set<int>) {
    calls == [] ||
    match calls[|calls| - 1].effect.answer
    case Success(EndBlock) => true
    case Success(Jump(target)) => target in visited
    case _ => false
  }

  /** The address was on the stack at first, or has been pushed. */
  ghost predicate Entered<S, R>(stack: seq<int>, calls: seq<Call<S, R>>, addr: int) {
    addr in stack || addr in PushedBy(calls)
  }

  /** Where a run goes next: on from a `Continue`, to an unvisited jump target, else to an unvisited entry. */
  ghost predicate RunsNext<S, R>(stack: seq<int>, calls: seq<Call<S, R>>, visited: set<int>, addr: int) {
    || (Rested(calls, visited) && addr !in visited && Entered(stack, calls, addr))
    || (calls != [] && calls[|calls| - 1].effect.answer == Success(Continue)
        && addr == calls[|calls| - 1].data.addr + 1)
    || (calls != [] && calls[|calls| - 1].effect.answer == Success(Jump(addr)) && addr !in visited)
  }

  /** The block goes on only after a `Continue`; every other address starts one. */
  ghost function BlockOf<S, R>(calls: seq<Call<S, R>>, addr: int): int {
    if calls != [] && calls[|calls| - 1].effect.answer == Success(Continue) then calls[|calls| - 1].data.blockStart
    else addr
  }

  /** Every call ran where the one before it sent the run, and was shown its block and what had been visited. */
  ghost predicate InOrder<S, R>(stack: seq<int>, before: set<int>, calls: seq<Call<S, R>>) {
    calls == [] ||
    var n := |calls| - 1;
    var visited, data := VisitedBy(before, calls[..n]), calls[n].data;
    && InOrder(stack, before, calls[..n]) && RunsNext(stack, calls[..n], visited, data.addr)
    && data.blockStart == BlockOf(calls[..n], data.addr) && data.visited == visited + {data.addr}
  }

  /** Why a run fails: the last call did, or the run goes on to an address outside the section, visited or not. */
  ghost predicate Fails<S, R>(stack: seq<int>, calls: seq<Call<S, R>>, visited: set<int>, lo: int, hi: int) {
    || (calls != [] && calls[|calls| - 1].effect.answer == Failure)
    || (exists addr :: !(lo <= addr < hi) && RunsNext(stack, calls, visited, addr))
    || (Rested(calls, visited) && exists addr :: !(lo <= addr < hi) && Entered(stack, calls, addr))
  }

  /** How many addresses of `[lo, hi)` are not in `visited`. */
  ghost function Remaining(lo: int, hi: int, visited: set<int>): nat
    decreases hi - lo
  {
    if lo < hi then (if lo in visited then 0 else 1) + Remaining(lo + 1, hi, visited) else 0
  }

  lemma {:induction false} RemainingShrinks(lo: int, hi: int, before: set<int>, after: set<int>)
    requires before <= after
    ensures Remaining(lo, hi, after) <= Remaining(lo, hi, before)
    ensures forall a | lo <= a < hi && a !in before && a in after ::
              Remaining(lo, hi, after) < Remaining(lo, hi, before)
    decreases hi - lo
  {
    if lo < hi {
      RemainingShrinks(lo + 1, hi, before, after);
    }
  }

  /** The executor a log starts from. */
  datatype Origin = Origin(stack: seq<int>, visited: set<int>, trace: seq<int>)

  /** What a log says of the executor it started from and the one it has reached. */
  ghost predicate Logged<S, R>(
    cb: (S, CbData) -> CbEffect<S, R>, first: S, calls: seq<Call<S, R>>, last: S,
    origin: Origin, visited: set<int>, trace: seq<int>)
  {
    && Chained(cb, first, calls, last)
    && trace == origin.trace + Executed(calls)
    && visited == VisitedBy(origin.visited, calls)
    && InOrder(origin.stack, origin.visited, calls)
  }

  lemma LogCall<S, R>(
    cb: (S, CbData) -> CbEffect<S, R>, first: S, calls: seq<Call<S, R>>, last: S,
    origin: Origin, visited: set<int>, trace: seq<int>, data: CbData)
    requires Logged(cb, first, calls, last, origin, visited, trace)
    requires RunsNext(origin.stack, calls, visited, data.addr)
    requires data.blockStart == BlockOf(calls, data.addr) && data.visited == visited + {data.addr}
    ensures Logged(cb, first, calls + [Call(last, data, cb(last, data))], cb(last, data).state,
                   origin, visited + {data.addr}, trace + [data.addr])
  {
    var more := calls + [Call(last, data, cb(last, data))];
    assert more[..|more| - 1] == calls;
  }

  /** Nothing pushed is lost: it is still on the stack, visited, or the one entry in hand. */
  ghost predicate NoneLost<S, R>(stackFirst: seq<int>, calls: seq<Call<S, R>>, stack: seq<int>, visited: set<int>,
                                 inHand: set<int>) {
    forall a :: a in stackFirst || a in PushedBy(calls) ==> a in stack || a in visited || a in inHand
  }

  /** Nothing is on the stack that was not there at first or pushed. */
  ghost predicate AllEntered<S, R>(stackFirst: seq<int>, calls: seq<Call<S, R>>, stack: seq<int>) {
    forall a | a in stack :: Entered(stackFirst, calls, a)
  }

  lemma PushesKept<S, R>(
    stackFirst: seq<int>, calls: seq<Call<S, R>>, stack: seq<int>, visited: set<int>, inHand: set<int>,
    call: Call<S, R>, stackNow: seq<int>)
    requires NoneLost(stackFirst, calls, stack, visited, inHand) && AllEntered(stackFirst, calls, stack)
    requires forall a :: a in stackNow <==> a in stack || exists p :: p in call.effect.pushes && p.addr == a
    ensures NoneLost(stackFirst, calls + [call], stackNow, visited, inHand)
            && AllEntered(stackFirst, calls + [call], stackNow)
  {
    assert (calls + [call])[..|calls|] == calls;
    forall p | p in call.effect.pushes ensures p.addr in stackNow {
    }
  }

  class Executor {
    const lo: int
    const hi: int
    var stack: seq<int>
    var visited: set<int>
    /** Every address executed, in order. */
    ghost var trace: seq<int>

    constructor (lo: int, hi: int)
      ensures this.lo == lo && this.hi == hi && stack == [] && visited == {} && trace == []
    {
      this.lo, this.hi := lo, hi;
      stack, visited, trace := [], {}, [];
    }

    ghost function Unvisited(): nat
      reads this
    {
      Remaining(lo, hi, visited)
    }

    ghost predicate TopUnvisited()
      reads this
    {
      stack != [] && stack[|stack| - 1] !in visited
    }

    method Push(addr: int, sort: bool)
      modifies this`stack
      ensures multiset(stack) == multiset(old(stack)) + multiset{addr}
      ensures sort ==> forall i, j :: 0 <= i < j < |stack| ==> stack[i] <= stack[j]
      ensures !sort ==> stack == old(stack) + [addr]
    {
      stack := stack + [addr];
      if sort {
        stack := Sorted(stack);
      }
    }

    /** Takes entries off the top until one is unvisited; visited ones are dropped. */
    method PopUnvisited() returns (r: Popped, ghost skipped: seq<int>)
      modifies this`stack
      ensures forall a | a in skipped :: a in visited
      ensures r.Drained? ==> stack == [] && old(stack) == skipped
      ensures !r.Drained? ==> old(stack) == stack + [r.addr] + skipped
      ensures r.Outside? ==> !(lo <= r.addr < hi)
      ensures r.Block? ==> lo <= r.addr < hi && r.addr !in visited
    {
      skipped := [];
      while |stack| > 0
        invariant old(stack) == stack + skipped
        invariant forall a | a in skipped :: a in visited
        decreases |stack|
      {
        var addr := stack[|stack| - 1];
        stack := stack[..|stack| - 1];
        assert old(stack) == stack + [addr] + skipped;
        if !(lo <= addr < hi) {
          return Outside(addr), skipped;
        }
        if addr !in visited {
          return Block(addr), skipped;
        }
        skipped := [addr] + skipped;
      }
      r := Drained;
    }

    /** Marks one instruction executed. */
    method Visit(addr: int)
      modifies this`visited, this`trace
      ensures visited == old(visited) + {addr} && trace == old(trace) + [addr]
    {
      visited := visited + {addr};
      trace := trace + [addr];
    }

    method PushAll(pushes: seq<StackPush>)
      modifies this`stack
      ensures forall a :: a in stack <==> a in old(stack) || exists p :: p in pushes && p.addr == a
    {
      for i := 0 to |pushes|
        invariant forall a :: a in stack <==> a in old(stack) || exists p :: p in pushes[..i] && p.addr == a
      {
        ghost var before := stack;
        Push(pushes[i].addr, pushes[i].sort);
        assert pushes[..i + 1] == pushes[..i] + [pushes[i]];
        forall a ensures a in stack <==> a in before || a == pushes[i].addr {
          assert a in stack <==> a in multiset(stack);
          assert a in before <==> a in multiset(before);
        }
      }
      assert pushes[..|pushes|] == pushes;
    }

    /** One iteration of the inner loop: visit, call, and take the pushes. */
    method Execute<S, R>(
      cb: (S, CbData) -> CbEffect<S, R>, state: S, addr: int, blockStart: int,
      ghost first: S, ghost calls: seq<Call<S, R>>, ghost origin: Origin, ghost inHand: set<int>)
      returns (effect: CbEffect<S, R>, ghost calls': seq<Call<S, R>>)
      requires lo <= addr < hi
      requires Logged(cb, first, calls, state, origin, visited, trace)
      requires RunsNext(origin.stack, calls, visited, addr) && blockStart == BlockOf(calls, addr)
      requires NoneLost(origin.stack, calls, stack, visited, inHand) && AllEntered(origin.stack, calls, stack)
      modifies this
      ensures visited == old(visited) + {addr}
      ensures |calls'| > 0 && calls'[|calls'| - 1].effect == effect
      ensures calls'[|calls'| - 1].data.addr == addr && calls'[|calls'| - 1].data.blockStart == blockStart
      ensures Logged(cb, first, calls', effect.state, origin, visited, trace)
      ensures NoneLost(origin.stack, calls', stack, visited, inHand) && AllEntered(origin.stack, calls', stack)
    {
      LogCall(cb, first, calls, state, origin, visited, trace, CbData(addr, blockStart, visited + {addr}));
      Visit(addr);
      var data := CbData(addr, blockStart, visited);
      effect := cb(state, data);
      PushAll(effect.pushes);
      calls' := calls + [Call(state, data, effect)];
      PushesKept(origin.stack, calls, old(stack), visited, inHand, Call(state, data, effect), stack);
    }

    /**
     * The inner loop, from the entry `start` just popped. The measure is the unvisited addresses but
     * the current one, then the distance to the section's end: what a `Continue` over visited code
     * still shortens.
     */
    method RunBlock<S, R>(
      cb: (S, CbData) -> CbEffect<S, R>, state: S, start: int,
      ghost first: S, ghost callsBefore: seq<Call<S, R>>, ghost origin: Origin)
      returns (last: S, r: Result<Option<R>>, ghost calls: seq<Call<S, R>>)
      requires lo <= start < hi && start !in visited && Rested(callsBefore, visited)
               && Entered(origin.stack, callsBefore, start)
      requires Logged(cb, first, callsBefore, state, origin, visited, trace)
      requires NoneLost(origin.stack, callsBefore, stack, visited, {start})
               && AllEntered(origin.stack, callsBefore, stack)
      modifies this
      ensures start in visited && visited >= old(visited)
      ensures r == Success(None) ==> Rested(calls, visited)
      ensures Logged(cb, first, calls, last, origin, visited, trace)
      ensures NoneLost(origin.stack, calls, stack, visited, {start}) && AllEntered(origin.stack, calls, stack)
      ensures r == Failure ==> Fails(origin.stack, calls, visited, lo, hi)
      ensures r.Success? && r.value.Some? ==>
                |calls| > 0 && calls[|calls| - 1].effect.answer == Success(End(r.value.value))
    {
      last, calls := state, callsBefore;
      var blockStart, addr := start, start;
      while true
        invariant start in visited || (addr == start && visited == old(visited))
        invariant visited >= old(visited)
        invariant lo <= addr
        invariant Logged(cb, first, calls, last, origin, visited, trace)
        invariant NoneLost(origin.stack, calls, stack, visited, {start}) && AllEntered(origin.stack, calls, stack)
        invariant RunsNext(origin.stack, calls, visited, addr) && blockStart == BlockOf(calls, addr)
        decreases Remaining(lo, hi, visited + {addr}), hi - addr
      {
        if !(lo <= addr < hi) {
          return last, Failure, calls;
        }
        ghost var before := visited;
        var effect;
        effect, calls := Execute(cb, last, addr, blockStart, first, calls, origin, {start});
        last := effect.state;
        match effect.answer
        case Failure =>
          return last, Failure, calls;
        case Success(Continue) =>
          RemainingShrinks(lo, hi, before + {addr}, visited + {addr + 1});
          addr := addr + 1;
        case Success(Jump(target)) =>
          if target in visited {
            return last, Success(None), calls;
          }
          if !(lo <= target < hi) {
            assert RunsNext(origin.stack, calls, visited, target);
            return last, Failure, calls;
          }
          RemainingShrinks(lo, hi, before + {addr}, visited + {target});
          blockStart, addr := target, target;
        case Success(EndBlock) =>
          return last, Success(None), calls;
        case Success(End(value)) =>
          return last, Success(Some(value)), calls;
      }
    }

    /** Runs any callback to the end; each round of the outer loop visits an unvisited address. */
    method Run<S, R>(cb: (S, CbData) -> CbEffect<S, R>, first: S)
      returns (last: S, r: Result<Option<R>>, ghost calls: seq<Call<S, R>>)
      modifies this
      ensures Logged(cb, first, calls, last, Origin(old(stack), old(visited), old(trace)), visited, trace)
      ensures r == Success(None) ==> stack == [] && NoneLost(old(stack), calls, [], visited, {})
      ensures r == Failure ==> Fails(old(stack), calls, visited, lo, hi)
      ensures r.Success? && r.value.Some? ==>
                |calls| > 0 && calls[|calls| - 1].effect.answer == Success(End(r.value.value))
    {
      last, calls, r := first, [], Success(None);
      ghost var origin := Origin(stack, visited, trace);
      while r == Success(None)
        invariant Logged(cb, first, calls, last, origin, visited, trace)
        invariant NoneLost(origin.stack, calls, stack, visited, {}) && AllEntered(origin.stack, calls, stack)
        invariant r == Failure ==> Fails(origin.stack, calls, visited, lo, hi)
        invariant r == Success(None) ==> Rested(calls, visited)
        invariant r.Success? && r.value.Some? ==>
                    |calls| > 0 && calls[|calls| - 1].effect.answer == Success(End(r.value.value))
        decreases Unvisited(), r == Success(None)
      {
        ghost var entries := stack;
        var popped, skipped := PopUnvisited();
        assert !popped.Drained? ==> popped.addr in entries;
        if popped.Drained? {
          break;
        }
        if popped.Outside? {
          assert Entered(origin.stack, calls, popped.addr);
          return last, Failure, calls;
        }
        ghost var before := visited;
        last, r, calls := RunBlock(cb, last, popped.addr, first, calls, origin);
        RemainingShrinks(lo, hi, before, visited);
      }
    }
  }
}
