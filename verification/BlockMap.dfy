/**
 * The block table of src/analysis/slices.rs on its own: starts mapped to ends, an open block having
 * none. What the analysis keeps true of it is one invariant on the table, the visited addresses and
 * the executor's stack; a block in progress is the same invariant on the table with it closed early.
 */
module BlockMap {
  import opened Wrappers
  import opened OrderedKeys

  type Blocks = map<int, Option<int>>

  ghost predicate Covers(b: Blocks, k: int, a: int) {
    k in b && b[k].Some? && k <= a < b[k].value
  }

  ghost predicate Covered(b: Blocks, a: int) {
    exists k :: Covers(b, k, a)
  }

  /** A closed block is non-empty and ends by the next start, so closed blocks are disjoint. */
  ghost predicate Separate(b: Blocks) {
    && (forall k | k in b && b[k].Some? :: k < b[k].value)
    && (forall j, k | j in b && k in b && j < k && b[j].Some? :: b[j].value <= k)
  }

  ghost predicate Consistent(b: Blocks, visited: set<int>, stack: seq<int>) {
    && Separate(b)
    && (forall a :: a in visited <==> Covered(b, a))
    && (forall k | k in b && b[k].None? :: k in stack)
  }

  /** The block from `start` has run through `last` and is not in the table as closed. */
  ghost predicate InProgress(b: Blocks, visited: set<int>, stack: seq<int>, start: int, last: int) {
    && start <= last
    && (start in b ==> b[start].None?)
    && Consistent(b[start := Some(last + 1)], visited, stack)
  }

  ghost predicate AllClosed(b: Blocks) {
    forall k | k in b :: b[k].Some?
  }

  /** `add_block_start`: splits the block that holds `addr`, or opens one there; true if it is new. */
  function AddStart(b: Blocks, addr: int): (r: (Blocks, bool)) {
    var previous := Floor(b.Keys, addr - 1);
    if previous.Some? && b[previous.value].Some? && b[previous.value].value > addr then
      (b[previous.value := Some(addr)][addr := b[previous.value]], false)
    else if addr in b then (b, false)
    else (b[addr := None], true)
  }

  lemma AddStartKeys(b: Blocks, addr: int)
    ensures AddStart(b, addr).0.Keys == b.Keys + {addr}
    ensures AddStart(b, addr).1 ==> addr !in b && AddStart(b, addr).0[addr].None?
  {
  }

  lemma SplitKeeps(b: Blocks, visited: set<int>, stack: seq<int>, p: int, addr: int)
    requires Consistent(b, visited, stack) && p in b && b[p].Some? && p < addr < b[p].value
    ensures Consistent(b[p := Some(addr)][addr := b[p]], visited, stack)
  {
    var s := b[p := Some(addr)][addr := b[p]];
    assert addr !in b;
    forall a ensures a in visited <==> Covered(s, a) {
      if a in visited {
        var k :| Covers(b, k, a);
        assert Covers(s, if k == p && a >= addr then addr else k, a);
      } else if Covered(s, a) {
        var k :| Covers(s, k, a);
        assert Covers(b, if k == addr then p else k, a);
      }
    }
  }

  lemma OpenKeeps(b: Blocks, visited: set<int>, stack: seq<int>, addr: int)
    requires Consistent(b, visited, stack) && addr !in b && addr in stack
    requires forall j | j in b && j < addr && b[j].Some? :: b[j].value <= addr
    ensures Consistent(b[addr := None], visited, stack) && addr !in visited
  {
    var s := b[addr := None];
    forall a ensures Covered(b, a) <==> Covered(s, a) {
      if Covered(b, a) {
        var k :| Covers(b, k, a);
        assert Covers(s, k, a);
      } else if Covered(s, a) {
        var k :| Covers(s, k, a);
        assert Covers(b, k, a);
      }
    }
    forall k ensures !Covers(s, k, addr) {
    }
  }

  lemma OpenUnvisited(b: Blocks, visited: set<int>, stack: seq<int>, addr: int)
    requires Consistent(b, visited, stack) && addr in b && b[addr].None?
    ensures addr !in visited
  {
    forall k ensures !Covers(b, k, addr) {
    }
  }

  /** Adding a block start keeps the table consistent once a new start is pushed. */
  lemma AddStartKeeps(b: Blocks, visited: set<int>, stack: seq<int>, stack': seq<int>, addr: int)
    requires Consistent(b, visited, stack)
    requires forall a | a in stack :: a in stack'
    requires AddStart(b, addr).1 ==> addr in stack'
    ensures Consistent(AddStart(b, addr).0, visited, stack')
    ensures AddStart(b, addr).1 ==> addr !in visited
  {
    var previous := Floor(b.Keys, addr - 1);
    if previous.Some? && b[previous.value].Some? && b[previous.value].value > addr {
      SplitKeeps(b, visited, stack', previous.value, addr);
    } else if addr !in b {
      OpenKeeps(b, visited, stack', addr);
    }
  }

  /** What a running block has just run is visited. */
  lemma LastVisited(b: Blocks, visited: set<int>, stack: seq<int>, start: int, last: int)
    requires InProgress(b, visited, stack, start, last)
    ensures last in visited
  {
    assert Covers(b[start := Some(last + 1)], start, last);
  }

  /** Running on to the next address keeps the block sound exactly when no block starts there. */
  lemma Advance(b: Blocks, visited: set<int>, stack: seq<int>, start: int, last: int)
    requires InProgress(b, visited, stack, start, last)
    ensures InProgress(b, visited + {last + 1}, stack, start, last + 1) <==> last + 1 !in visited && last + 1 !in b
  {
    var now, next := b[start := Some(last + 1)], b[start := Some(last + 2)];
    assert start in now && now[start].value == last + 1;
    if last + 1 in visited {
      VisitedNextIsStart(b, visited, stack, start, last);
    }
    assert last + 1 in b ==> start in next && last + 1 in next && next[start].value == last + 2;
    if last + 1 !in visited && last + 1 !in b {
      forall a ensures a in visited + {last + 1} <==>
          Covered(next, a) { AdvanceCovers(b, visited, stack, start, last, a); }
      assert forall k | k in b && k != start :: k in now && now[k] == b[k] && next[k] == b[k];
    }
  }

  lemma AdvanceCovers(b: Blocks, visited: set<int>, stack: seq<int>, start: int, last: int, a: int)
    requires InProgress(b, visited, stack, start, last)
    ensures a in visited + {last + 1} <==> Covered(b[start := Some(last + 2)], a)
  {
    var now, next := b[start := Some(last + 1)], b[start := Some(last + 2)];
    if a == last + 1 {
      assert Covers(next, start, a);
    } else if a in visited {
      assert Covered(now, a);
      var k :| Covers(now, k, a);
      assert Covers(next, k, a);
    } else {
      forall k ensures !Covers(next, k, a) {
        assert !Covers(now, k, a);
      }
    }
  }

  /** Starting a block at an unvisited address. */
  lemma Start(b: Blocks, visited: set<int>, stack: seq<int>, stack': seq<int>, start: int)
    requires Consistent(b, visited, stack)
    requires start !in visited
    requires forall a | a in stack && a != start :: a in stack'
    ensures InProgress(b, visited + {start}, stack', start, start)
  {
    var now := b[start := Some(start + 1)];
    assert !Covers(b, start, start);
    forall j | j in b && j < start && b[j].Some? ensures b[j].value <= start {
      assert !Covers(b, j, start);
    }
    forall a ensures a in visited + {start} <==> Covered(now, a) {
      if a == start {
        assert Covers(now, start, a);
      } else if a in visited {
        var k :| Covers(b, k, a);
        assert Covers(now, k, a);
      } else if Covered(now, a) {
        var k :| Covers(now, k, a);
        assert Covers(b, k, a);
      }
    }
  }

  /** If the next address is visited while a block runs towards it, it is a block start. */
  lemma VisitedNextIsStart(b: Blocks, visited: set<int>, stack: seq<int>, start: int, last: int)
    requires InProgress(b, visited, stack, start, last)
    requires last + 1 in visited
    ensures last + 1 in b
  {
    var now := b[start := Some(last + 1)];
    var k :| Covers(now, k, last + 1);
    assert start in now && now[start].value == last + 1;
    assert k == last + 1;
  }

  /** The next start after `k`. */
  function Next(b: Blocks, k: int): Option<int> {
    Ceiling(b.Keys, k + 1)
  }

  /** The space between a closed block and the next start is unvisited. */
  lemma GapUnvisited(b: Blocks, visited: set<int>, stack: seq<int>, k: int)
    requires Consistent(b, visited, stack) && k in b && b[k].Some?
    requires Next(b, k).Some? ==> b[k].value < Next(b, k).value
    ensures b[k].value !in visited
  {
    forall j ensures !Covers(b, j, b[k].value) {
    }
  }

  /** The closed block at `k` ends before the next one, also closed, starts. */
  ghost predicate GapAfter(b: Blocks, k: int)
    requires k in b
  {
    b[k].Some? && Next(b, k).Some? && b[Next(b, k).value].Some? && b[k].value < Next(b, k).value
  }

  /** No closed block is followed by a gap. */
  ghost predicate NoGap(b: Blocks) {
    forall k | k in b :: !GapAfter(b, k)
  }

  /** `start()` and `end()` of a table whose blocks are all closed. */
  function First(b: Blocks): int
    requires b != map[]
  {
    Least(b.Keys)
  }

  function LastEnd(b: Blocks): Option<int> {
    if b == map[] then None else b[Greatest(b.Keys)]
  }

  /** The blocks partition `[start(), end())`: every address there is in exactly one of them. */
  ghost predicate Tiles(b: Blocks) {
    && b != map[] && AllClosed(b) && LastEnd(b).Some?
    && (forall k | k in b :: First(b) <= k < b[k].value <= LastEnd(b).value)
    && (forall a | First(b) <= a < LastEnd(b).value :: Covered(b, a))
    && (forall j, k, a | Covers(b, j, a) && Covers(b, k, a) :: j == k)
  }

  lemma CoverUnique(b: Blocks, j: int, k: int, a: int)
    requires Separate(b) && Covers(b, j, a) && Covers(b, k, a)
    ensures j == k
  {
  }

  lemma GapFreeCovers(b: Blocks, a: int)
    requires b != map[] && Separate(b) && AllClosed(b) && NoGap(b)
    requires First(b) <= a < LastEnd(b).value
    ensures Covered(b, a)
  {
    var k := Floor(b.Keys, a).value;
    if k != Greatest(b.Keys) {
      var next := Next(b, k);
      assert next.Some? && b[next.value].Some? && !GapAfter(b, k);
      assert a < next.value <= b[k].value;
    }
    assert Covers(b, k, a);
  }

  lemma GapFreeTiles(b: Blocks)
    requires b != map[] && Separate(b) && AllClosed(b) && NoGap(b)
    ensures Tiles(b)
  {
    forall a | First(b) <= a < LastEnd(b).value ensures Covered(b, a) { GapFreeCovers(b, a); }
    forall j, k, a | Covers(b, j, a) && Covers(b, k, a) ensures j == k { CoverUnique(b, j, k, a); }
    forall k | k in b ensures First(b) <= k < b[k].value <= LastEnd(b).value {
      assert k == Greatest(b.Keys) || k < Greatest(b.Keys);
    }
  }
}
