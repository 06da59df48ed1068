/**
 * `SwitchTracker` of src/analysis/x86.rs: facts are carried from one address to the next as
 * instructions are observed, and a bounded dispatch has its jump table recovered.
 */
module SwitchTracking {
  import opened Wrappers
  import opened Words
  import opened OrderedKeys
  import opened X86Machine
  import opened SwitchFacts

  datatype Fact = Fact(reg: Reg, value: int, gap: nat)

  type Facts = map<int, Fact>

  /** A relocation candidate of `abs32_candidates`, within the section being traced. */
  datatype Candidate = Candidate(operand: int, target: int)

  /** The `carry` closure: a fact crosses straight-line code that leaves it intact. */
  function Carry(code: Code, facts: Facts, pc: int, keepsFlags: bool): Facts {
    var (ins, next) := code.at(pc);
    if Sequential(ins) && pc in facts && facts[pc].gap < MAX_SWITCH_GAP && !Writes(ins, facts[pc].reg)
      && (keepsFlags ==> !ModifiesFlags(ins))
    then facts[next := facts[pc].(gap := facts[pc].gap + 1)] else facts
  }

  /** The comparison facts after the instruction at `pc`, then the bounds, then the index-table loads. */
  function CmpsAfter(code: Code, cmps: Facts, pc: int): Facts {
    var (ins, next) := code.at(pc);
    if ins.CmpImm? then Carry(code, cmps, pc, true)[next := Fact(ins.reg, ins.imm, 0)] else Carry(code, cmps, pc, true)
  }

  function BoundsAfter(code: Code, cmps: Facts, bounds: Facts, pc: int): Facts {
    var (ins, next) := code.at(pc);
    if ins.Ja? && pc in cmps then Carry(code, bounds, pc, false)[next := Fact(cmps[pc].reg, cmps[pc].value, 0)]
    else Carry(code, bounds, pc, false)
  }

  function LoadEntries(code: Code, bounds: Facts, pc: int): Option<int> {
    var ins := code.at(pc).0;
    if ins.LoadByte? && pc in bounds && 0 <= bounds[pc].value <= MAX && IndexedBy(ins.from, bounds[pc].reg)
    then IndexEntries(code, ins.from, bounds[pc].value) else None
  }

  function IndexesAfter(code: Code, bounds: Facts, indexes: Facts, pc: int): Facts {
    var (ins, next) := code.at(pc);
    if LoadEntries(code, bounds, pc).Some?
      then Carry(code, indexes, pc, false)[next := Fact(ins.dest.reg, LoadEntries(code, bounds, pc).value, 0)]
    else Carry(code, indexes, pc, false)
  }

  /** How many entries a dispatch's table has, by the bound on its index or by the index table. */
  function Entries(bounds: Facts, indexes: Facts, pc: int, index: Reg): Option<int> {
    if pc in bounds && bounds[pc].reg == index
        then (if bounds[pc].value + 1 <= MAX then Some(bounds[pc].value + 1) else None)
    else if pc in indexes && indexes[pc].reg == index then Some(indexes[pc].value)
    else None
  }

  /** The facts bound the dispatch at `pc`: a bound on the index register first, else an index table. */
  ghost predicate Gives(code: Code, fnVa: int, bounds: Facts, indexes: Facts, through: Operand, pc: int,
                        targets: seq<Word>)
    requires through.index.Some?
  {
    if pc in bounds && bounds[pc].reg == through.index.value
      then IsTable(code, fnVa, through.disp, bounds[pc].value + 1, targets)
    else
      && pc in indexes && indexes[pc].reg == through.index.value
      && IsTable(code, fnVa, through.disp, indexes[pc].value, targets)
  }

  function TargetsOf(code: Code, fnVa: int, bounds: Facts, indexes: Facts, through: Operand, pc: int)
    : (r: Option<seq<Word>>)
    requires through.index.Some?
  {
    match Entries(bounds, indexes, pc, through.index.value)
    case Some(n) => JumpTableTargets(code, fnVa, through.disp, n)
    case None => None
  }

  lemma TargetsGiven(code: Code, fnVa: int, bounds: Facts, indexes: Facts, through: Operand, pc: int)
    requires through.index.Some?
    ensures var r := TargetsOf(code, fnVa, bounds, indexes, through, pc);
            && (r.Some? ==> Gives(code, fnVa, bounds, indexes, through, pc, r.value))
            && (r.None? ==> forall targets :: !Gives(code, fnVa, bounds, indexes, through, pc, targets))
  {
  }

  ghost function TablesOf(code: Code, fnVa: int, bounds: Facts, indexes: Facts, dispatches: map<int, Operand>): map<int,
                          seq<Word>>
    requires DispatchesDecoded(code, dispatches)
  {
    map pc | pc in dispatches && TargetsOf(code, fnVa, bounds, indexes, dispatches[pc], pc).Some? ::
      TargetsOf(code, fnVa, bounds, indexes, dispatches[pc], pc).value
  }

  ghost predicate CmpJustified(code: Code, path: seq<int>, pc: int, fact: Fact) {
    0 <= fact.value <= MAX && CmpFact(code, path, pc, fact.reg, fact.value, fact.gap)
  }

  ghost predicate BoundJustified(code: Code, path: seq<int>, pc: int, fact: Fact) {
    0 <= fact.value <= MAX && BoundFact(code, path, pc, fact.reg, fact.value, fact.gap)
  }

  ghost predicate IndexJustified(code: Code, path: seq<int>, load: nat, pc: int, fact: Fact) {
    IndexFact(code, path, pc, fact.reg, fact.value, load, fact.gap)
  }

  /** What is compared with is a word. */
  ghost predicate ValuesFit(facts: Facts) {
    forall pc | pc in facts :: 0 <= facts[pc].value <= MAX
  }

  /** The path runs through instructions that have been observed. */
  ghost predicate Within(path: seq<int>, observed: set<int>) {
    forall p | p in path :: p in observed
  }

  ghost predicate CmpsJustified(code: Code, observed: set<int>, facts: Facts) {
    forall pc | pc in facts :: exists path :: Within(path, observed) && CmpJustified(code, path, pc, facts[pc])
  }

  ghost predicate BoundsJustified(code: Code, observed: set<int>, facts: Facts) {
    forall pc | pc in facts :: exists path :: Within(path, observed) && BoundJustified(code, path, pc, facts[pc])
  }

  ghost predicate IndexesJustified(code: Code, observed: set<int>, facts: Facts) {
    forall pc | pc in facts :: exists path, load: nat ::
        Within(path, observed) && IndexJustified(code, path, load, pc, facts[pc])
  }

  lemma CmpsStayJustified(code: Code, observed: set<int>, cmps: Facts, pc: int)
    requires CmpsJustified(code, observed, cmps)
    ensures CmpsJustified(code, observed + {pc}, CmpsAfter(code, cmps, pc))
  {
    var after, next := CmpsAfter(code, cmps, pc), code.at(pc).1;
    forall at | at in after ensures exists path ::
        Within(path, observed + {pc}) && CmpJustified(code, path, at, after[at]) {
      if at == next && code.at(pc).0.CmpImm? {
        assert Within([pc], observed + {pc}) && CmpJustified(code, [pc], next, after[next]);
      } else if at !in cmps || after[at] != cmps[at] {
        var path :| Within(path, observed) && CmpJustified(code, path, pc, cmps[pc]);
        assert (path + [pc])[..|path|] == path;
        assert Within(path + [pc], observed + {pc}) && CmpJustified(code, path + [pc], next, after[next]);
      } else {
        var path :| Within(path, observed) && CmpJustified(code, path, at, cmps[at]);
        assert Within(path, observed + {pc});
      }
    }
  }

  lemma BoundsStayJustified(code: Code, observed: set<int>, cmps: Facts, bounds: Facts, pc: int)
    requires CmpsJustified(code, observed, cmps) && BoundsJustified(code, observed, bounds)
    ensures BoundsJustified(code, observed + {pc}, BoundsAfter(code, cmps, bounds, pc))
  {
    var after, next := BoundsAfter(code, cmps, bounds, pc), code.at(pc).1;
    forall at | at in after ensures exists path ::
        Within(path, observed + {pc}) && BoundJustified(code, path, at, after[at]) {
      if at == next && code.at(pc).0.Ja? && pc in cmps {
        var path :| Within(path, observed) && CmpJustified(code, path, pc, cmps[pc]);
        assert (path + [pc])[..|path|] == path;
        assert Within(path + [pc], observed + {pc}) && BoundJustified(code, path + [pc], next, after[next]);
      } else if at !in bounds || after[at] != bounds[at] {
        var path :| Within(path, observed) && BoundJustified(code, path, pc, bounds[pc]);
        assert (path + [pc])[..|path|] == path;
        assert Within(path + [pc], observed + {pc}) && BoundJustified(code, path + [pc], next, after[next]);
      } else {
        var path :| Within(path, observed) && BoundJustified(code, path, at, bounds[at]);
        assert Within(path, observed + {pc});
      }
    }
  }

  lemma IndexesStayJustified(code: Code, observed: set<int>, bounds: Facts, indexes: Facts, pc: int)
    requires BoundsJustified(code, observed, bounds) && IndexesJustified(code, observed, indexes)
    ensures IndexesJustified(code, observed + {pc}, IndexesAfter(code, bounds, indexes, pc))
  {
    var after, next := IndexesAfter(code, bounds, indexes, pc), code.at(pc).1;
    forall at | at in after
      ensures exists path, load: nat :: Within(path, observed + {pc}) && IndexJustified(code, path, load, at, after[at])
    {
      if at == next && LoadEntries(code, bounds, pc).Some? {
        var path :| Within(path, observed) && BoundJustified(code, path, pc, bounds[pc]);
        assert (path + [pc])[..|path|] == path;
        assert Bounded(code, path, pc, code.at(pc).0.from, bounds[pc].reg, bounds[pc].value, bounds[pc].gap,
                       after[next].value);
        assert Within(path + [pc], observed + {pc}) && IndexJustified(code, path + [pc], |path|, next, after[next]);
      } else if at !in indexes || after[at] != indexes[at] {
        var path, load: nat :| Within(path, observed) && IndexJustified(code, path, load, pc, indexes[pc]);
        assert (path + [pc])[..|path|] == path;
        assert Within(path + [pc], observed + {pc}) && IndexJustified(code, path + [pc], load, next, after[next]);
      } else {
        var path, load: nat :| Within(path, observed) && IndexJustified(code, path, load, at, indexes[at]);
        assert Within(path, observed + {pc});
      }
    }
  }

  /** The facts after observing a path in order, from any facts. */
  ghost function CmpsAlong(code: Code, cmps: Facts, path: seq<int>): Facts {
    if path == [] then cmps else CmpsAfter(code, CmpsAlong(code, cmps, path[..|path| - 1]), path[|path| - 1])
  }

  ghost function BoundsAlong(code: Code, cmps: Facts, bounds: Facts, path: seq<int>): Facts {
    if path == [] then bounds else
      var front, last := path[..|path| - 1], path[|path| - 1];
      BoundsAfter(code, CmpsAlong(code, cmps, front), BoundsAlong(code, cmps, bounds, front), last)
  }

  ghost function IndexesAlong(code: Code, cmps: Facts, bounds: Facts, indexes: Facts, path: seq<int>): Facts {
    if path == [] then indexes else
      var front, last := path[..|path| - 1], path[|path| - 1];
      IndexesAfter(code, BoundsAlong(code, cmps, bounds, front), IndexesAlong(code, cmps, bounds, indexes, front), last)
  }

  ghost function Members(path: seq<int>): set<int> {
    set p | p in path
  }

  lemma MembersFront(path: seq<int>)
    requires path != []
    ensures Members(path) == Members(path[..|path| - 1]) + {path[|path| - 1]}
  {
    assert path == path[..|path| - 1] + [path[|path| - 1]];
  }

  /** The facts after observing a path in order are justified by what has been observed. */
  lemma {:induction false} AlongJustified(code: Code, path: seq<int>)
    ensures CmpsJustified(code, Members(path), CmpsAlong(code, map[], path))
    ensures BoundsJustified(code, Members(path), BoundsAlong(code, map[], map[], path))
    ensures IndexesJustified(code, Members(path), IndexesAlong(code, map[], map[], map[], path))
  {
    if path != [] {
      var front, last := path[..|path| - 1], path[|path| - 1];
      MembersFront(path);
      AlongJustified(code, front);
      CmpsStayJustified(code, Members(front), CmpsAlong(code, map[], front), last);
      BoundsStayJustified(code, Members(front), CmpsAlong(code, map[], front), BoundsAlong(code, map[], map[], front),
                          last);
      IndexesStayJustified(code, Members(front), BoundsAlong(code, map[], map[], front),
                           IndexesAlong(code, map[], map[], map[], front), last);
    }
  }

  /** The path's instructions were observed in this order, and none of the facts passed on was overwritten between. */
  ghost predicate OccursIn(code: Code, path: seq<int>, order: seq<int>)
    decreases |path|
  {
    path == [] || exists k :: PassesAt(code, path, order, k)
  }

  ghost predicate PassesAt(code: Code, path: seq<int>, order: seq<int>, k: int)
    requires path != []
    decreases |path|, 0
  {
    && 0 <= k < |order| && order[k] == path[|path| - 1]
    && (forall j | k < j < |order| :: Next(code, order[j]) != Next(code, order[k]))
    && OccursIn(code, path[..|path| - 1], order[..k])
  }

  ghost predicate SameFacts(code: Code, order: seq<int>, order': seq<int>, at: int) {
    && Lookup(CmpsAlong(code, map[], order), at) == Lookup(CmpsAlong(code, map[], order'), at)
    && Lookup(BoundsAlong(code, map[], map[], order), at) == Lookup(BoundsAlong(code, map[], map[], order'), at)
    && Lookup(IndexesAlong(code, map[], map[], map[], order), at)
       == Lookup(IndexesAlong(code, map[], map[], map[], order'), at)
  }

  /** An instruction says nothing of other addresses than the one it ends at. */
  lemma FactsElsewhere(code: Code, order: seq<int>, pc: int, order': seq<int>, at: int)
    requires order' == order + [pc] && at != Next(code, pc)
    ensures SameFacts(code, order', order, at)
  {
    assert order'[..|order'| - 1] == order;
  }

  /** A fact lasts until an instruction that ends at the same address is observed. */
  lemma {:induction false} FactsLast(code: Code, order: seq<int>, k: nat)
    requires k < |order| && forall j | k < j < |order| :: Next(code, order[j]) != Next(code, order[k])
    ensures SameFacts(code, order, order[..k + 1], Next(code, order[k]))
    decreases |order|
  {
    if k == |order| - 1 {
      assert order[..k + 1] == order;
    } else {
      var front := order[..|order| - 1];
      assert front[..k + 1] == order[..k + 1];
      FactsLast(code, front, k);
      FactsElsewhere(code, front, order[|order| - 1], order, Next(code, order[k]));
    }
  }

  lemma {:induction false} CmpFound(code: Code, path: seq<int>, order: seq<int>, pc: int, fact: Fact)
    requires CmpJustified(code, path, pc, fact) && OccursIn(code, path, order)
    ensures Lookup(CmpsAlong(code, map[], order), pc) == Some(fact)
    decreases |path|
  {
    var k :| PassesAt(code, path, order, k);
    FactsLast(code, order, k);
    assert order[..k + 1][..k] == order[..k];
    if fact.gap > 0 {
      CmpFound(code, path[..|path| - 1], order[..k], path[|path| - 1], fact.(gap := fact.gap - 1));
    }
  }

  /** The tracker has every bound that a path justifies, once it has observed the path in order. */
  lemma {:induction false} BoundFound(code: Code, path: seq<int>, order: seq<int>, pc: int, fact: Fact)
    requires BoundJustified(code, path, pc, fact) && OccursIn(code, path, order)
    ensures Lookup(BoundsAlong(code, map[], map[], order), pc) == Some(fact)
    decreases |path|
  {
    var k :| PassesAt(code, path, order, k);
    var front, last := path[..|path| - 1], path[|path| - 1];
    FactsLast(code, order, k);
    assert order[..k + 1][..k] == order[..k];
    if fact.gap == 0 {
      var cmpGap :| CmpFact(code, front, last, fact.reg, fact.value, cmpGap);
      CmpFound(code, front, order[..k], last, Fact(fact.reg, fact.value, cmpGap));
    } else {
      BoundFound(code, front, order[..k], last, fact.(gap := fact.gap - 1));
    }
  }

  /** And every index-table load, if the path holds no byte load after it, which might be another. */
  lemma {:induction false} IndexFound(code: Code, path: seq<int>, order: seq<int>, load: nat, pc: int, fact: Fact)
    requires IndexJustified(code, path, load, pc, fact) && OccursIn(code, path, order)
    requires forall i | load < i < |path| :: !code.at(path[i]).0.LoadByte?
    ensures Lookup(IndexesAlong(code, map[], map[], map[], order), pc) == Some(fact)
    decreases |path|
  {
    var k :| PassesAt(code, path, order, k);
    var front, last := path[..|path| - 1], path[|path| - 1];
    FactsLast(code, order, k);
    if fact.gap == 0 {
      IndexLoaded(code, front, order[..k], order[..k + 1], last, fact);
    } else {
      assert !code.at(last).0.LoadByte? && forall i | load < i < |front| :: front[i] == path[i];
      IndexFound(code, front, order[..k], load, last, fact.(gap := fact.gap - 1));
      IndexCarried(code, order[..k], order[..k + 1], last, fact);
    }
  }

  lemma IndexLoaded(code: Code, front: seq<int>, order: seq<int>, order': seq<int>, last: int, fact: Fact)
    requires order' == order + [last] && OccursIn(code, front, order) && code.at(last).0.LoadByte?
    requires code.at(last).0.dest.reg == fact.reg && fact.gap == 0
    requires exists reg, max, gap :: Bounded(code, front, last, code.at(last).0.from, reg, max, gap, fact.value)
    ensures Lookup(IndexesAlong(code, map[], map[], map[], order'), Next(code, last)) == Some(fact)
  {
    var from := code.at(last).0.from;
    var reg, max: Word, boundGap :| Bounded(code, front, last, from, reg, max, boundGap, fact.value);
    BoundFound(code, front, order, last, Fact(reg, max, boundGap));
    LoadFound(code, BoundsAlong(code, map[], map[], order), last, reg, max, boundGap, fact.value);
    assert order'[..|order|] == order;
  }

  lemma IndexCarried(code: Code, order: seq<int>, order': seq<int>, last: int, fact: Fact)
    requires order' == order + [last] && Sequential(code.at(last).0) && !Writes(code.at(last).0, fact.reg)
    requires 0 < fact.gap <= MAX_SWITCH_GAP
    requires Lookup(IndexesAlong(code, map[], map[], map[], order), last) == Some(fact.(gap := fact.gap - 1))
    requires !code.at(last).0.LoadByte?
    ensures Lookup(IndexesAlong(code, map[], map[], map[], order'), Next(code, last)) == Some(fact)
  {
    assert order'[..|order|] == order;
  }

  lemma LoadFound(code: Code, bounds: Facts, pc: int, reg: Reg, max: Word, gap: nat, entries: int)
    requires code.at(pc).0.LoadByte? && Lookup(bounds, pc) == Some(Fact(reg, max, gap))
    requires IndexedBy(code.at(pc).0.from, reg) && IsIndexTable(code, code.at(pc).0.from.disp, max, entries)
    ensures LoadEntries(code, bounds, pc) == Some(entries)
  {
    var from := code.at(pc).0.from;
    assert IndexEntries(code, from, max).Some?;
    assert IsIndexTable(code, from.disp, max, IndexEntries(code, from, max).value);
  }

  /** The machine falls through the path and the dispatch after it lands on a recorded target in the function. */
  ghost predicate Lands(code: Code, fnVa: int, path: seq<int>, through: Operand, targets: seq<Word>) {
    forall ms | Runs(code, path, ms) ::
        JumpsTo(ms[|path|], through) in targets && fnVa <= JumpsTo(ms[|path|], through) < through.disp
  }

  /** The same, for machines in which the byte load at position `load` zero-extends or the index was zeroed. */
  ghost predicate LandsZeroed(code: Code, fnVa: int, path: seq<int>, load: nat, through: Operand, targets: seq<Word>)
    requires through.index.Some?
  {
    && load < |path| && code.at(path[load]).0.LoadByte?
    && forall ms: seq<Machine> | Runs(code, path, ms)
       && Zeroed(code.at(path[load]).0.dest, ms[load].regs[through.index.value]) ::
         JumpsTo(ms[|path|], through) in targets && fnVa <= JumpsTo(ms[|path|], through) < through.disp
  }

  lemma {:induction false} LoadAt(code: Code, path: seq<int>, pc: int, idx: Reg, entries: int, load: nat, gap: nat)
    requires IndexFact(code, path, pc, idx, entries, load, gap)
    ensures load < |path| && code.at(path[load]).0.LoadByte?
    decreases gap
  {
    if gap > 0 {
      var n := |path| - 1;
      LoadAt(code, path[..n], path[n], idx, entries, load, gap - 1);
    }
  }

  /**
   * The table has as many entries as the fact that bounds the dispatch says; this comes from a path of observed
   * instructions, from the `cmp` up to the dispatch; and along every path that gives the fact, every run lands
   * on a recorded target in the function.
   */
  ghost predicate BoundedBy(code: Code, fnVa: int, observed: set<int>, bounds: Facts, indexes: Facts, pc: int,
                            through: Operand, targets: seq<Word>)
    requires through.index.Some?
  {
    if pc in bounds && bounds[pc].reg == through.index.value then
      && IsTable(code, fnVa, through.disp, bounds[pc].value + 1, targets)
      && (exists path :: Within(path, observed) && BoundJustified(code, path, pc, bounds[pc]))
      && (forall path | BoundJustified(code, path, pc, bounds[pc]) :: Lands(code, fnVa, path, through, targets))
    else
      && pc in indexes && indexes[pc].reg == through.index.value
      && IsTable(code, fnVa, through.disp, indexes[pc].value, targets)
      && (exists path, load: nat :: Within(path, observed) && IndexJustified(code, path, load, pc, indexes[pc]))
      && (forall path, load: nat | IndexJustified(code, path, load, pc, indexes[pc]) ::
            LandsZeroed(code, fnVa, path, load, through, targets))
  }

  lemma TrackedDispatchLands(code: Code, fnVa: int, observed: set<int>, bounds: Facts, indexes: Facts, pc: int,
                             through: Operand, targets: seq<Word>)
    requires BoundsJustified(code, observed, bounds) && IndexesJustified(code, observed, indexes)
             && IsDispatch(code, pc, through)
    requires Gives(code, fnVa, bounds, indexes, through, pc, targets)
    ensures BoundedBy(code, fnVa, observed, bounds, indexes, pc, through, targets)
  {
    if pc in bounds && bounds[pc].reg == through.index.value {
      forall path | BoundJustified(code, path, pc, bounds[pc]) ensures Lands(code, fnVa, path, through, targets) {
        BoundLands(code, fnVa, path, pc, bounds[pc], through, targets);
      }
    } else {
      forall path, load: nat | IndexJustified(code, path, load, pc, indexes[pc])
        ensures LandsZeroed(code, fnVa, path, load, through, targets)
      {
        IndexLands(code, fnVa, path, load, pc, indexes[pc], through, targets);
      }
    }
  }

  lemma BoundLands(code: Code, fnVa: int, path: seq<int>, pc: int, fact: Fact, through: Operand, targets: seq<Word>)
    requires IsDispatch(code, pc, through) && BoundJustified(code, path, pc, fact) && fact.reg == through.index.value
    requires IsTable(code, fnVa, through.disp, fact.value + 1, targets)
    ensures Lands(code, fnVa, path, through, targets)
  {
    forall ms | Runs(code, path, ms)
      ensures JumpsTo(ms[|path|], through) in targets && fnVa <= JumpsTo(ms[|path|], through) < through.disp
    {
      BoundedDispatchLands(code, fnVa, path, pc, through, fact.value, fact.gap, targets, ms);
    }
  }

  lemma IndexLands(code: Code, fnVa: int, path: seq<int>, load: nat, pc: int, fact: Fact, through: Operand,
                   targets: seq<Word>)
    requires IsDispatch(code, pc, through) && IndexJustified(code, path, load, pc, fact)
             && fact.reg == through.index.value
    requires IsTable(code, fnVa, through.disp, fact.value, targets)
    ensures LandsZeroed(code, fnVa, path, load, through, targets)
  {
    LoadAt(code, path, pc, fact.reg, fact.value, load, fact.gap);
    forall ms: seq<Machine> | Runs(code, path, ms)
        && Zeroed(code.at(path[load]).0.dest, ms[load].regs[through.index.value])
      ensures JumpsTo(ms[|path|], through) in targets && fnVa <= JumpsTo(ms[|path|], through) < through.disp
    {
      IndexedDispatchLands(code, fnVa, path, pc, through, fact.value, load, fact.gap, targets, ms);
    }
  }

  class SwitchTracker {
    const code: Code
    const fnVa: int
    var cmpAfter: Facts
    var boundAt: Facts
    var indexTableAt: Facts
    var dispatches: map<int, Operand>
    var recovered: set<int>

    constructor (code: Code, fnVa: int)
      ensures this.code == code && this.fnVa == fnVa && Valid()
      ensures cmpAfter == map[] && boundAt == map[] && indexTableAt == map[] && dispatches == map[] && recovered == {}
    {
      this.code, this.fnVa := code, fnVa;
      cmpAfter, boundAt, indexTableAt, dispatches, recovered := map[], map[], map[], map[], {};
    }

    ghost predicate Valid()
      reads this`cmpAfter, this`boundAt, this`dispatches
    {
      && DispatchesDecoded(code, dispatches)
      && ValuesFit(cmpAfter) && ValuesFit(boundAt)
    }

    /** Records what the instruction at `pc` establishes for the one after it. */
    method Observe(pc: int)
      requires Valid()
      modifies this
      ensures Valid() && recovered == old(recovered)
      ensures cmpAfter == CmpsAfter(code, old(cmpAfter), pc)
      ensures boundAt == BoundsAfter(code, old(cmpAfter), old(boundAt), pc)
      ensures indexTableAt == IndexesAfter(code, old(boundAt), old(indexTableAt), pc)
      ensures dispatches == if IsDispatchAt(code, pc) then old(dispatches)[pc := code.at(pc).0.through]
                else old(dispatches)
    {
      var (ins, next) := code.at(pc);
      var cmpHere, boundHere := Lookup(cmpAfter, pc), Lookup(boundAt, pc);
      cmpAfter := Carry(code, cmpAfter, pc, true);
      boundAt := Carry(code, boundAt, pc, false);
      indexTableAt := Carry(code, indexTableAt, pc, false);
      match ins {
        case CmpImm(reg, imm) =>
          cmpAfter := cmpAfter[next := Fact(reg, imm, 0)];
        case Ja =>
          if cmpHere.Some? {
            boundAt := boundAt[next := Fact(cmpHere.value.reg, cmpHere.value.value, 0)];
          }
        case LoadByte(dest, from) =>
          if boundHere.Some? && IndexedBy(from, boundHere.value.reg) {
            var entries := IndexEntries(code, from, boundHere.value.value);
            if entries.Some? {
              indexTableAt := indexTableAt[next := Fact(dest.reg, entries.value, 0)];
            }
          }
        case JmpIndirect(through) =>
          if through.base == None && through.index.Some? && through.scale == 4 {
            dispatches := dispatches[pc := through];
          }
        case _ =>
      }
    }

    /** The targets of the dispatch at `pc`, if its table can be recovered now. */
    function Targets(pc: int): Option<seq<Word>>
      requires pc in dispatches && dispatches[pc].index.Some?
      reads this`boundAt, this`indexTableAt, this`dispatches
    {
      TargetsOf(code, fnVa, boundAt, indexTableAt, dispatches[pc], pc)
    }

    /** The targets of every dispatch whose table can be recovered now. */
    ghost function Tables(): (tables: map<int, seq<Word>>)
      requires DispatchesDecoded(code, dispatches)
      reads this`boundAt, this`indexTableAt, this`dispatches
    {
      TablesOf(code, fnVa, boundAt, indexTableAt, dispatches)
    }

    /** Recovers the table of one dispatch, if it is bounded: relocates its entries and queues them. */
    method RecoverOne(pc: int, candidates: seq<Candidate>, spans: map<int, int>, flow: seq<int>)
      returns (candidates': seq<Candidate>, spans': map<int, int>, flow': seq<int>)
      requires DispatchesDecoded(code, dispatches) && pc in dispatches && pc !in recovered
      modifies this`recovered
      ensures recovered == if Targets(pc).Some? then old(recovered) + {pc} else old(recovered)
      ensures Found(candidates', spans', flow') ==
              var found := Found(candidates, spans, flow);
              if Targets(pc).Some? then WithTable(found, dispatches[pc].disp, Targets(pc).value) else found
    {
      candidates', spans', flow' := candidates, spans, flow;
      var targets := Targets(pc);
      if targets.Some? {
        var table := dispatches[pc].disp;
        recovered := recovered + {pc};
        spans' := spans[table := table + 4 * |targets.value|];
        candidates', flow' := Relocate(table, targets.value, candidates, flow);
      }
    }

    /** `recover`: every bounded dispatch not yet recovered, in address order. */
    method Recover(candidates: seq<Candidate>, spans: map<int, int>, flow: seq<int>)
      returns (candidates': seq<Candidate>, spans': map<int, int>, flow': seq<int>, ghost log: seq<int>)
      requires DispatchesDecoded(code, dispatches)
      modifies this`recovered
      ensures AllLogged(log, Tables().Keys, old(recovered), recovered)
      ensures After(Found(candidates, spans, flow), dispatches, Tables(), log) == Found(candidates', spans', flow')
    {
      candidates', spans', flow', log := candidates, spans, flow, [];
      ghost var tables, first := Tables(), Found(candidates, spans, flow);
      var next := if dispatches == map[] then None else Some(Least(dispatches.Keys));
      while next.Some?
        invariant next.Some? ==> next.value in dispatches
        invariant LogOf(log, dispatches, tables, old(recovered), recovered)
        invariant After(first, dispatches, tables, log) == Found(candidates', spans', flow')
        invariant Before(tables.Keys, next, recovered) && Ascending(log) && Below(log, next)
        decreases if next.Some? then Greatest(dispatches.Keys) - next.value + 1 else 0
      {
        candidates', spans', flow', log := RecoverNext(next.value, candidates', spans', flow', first, tables,
                                                       old(recovered), log);
        next := Ceiling(dispatches.Keys, next.value + 1);
      }
      LogComplete(log, dispatches, tables, old(recovered), recovered);
    }

    /** One turn of the loop, and that the log stays in order. */
    method RecoverNext(pc: int, candidates: seq<Candidate>, spans: map<int, int>, flow: seq<int>,
                       ghost first: Found, ghost tables: map<int, seq<Word>>, ghost was: set<int>, ghost log: seq<int>)
      returns (candidates': seq<Candidate>, spans': map<int, int>, flow': seq<int>, ghost log': seq<int>)
      requires DispatchesDecoded(code, dispatches) && pc in dispatches && tables == Tables()
      requires LogOf(log, dispatches, tables, was, recovered)
               && After(first, dispatches, tables, log) == Found(candidates, spans, flow)
      requires Before(tables.Keys, Some(pc), recovered) && Ascending(log) && Below(log, Some(pc))
      modifies this`recovered
      ensures LogOf(log', dispatches, tables, was, recovered)
              && After(first, dispatches, tables, log') == Found(candidates', spans', flow')
      ensures var next := Ceiling(dispatches.Keys, pc + 1);
              Before(tables.Keys, next, recovered) && Ascending(log') && Below(log', next)
    {
      candidates', spans', flow', log' := RecoverLogged(pc, candidates, spans, flow, first, tables, was, log);
      BeforeNext(tables.Keys, dispatches.Keys, pc, old(recovered), recovered);
      AscendingNext(log, pc, log', dispatches.Keys);
    }

    method RecoverLogged(pc: int, candidates: seq<Candidate>, spans: map<int, int>, flow: seq<int>,
                         ghost first: Found, ghost tables: map<int, seq<Word>>, ghost was: set<int>,
                         ghost log: seq<int>)
      returns (candidates': seq<Candidate>, spans': map<int, int>, flow': seq<int>, ghost log': seq<int>)
      requires DispatchesDecoded(code, dispatches) && pc in dispatches && tables == Tables()
      requires LogOf(log, dispatches, tables, was, recovered)
               && After(first, dispatches, tables, log) == Found(candidates, spans, flow)
      modifies this`recovered
      ensures LogOf(log', dispatches, tables, was, recovered)
              && After(first, dispatches, tables, log') == Found(candidates', spans', flow')
      ensures old(recovered) <= recovered && (pc in tables ==> pc in recovered)
      ensures log' == log || log' == log + [pc]
    {
      candidates', spans', flow', log' := candidates, spans, flow, log;
      if pc !in recovered {
        LogNext(first, dispatches, tables, log, was, recovered, pc);
        candidates', spans', flow' := RecoverOne(pc, candidates, spans, flow);
        log' := if pc in tables then log + [pc] else log;
      }
    }
  }

  /** Every table is recovered now, and the log holds those that were not before, in order of addresses. */
  ghost predicate AllLogged(log: seq<int>, pcs: set<int>, was: set<int>, recovered: set<int>) {
    recovered == was + pcs && Ascending(log) && forall pc :: pc in log <==> pc in recovered && pc !in was
  }

  /** The log is in order of addresses. */
  ghost predicate Ascending(log: seq<int>) {
    log == [] || (Ascending(log[..|log| - 1]) && Below(log[..|log| - 1], Some(log[|log| - 1])))
  }

  ghost predicate Below(log: seq<int>, next: Option<int>) {
    next.Some? ==> forall pc | pc in log :: pc < next.value
  }

  lemma AscendingNext(log: seq<int>, pc: int, log': seq<int>, keys: set<int>)
    requires Ascending(log) && Below(log, Some(pc)) && (log' == log || log' == log + [pc])
    ensures Ascending(log') && Below(log', Ceiling(keys, pc + 1))
  {
    if log' == log + [pc] {
      assert log'[..|log'| - 1] == log;
    }
  }

  /** The dispatches recovered, in order. */
  ghost predicate LogOf(log: seq<int>, dispatches: map<int, Operand>, tables: map<int, seq<Word>>, was: set<int>,
                        recovered: set<int>) {
    if log == [] then recovered == was else
      var pc := log[|log| - 1];
      && pc in dispatches && pc in tables && pc in recovered
      && LogOf(log[..|log| - 1], dispatches, tables, was, recovered - {pc}) && pc !in was
  }

  /** What a trace has collected, and what it has once the tables of the log are recovered in order. */
  datatype Found = Found(candidates: seq<Candidate>, spans: map<int, int>, flow: seq<int>)

  ghost function After(first: Found, dispatches: map<int, Operand>, tables: map<int, seq<Word>>, log: seq<int>): Found {
    if log == [] then first else
      var before, pc := After(first, dispatches, tables, log[..|log| - 1]), log[|log| - 1];
      if pc in dispatches && pc in tables then WithTable(before, dispatches[pc].disp, tables[pc]) else before
  }

  ghost function WithTable(found: Found, table: int, targets: seq<Word>): Found {
    Found(found.candidates + Relocated(table, targets), found.spans[table := table + 4 * |targets|],
          found.flow + targets)
  }

  lemma LogNext(first: Found, dispatches: map<int, Operand>, tables: map<int, seq<Word>>, log: seq<int>, was: set<int>,
                recovered: set<int>, pc: int)
    requires LogOf(log, dispatches, tables, was, recovered) && pc in dispatches && pc !in recovered
    ensures pc in tables ==> LogOf(log + [pc], dispatches, tables, was, recovered + {pc})
    ensures pc in tables ==>
              After(first, dispatches, tables, log + [pc]) ==
              WithTable(After(first, dispatches, tables, log), dispatches[pc].disp, tables[pc])
  {
    Logged(log, dispatches, tables, was, recovered);
    assert (log + [pc])[..|log|] == log && recovered + {pc} - {pc} == recovered;
  }

  lemma {:induction false} Logged(log: seq<int>, dispatches: map<int, Operand>, tables: map<int, seq<Word>>,
                                  was: set<int>, recovered: set<int>)
    requires LogOf(log, dispatches, tables, was, recovered)
    ensures was <= recovered && forall pc :: pc in recovered && pc !in was <==> pc in log
    ensures forall pc | pc in log :: pc in dispatches && pc in tables
  {
    if log != [] {
      var front, pc := log[..|log| - 1], log[|log| - 1];
      Logged(front, dispatches, tables, was, recovered - {pc});
      assert forall a :: a in log <==> a in front || a == pc;
    }
  }

  lemma LogComplete(log: seq<int>, dispatches: map<int, Operand>, tables: map<int, seq<Word>>, was: set<int>,
                    recovered: set<int>)
    requires LogOf(log, dispatches, tables, was, recovered) && Before(tables.Keys, None, recovered) && Ascending(log)
    ensures AllLogged(log, tables.Keys, was, recovered)
    ensures forall pc | pc in log :: pc in dispatches && pc in tables
  {
    Logged(log, dispatches, tables, was, recovered);
    assert forall pc | pc in tables :: pc in tables.Keys && pc in recovered;
    assert forall pc :: pc in recovered <==> pc in was + tables.Keys;
  }

  lemma {:induction false} LogRecorded(first: Found, dispatches: map<int, Operand>, tables: map<int, seq<Word>>,
                                       log: seq<int>, pcs: set<int>)
    requires forall pc :: pc in pcs <==> pc in log
    requires forall pc | pc in log :: pc in dispatches && pc in tables
    ensures var last := After(first, dispatches, tables, log);
            && first.candidates <= last.candidates && first.flow <= last.flow && first.spans.Keys <= last.spans.Keys
            && (pcs == {} ==> last.flow == first.flow)
            && (forall a | a in last.flow :: a in first.flow || exists pc ::
                 pc in pcs && pc in tables && a in tables[pc])
            && AllRecorded(dispatches, tables, pcs, last.candidates, last.spans, last.flow)
            && SpansFrom(first.spans, last.spans, dispatches, tables, pcs)
  {
    if log != [] {
      var front, pc := log[..|log| - 1], log[|log| - 1];
      var earlier := set a | a in front;
      assert forall a :: a in log <==> a in front || a == pc;
      assert forall a :: a in pcs <==> a in earlier + {pc};
      assert pcs == earlier + {pc};
      LogRecorded(first, dispatches, tables, front, earlier);
      var before, last := After(first, dispatches, tables, front), After(first, dispatches, tables, log);
      StillRecorded(dispatches, tables, earlier, pc, before.candidates, before.spans, before.flow, last.candidates,
                    last.spans, last.flow);
      SpansAdded(first.spans, before.spans, last.spans, dispatches, tables, earlier, pc);
    }
  }

  /** Every decoded span is a non-empty part of the section. */
  ghost predicate SpansIn(code: Code, spans: map<int, int>) {
    forall start | start in spans :: code.base <= start < spans[start] <= code.base + |code.data|
  }

  /** A span is an old one, or covers the table of a dispatch just recovered. */
  ghost predicate SpansFrom(spans: map<int, int>, spans': map<int, int>, dispatches: map<int, Operand>,
                            tables: map<int, seq<Word>>, pcs: set<int>) {
    forall start | start in spans' ::
      || (start in spans && spans'[start] == spans[start])
      || exists pc :: pc in pcs && TableSpan(dispatches, tables, pc, start, spans'[start])
  }

  ghost predicate TableSpan(dispatches: map<int, Operand>, tables: map<int, seq<Word>>, pc: int, start: int, end: int) {
    pc in dispatches && pc in tables && start == dispatches[pc].disp && end == start + 4 * |tables[pc]|
  }

  lemma SpansAdded(first: map<int, int>, spans: map<int, int>, spans': map<int, int>, dispatches: map<int, Operand>,
                   tables: map<int, seq<Word>>,
                   found: set<int>, pc: int)
    requires SpansFrom(first, spans, dispatches, tables, found) && pc in dispatches
    requires spans' == if pc in tables then spans[dispatches[pc].disp := dispatches[pc].disp + 4 * |tables[pc]|]
               else spans
    ensures SpansFrom(first, spans', dispatches, tables, found + if pc in tables then {pc} else {})
  {
    forall start | start in spans' && !(start in spans && spans'[start] == spans[start])
      ensures TableSpan(dispatches, tables, pc, start, spans'[start])
    {
    }
  }

  ghost predicate Before(pcs: set<int>, next: Option<int>, recovered: set<int>) {
    forall pc | pc in pcs && (next.None? || pc < next.value) :: pc in recovered
  }

  lemma BeforeNext(pcs: set<int>, keys: set<int>, pc: int, was: set<int>, recovered: set<int>)
    requires pcs <= keys && Before(pcs, Some(pc), was) && was <= recovered && (pc in pcs ==> pc in recovered)
    ensures Before(pcs, Ceiling(keys, pc + 1), recovered)
  {
  }

  function Lookup(facts: Facts, pc: int): Option<Fact> {
    if pc in facts then Some(facts[pc]) else None
  }

  predicate IsDispatchAt(code: Code, pc: int) {
    code.at(pc).0.JmpIndirect? && IsDispatch(code, pc, code.at(pc).0.through)
  }

  ghost predicate DispatchesDecoded(code: Code, dispatches: map<int, Operand>) {
    forall pc | pc in dispatches :: IsDispatch(code, pc, dispatches[pc])
  }

  method Relocate(table: int, targets: seq<Word>, candidates: seq<Candidate>, flow: seq<int>)
    returns (candidates': seq<Candidate>, flow': seq<int>)
    ensures candidates' == candidates + Relocated(table, targets) && flow' == flow + targets
  {
    candidates', flow' := candidates, flow;
    for i := 0 to |targets|
      invariant candidates' == candidates + Relocated(table, targets[..i])
      invariant flow' == flow + targets[..i]
    {
      assert targets[..i + 1] == targets[..i] + [targets[i]];
      candidates' := candidates' + [Candidate(table + 4 * i, targets[i])];
      flow' := flow' + [targets[i]];
    }
    assert targets[..|targets|] == targets;
  }

  function Relocated(table: int, targets: seq<Word>): (r: seq<Candidate>)
    ensures |r| == |targets| && forall i | 0 <= i < |r| :: r[i] == Candidate(table + 4 * i, targets[i])
  {
    seq(|targets|, i requires 0 <= i < |targets| => Candidate(table + 4 * i, targets[i]))
  }

  /** Each entry of the table is relocated, its case block queued, and its words taken for a span. */
  ghost predicate Recorded(table: int, targets: seq<Word>, candidates: seq<Candidate>, spans: map<int, int>,
                           flow: seq<int>) {
    && table in spans
    && forall i | 0 <= i < |targets| :: targets[i] in flow && Candidate(table + 4 * i, targets[i]) in candidates
  }

  ghost predicate AllRecorded(dispatches: map<int, Operand>, tables: map<int, seq<Word>>, pcs: set<int>,
                              candidates: seq<Candidate>, spans: map<int, int>, flow: seq<int>) {
    forall pc | pc in pcs ::
        pc in dispatches && pc in tables && Recorded(dispatches[pc].disp, tables[pc], candidates, spans, flow)
  }

  lemma StillRecorded(dispatches: map<int, Operand>, tables: map<int, seq<Word>>, pcs: set<int>, pc: int,
                      c: seq<Candidate>, s: map<int, int>, f: seq<int>, c': seq<Candidate>, s': map<int,
                          int>, f': seq<int>)
    requires AllRecorded(dispatches, tables, pcs, c, s, f)
    requires c <= c' && s.Keys <= s'.Keys && f <= f'
    ensures AllRecorded(dispatches, tables, pcs, c', s', f')
    ensures pc in dispatches && pc in tables && dispatches[pc].disp in s' && f' == f + tables[pc]
            && c' == c + Relocated(dispatches[pc].disp, tables[pc])
            ==> AllRecorded(dispatches, tables, pcs + {pc}, c', s', f')
  {
    if pc in dispatches && pc in tables && dispatches[pc].disp in s' && f' == f + tables[pc]
      && c' == c + Relocated(dispatches[pc].disp, tables[pc]) {
      var table, targets := dispatches[pc].disp, tables[pc];
      forall i | 0 <= i < |targets| ensures targets[i] in f' && Candidate(table + 4 * i, targets[i]) in c' {
        assert f'[|f| + i] == targets[i];
        assert c'[|c| + i] == Candidate(table + 4 * i, targets[i]);
      }
    }
  }
}
