/**
 * The discovery worklist of `analyze_x86_functions` in src/analysis/x86.rs, over one code section:
 * entries are traced in address order, callees are enqueued, and once no entry is left the data
 * sections are scanned for pointers into the code.
 */
module X86Discovery {
  import opened Wrappers
  import opened OrderedKeys
  import opened Spans
  import opened Words
  import opened X86Machine
  import opened SwitchFacts
  import opened SwitchTracking
  import Executors

  /** What an instruction does to the flow of control, with its near branch target or table operand. */
  datatype Flow =
    | Fall
    | Cond(target: Option<int>)
    | CallNear(target: Option<int>, rel32: bool)
    | Jump(target: Option<int>, rel32: bool)
    | Indirect(table: Option<int>)
    | Stop

  /** The image: what each address decodes to, which lie inside known functions, the data sections' words. */
  datatype Image = Image(code: Code, flow: int -> Option<Flow>, inside: int -> bool, unresolved: set<int>,
                         words: seq<int>) {
    /** A decoded instruction is not empty and ends within the section. */
    ghost predicate Valid() {
      forall pc | Decoded(pc) :: pc < code.at(pc).1 <= End()
    }

    function End(): int {
      code.base + |code.data|
    }

    /** `find_code` */
    predicate InCode(va: int) {
      code.base <= va < End()
    }

    predicate Decoded(pc: int) {
      InCode(pc) && flow(pc).Some?
    }

    predicate Near(target: Option<int>) {
      target.Some? && InCode(target.value)
    }

    /** A call's displacement that a relocation is still to fill in, and a jump's. */
    predicate CallUnresolved(pc: int, rel32: bool) {
      (if rel32 then pc + 1 else code.at(pc).1 - 4) in unresolved
    }

    predicate JumpUnresolved(pc: int, rel32: bool) {
      rel32 && code.at(pc).1 - 4 in unresolved
    }

    predicate TableNext(pc: int, table: Option<int>) {
      table.Some? && table.value != 0 && InCode(table.value) && table.value == code.at(pc).1
    }
  }

  /** The near target of a jump whose displacement is final. */
  function JumpTarget(img: Image, pc: int): (r: Option<int>)
    ensures r.Some? <==>
              && img.flow(pc).Some? && img.flow(pc).value.Jump? && img.Near(img.flow(pc).value.target)
              && !img.JumpUnresolved(pc, img.flow(pc).value.rel32)
    ensures r.Some? ==> r == img.flow(pc).value.target
  {
    match img.flow(pc)
    case Some(Jump(target, rel32)) => if img.Near(target) && !img.JumpUnresolved(pc, rel32) then target else None
    case _ => None
  }

  /**
   * The jump at `pc` is a tail call: its target was a known function, or awaited as one, when it was observed.
   * `known` says of each instruction observed what these were then.
   */
  ghost predicate TailCall(img: Image, known: map<int, set<int>>, pc: int) {
    JumpTarget(img, pc).Some? && pc in known && JumpTarget(img, pc).value in known[pc]
  }

  /** A near tail call into the body of a known function is only referred to. */
  predicate OnlyReferred(img: Image, pc: int, target: int) {
    img.flow(pc).Some? && img.flow(pc).value.Jump? && img.flow(pc).value.rel32 && img.inside(target)
  }

  /** Every way on from `pc` is seen in the same trace, or is an entry of its own. */
  ghost predicate Followed(img: Image, known: map<int, set<int>>, pc: int, seen: set<int>, entries: set<int>)
    requires img.Decoded(pc)
  {
    var next := img.code.at(pc).1;
    match img.flow(pc).value
    case Fall => next in seen
    case Cond(target) => next in seen && (img.Near(target) ==> target.value in seen)
    case CallNear(target, rel32) =>
      next in seen && (img.Near(target) && !img.CallUnresolved(pc, rel32) ==>
          target.value in entries || img.inside(target.value))
    case Jump(_, _) =>
      var target := JumpTarget(img, pc);
      target.Some? ==>
        if TailCall(img, known, pc) then OnlyReferred(img, pc, target.value) || target.value in entries
        else target.value in seen
    case Indirect(table) => next in seen || img.TableNext(pc, table)
    case Stop => true
  }

  ghost predicate AllFollowed(img: Image, known: map<int, set<int>>, visited: set<int>, seen: set<int>,
                              entries: set<int>) {
    forall pc | pc in visited && img.Decoded(pc) :: pc in known && Followed(img, known, pc, seen, entries)
  }

  /** What is noted of an instruction stays. */
  ghost predicate KnownGrows(known: map<int, set<int>>, known': map<int, set<int>>) {
    forall pc | pc in known :: pc in known' && known'[pc] == known[pc]
  }

  lemma FollowedGrows(img: Image, known: map<int, set<int>>, visited: set<int>, seen: set<int>, entries: set<int>,
                      known': map<int, set<int>>, seen': set<int>, entries': set<int>)
    requires AllFollowed(img, known, visited, seen, entries)
    requires KnownGrows(known, known') && seen <= seen' && entries <= entries'
    ensures AllFollowed(img, known', visited, seen', entries')
  {
    forall pc | pc in visited && img.Decoded(pc) ensures pc in known' && Followed(img, known', pc, seen', entries') {
      assert Followed(img, known, pc, seen, entries);
    }
  }

  /** The facts of observing the first so many instructions of the trace gave the dispatch this table. */
  ghost predicate Recoverable(code: Code, fn: int, order: seq<int>, pc: int, targets: seq<Word>) {
    exists n: nat :: n <= |order| && RecoverableAt(code, fn, order[..n], pc, targets)
  }

  ghost predicate RecoverableAt(code: Code, fn: int, prefix: seq<int>, pc: int, targets: seq<Word>) {
    && pc in prefix && IsDispatchAt(code, pc)
    && Gives(code, fn, BoundsAlong(code, map[], map[], prefix), IndexesAlong(code, map[], map[], map[], prefix),
             code.at(pc).0.through, pc, targets)
  }

  /** Each recovered dispatch has a table that the trace justifies, and every case block of it is seen. */
  ghost predicate TablesFollowed(code: Code, fn: int, order: seq<int>, recovered: set<int>, tables: map<int, seq<Word>>,
                                 seen: set<int>) {
    && tables.Keys == recovered
    && forall pc | pc in recovered :: Recoverable(code, fn, order, pc, tables[pc]) && forall t | t in tables[pc] ::
         t in seen
  }

  lemma TablesMore(code: Code, fn: int, order: seq<int>, recovered: set<int>, tables: map<int, seq<Word>>,
                   seen: set<int>,
                   pc: int, seen': set<int>)
    requires TablesFollowed(code, fn, order, recovered, tables, seen) && seen <= seen'
    ensures TablesFollowed(code, fn, order + [pc], recovered, tables, seen')
  {
    forall at | at in recovered ensures Recoverable(code, fn, order + [pc], at, tables[at]) {
      assert Recoverable(code, fn, order, at, tables[at]);
      var n: nat :| n <= |order| && RecoverableAt(code, fn, order[..n], at, tables[at]);
      assert (order + [pc])[..n] == order[..n];
    }
  }

  /**
   * What a trace leaves: the addresses visited, the instructions in the order observed, what was known or awaited
   * at each, the tables recovered.
   */
  datatype Traced = Traced(fn: int, visited: set<int>, order: seq<int>, known: map<int, set<int>>,
                           tables: map<int, seq<Word>>)

  /** The instructions observed are those visited that decode, each once. */
  ghost predicate Observed(img: Image, visited: set<int>, order: seq<int>) {
    && (forall pc :: pc in order <==> pc in visited && img.Decoded(pc))
    && (forall i, j | 0 <= i < j < |order| :: order[i] != order[j])
  }

  /** The facts are those of observing the instructions in order. */
  ghost predicate FactsAlong(code: Code, order: seq<int>, cmps: Facts, bounds: Facts, indexes: Facts) {
    && cmps == CmpsAlong(code, map[], order)
    && bounds == BoundsAlong(code, map[], map[], order)
    && indexes == IndexesAlong(code, map[], map[], map[], order)
  }

  lemma ObservedNext(img: Image, visited: set<int>, order: seq<int>, pc: int)
    requires Observed(img, visited, order) && pc !in visited && img.Decoded(pc)
    ensures Observed(img, visited + {pc}, order + [pc])
  {
    assert pc !in order;
    assert forall a :: a in order + [pc] <==> a in order || a == pc;
  }

  /** Every dispatch observed that the facts of the whole trace bound by a table has that table recovered. */
  ghost predicate TablesComplete(code: Code, fn: int, order: seq<int>, tables: set<int>) {
    forall pc, targets | pc in order && IsDispatchAt(code, pc)
                         && Gives(code, fn, BoundsAlong(code, map[], map[], order),
                                  IndexesAlong(code, map[], map[], map[], order), code.at(pc).0.through, pc, targets) ::
      pc in tables
  }

  ghost predicate DispatchesObserved(code: Code, order: seq<int>, dispatches: map<int, Operand>) {
    forall pc :: (pc in order && IsDispatchAt(code, pc) <==> pc in dispatches)
      && (pc in dispatches ==> dispatches[pc] == code.at(pc).0.through)
  }

  lemma FactsNext(code: Code, order: seq<int>, pc: int, cmps: Facts, bounds: Facts, indexes: Facts,
                  dispatches: map<int, Operand>)
    requires FactsAlong(code, order, cmps, bounds, indexes) && DispatchesObserved(code, order, dispatches)
    ensures FactsAlong(code, order + [pc], CmpsAfter(code, cmps, pc), BoundsAfter(code, cmps, bounds, pc),
                       IndexesAfter(code, bounds, indexes, pc))
    ensures DispatchesObserved(code, order + [pc], if IsDispatchAt(code, pc)
              then dispatches[pc := code.at(pc).0.through] else dispatches)
  {
    assert (order + [pc])[..|order|] == order;
    assert forall a :: a in order + [pc] <==> a in order || a == pc;
  }

  predicate Less(a': nat, b': nat, c': nat, a: nat, b: nat, c: nat) {
    a' < a || (a' == a && (b' < b || (b' == b && c' < c)))
  }

  lemma TablesObserved(code: Code, fn: int, order: seq<int>, bounds: Facts, indexes: Facts,
                       dispatches: map<int, Operand>)
    requires DispatchesObserved(code, order, dispatches) && DispatchesDecoded(code, dispatches)
    requires bounds == BoundsAlong(code, map[], map[], order)
             && indexes == IndexesAlong(code, map[], map[], map[], order)
    ensures TablesComplete(code, fn, order, TablesOf(code, fn, bounds, indexes, dispatches).Keys)
    ensures AllIn(TablesOf(code, fn, bounds, indexes, dispatches).Keys, order)
  {
    forall pc, targets | pc in order && IsDispatchAt(code, pc)
        && Gives(code, fn, bounds, indexes, code.at(pc).0.through, pc, targets)
      ensures pc in TablesOf(code, fn, bounds, indexes, dispatches) {
      TargetsGiven(code, fn, bounds, indexes, code.at(pc).0.through, pc);
    }
  }

  ghost function WithTables(was: set<int>, tables: map<int, seq<Word>>, recovered: set<int>,
                            found: map<int, seq<Word>>): map<int, seq<Word>>
  {
    map pc | pc in recovered :: if pc in was && pc in tables then tables[pc] else if pc in found then found[pc] else []
  }

  /** Tables that the facts of the trace so far give, inside the section. */
  ghost predicate FoundTables(code: Code, fn: int, order: seq<int>, dispatches: map<int, Operand>,
                              found: map<int, seq<Word>>) {
    forall pc | pc in found ::
      && pc in dispatches && pc in order && IsDispatchAt(code, pc) && dispatches[pc] == code.at(pc).0.through
      && Recoverable(code, fn, order, pc, found[pc])
      && code.base <= dispatches[pc].disp < dispatches[pc].disp + 4 * |found[pc]| <= code.base + |code.data|
  }

  lemma TablesAreFound(code: Code, fn: int, order: seq<int>, bounds: Facts, indexes: Facts,
                       dispatches: map<int, Operand>)
    requires DispatchesObserved(code, order, dispatches) && DispatchesDecoded(code, dispatches)
    requires bounds == BoundsAlong(code, map[], map[], order)
             && indexes == IndexesAlong(code, map[], map[], map[], order)
    ensures FoundTables(code, fn, order, dispatches, TablesOf(code, fn, bounds, indexes, dispatches))
  {
    var found := TablesOf(code, fn, bounds, indexes, dispatches);
    assert order[..|order|] == order;
    forall pc | pc in found
      ensures Recoverable(code, fn, order, pc, found[pc])
      ensures code.base <= dispatches[pc].disp < dispatches[pc].disp + 4 * |found[pc]| <= code.base + |code.data|
    {
      GivenIsFound(code, fn, order, bounds, indexes, pc, dispatches[pc], found[pc]);
    }
  }

  lemma GivenIsFound(code: Code, fn: int, order: seq<int>, bounds: Facts, indexes: Facts, pc: int, through: Operand,
                     targets: seq<Word>)
    requires pc in order && IsDispatch(code, pc, through)
    requires bounds == BoundsAlong(code, map[], map[], order)
             && indexes == IndexesAlong(code, map[], map[], map[], order)
    requires TargetsOf(code, fn, bounds, indexes, through, pc) == Some(targets)
    ensures Recoverable(code, fn, order, pc, targets)
    ensures code.base <= through.disp < through.disp + 4 * |targets| <= code.base + |code.data|
  {
    TargetsGiven(code, fn, bounds, indexes, through, pc);
    assert order[..|order|] == order;
    assert RecoverableAt(code, fn, order[..|order|], pc, targets);
  }

  lemma RecordedFollowed(code: Code, fn: int, order: seq<int>, dispatches: map<int, Operand>,
                         found: map<int, seq<Word>>,
                         was: set<int>, tables: map<int, seq<Word>>, seen: set<int>, recovered: set<int>,
                         candidates: seq<Candidate>, spans: map<int, int>, flow: seq<int>)
    requires FoundTables(code, fn, order, dispatches, found) && TablesFollowed(code, fn, order, was, tables, seen)
    requires AllRecorded(dispatches, found, recovered - was, candidates, spans, flow)
    ensures TablesFollowed(code, fn, order, recovered, WithTables(was, tables, recovered, found),
                           seen + set a | a in flow)
  {
    forall pc | pc in recovered && pc !in was
      ensures Recoverable(code, fn, order, pc, found[pc]) && forall t | t in found[pc] :: t in flow
    {
      assert Recorded(dispatches[pc].disp, found[pc], candidates, spans, flow);
    }
  }

  /** What recovering tables makes of a trace. */
  lemma TablesRecovered(img: Image, fn: int, order: seq<int>, dispatches: map<int, Operand>, found: map<int, seq<Word>>,
                        was: set<int>, recovered: set<int>, tables: map<int, seq<Word>>, seen: set<int>,
                        before: Found, after: Found, log: seq<int>, tables': map<int, seq<Word>>)
    requires FoundTables(img.code, fn, order, dispatches, found)
             && TablesFollowed(img.code, fn, order, was, tables, seen)
    requires AllIn(was, order) && SpansIn(img.code, before.spans) && before.flow == []
    requires AllLogged(log, found.Keys, was, recovered) && SwitchTracking.After(before, dispatches, found, log) == after
    requires tables' == WithTables(was, tables, recovered, found)
    ensures TablesFollowed(img.code, fn, order, recovered, tables', seen + set a | a in after.flow)
    ensures TablesGrow(tables, tables') && AllIn(recovered, order)
    ensures forall a | a in after.flow :: exists d :: d in order && d in tables' && a in tables'[d]
    ensures recovered == was ==> after.flow == []
    ensures SpansIn(img.code, after.spans) && before.spans.Keys <= after.spans.Keys
    ensures forall span | span in SpanSet(after.spans) && span !in SpanSet(before.spans) ::
              Traces(img, order, tables', span)
  {
    assert forall pc | pc in log :: pc in found.Keys && pc in recovered - was;
    LogRecorded(before, dispatches, found, log, recovered - was);
    RecordedFollowed(img.code, fn, order, dispatches, found, was, tables, seen, recovered,
                     after.candidates, after.spans, after.flow);
    SpansStayIn(img.code, fn, order, before.spans, after.spans, dispatches, found, recovered - was);
    TableSpans(img, fn, order, before.spans, after.spans, dispatches, found, was, recovered, tables, tables');
  }

  ghost predicate AllIn(pcs: set<int>, order: seq<int>) {
    forall pc | pc in pcs :: pc in order
  }

  ghost predicate Complete(img: Image, traced: Traced, entries: set<int>) {
    && traced.fn in traced.visited && AllFollowed(img, traced.known, traced.visited, traced.visited, entries)
    && Observed(img, traced.visited, traced.order)
    && TablesFollowed(img.code, traced.fn, traced.order, traced.tables.Keys, traced.tables, traced.visited)
    && OrderSourced(img, traced.fn, traced.order, traced.known, traced.tables)
    && AllTraceSourced(img, traced.fn, traced.order, traced.known, traced.tables, traced.visited, [])
    && TablesComplete(img.code, traced.fn, traced.order, traced.tables.Keys)
  }

  ghost predicate AllComplete(img: Image, traces: set<Traced>, entries: set<int>) {
    forall traced | traced in traces :: Complete(img, traced, entries) && traced.fn in entries
  }

  lemma CompleteGrows(img: Image, traces: set<Traced>, entries: set<int>, entries': set<int>)
    requires AllComplete(img, traces, entries) && entries <= entries'
    ensures AllComplete(img, traces, entries')
  {
    forall traced | traced in traces ensures Complete(img, traced, entries') && traced.fn in entries' {
      assert Complete(img, traced, entries);
      FollowedGrows(img, traced.known, traced.visited, traced.visited, entries, traced.known, traced.visited, entries');
    }
  }

  /**
   * The table recovered for a dispatch is bounded by the facts of the first `n` instructions observed: they come
   * from a path of those instructions up to the dispatch, and along every such path runs land in the function.
   */
  lemma TracedTableLands(img: Image, traced: Traced, entries: set<int>, pc: int) returns (n: nat)
    requires Complete(img, traced, entries) && pc in traced.tables
    ensures n <= |traced.order| && pc in traced.order[..n] && IsDispatchAt(img.code, pc)
    ensures var prefix := traced.order[..n];
            BoundedBy(img.code, traced.fn, Members(prefix), BoundsAlong(img.code, map[], map[], prefix),
                      IndexesAlong(img.code, map[], map[], map[], prefix), pc, img.code.at(pc).0.through,
                          traced.tables[pc])
  {
    assert Recoverable(img.code, traced.fn, traced.order, pc, traced.tables[pc]);
    n :| n <= |traced.order| && RecoverableAt(img.code, traced.fn, traced.order[..n], pc, traced.tables[pc]);
    var prefix := traced.order[..n];
    AlongJustified(img.code, prefix);
    TrackedDispatchLands(img.code, traced.fn, Members(prefix), BoundsAlong(img.code, map[], map[], prefix),
                         IndexesAlong(img.code, map[], map[], map[], prefix), pc, img.code.at(pc).0.through,
                         traced.tables[pc]);
  }

  /**
   * A dispatch whose index a `cmp; ja` on a path bounds has its table recovered, if the path was observed in order
   * and the table's words are in the function.
   */
  lemma BoundedRecovered(img: Image, traced: Traced, entries: set<int>, path: seq<int>, pc: int, fact: Fact,
                         targets: seq<Word>)
    requires Complete(img, traced, entries) && pc in traced.order && IsDispatchAt(img.code, pc)
    requires BoundJustified(img.code, path, pc, fact) && OccursIn(img.code, path, traced.order)
    requires img.code.at(pc).0.through.index == Some(fact.reg)
    requires IsTable(img.code, traced.fn, img.code.at(pc).0.through.disp, fact.value + 1, targets)
    ensures pc in traced.tables
  {
    BoundFound(img.code, path, traced.order, pc, fact);
    assert Gives(img.code, traced.fn, BoundsAlong(img.code, map[], map[], traced.order),
                 IndexesAlong(img.code, map[], map[], map[], traced.order), img.code.at(pc).0.through, pc, targets);
  }

  /** So has one that an index table bounds, if no path of the trace bounds the index itself there. */
  lemma IndexedRecovered(img: Image, traced: Traced, entries: set<int>, path: seq<int>, load: nat, pc: int, fact: Fact,
                         targets: seq<Word>)
    requires Complete(img, traced, entries) && pc in traced.order && IsDispatchAt(img.code, pc)
    requires IndexJustified(img.code, path, load, pc, fact) && OccursIn(img.code, path, traced.order)
    requires forall i | load < i < |path| :: !img.code.at(path[i]).0.LoadByte?
    requires img.code.at(pc).0.through.index == Some(fact.reg)
    requires forall other, bound | Within(other, Members(traced.order)) && BoundJustified(img.code, other, pc, bound) ::
               bound.reg != fact.reg
    requires IsTable(img.code, traced.fn, img.code.at(pc).0.through.disp, fact.value, targets)
    ensures pc in traced.tables
  {
    IndexFound(img.code, path, traced.order, load, pc, fact);
    AlongJustified(img.code, traced.order);
    assert Gives(img.code, traced.fn, BoundsAlong(img.code, map[], map[], traced.order),
                 IndexesAlong(img.code, map[], map[], map[], traced.order), img.code.at(pc).0.through, pc, targets);
  }

  /** The instruction at `pc` goes on at `a` within its function; a tail call does not. */
  ghost predicate LeadsOn(img: Image, known: map<int, set<int>>, pc: int, a: int) {
    img.Decoded(pc) &&
    var next := img.code.at(pc).1;
    match img.flow(pc).value
    case Fall => a == next
    case Cond(target) => a == next || (img.Near(target) && a == target.value)
    case CallNear(_, _) => a == next
    case Jump(_, _) => JumpTarget(img, pc) == Some(a) && pc in known && a !in known[pc]
    case Indirect(table) => !img.TableNext(pc, table) && a == next
    case Stop => false
  }

  /** There was a reason to visit the address: it is the entry, or an observed instruction or its table leads to it. */
  ghost predicate TraceSourced(img: Image, fn: int, order: seq<int>, known: map<int, set<int>>,
                               tables: map<int, seq<Word>>, a: int) {
    || a == fn
    || (exists p :: p in order && LeadsOn(img, known, p, a))
    || (exists d :: d in order && d in tables && a in tables[d])
  }

  ghost predicate AllTraceSourced(img: Image, fn: int, order: seq<int>, known: map<int, set<int>>,
                                  tables: map<int, seq<Word>>, reached: set<int>, flow: seq<int>) {
    forall a | a in reached || a in flow :: TraceSourced(img, fn, order, known, tables, a)
  }

  /** Each instruction observed has its source among those observed before it. */
  ghost predicate OrderSourced(img: Image, fn: int, order: seq<int>, known: map<int, set<int>>,
                               tables: map<int, seq<Word>>) {
    order == [] ||
    var n := |order| - 1;
    OrderSourced(img, fn, order[..n], known, tables) && TraceSourced(img, fn, order[..n], known, tables, order[n])
  }

  ghost predicate TablesGrow(tables: map<int, seq<Word>>, tables': map<int, seq<Word>>) {
    forall pc | pc in tables :: pc in tables' && tables'[pc] == tables[pc]
  }

  lemma SourcedMore(img: Image, fn: int, order: seq<int>, known: map<int, set<int>>, tables: map<int, seq<Word>>,
                    reached: set<int>, flow: seq<int>,
                    order': seq<int>, known': map<int, set<int>>, tables': map<int, seq<Word>>)
    requires AllTraceSourced(img, fn, order, known, tables, reached, flow)
    requires order <= order' && KnownGrows(known, known') && TablesGrow(tables, tables')
    ensures AllTraceSourced(img, fn, order', known', tables', reached, flow)
  {
    forall a | a in reached || a in flow ensures TraceSourced(img, fn, order', known', tables', a) {
      assert TraceSourced(img, fn, order, known, tables, a);
      StillSourced(img, fn, order, known, tables, order', known', tables', a);
    }
  }

  lemma StillSourced(img: Image, fn: int, order: seq<int>, known: map<int, set<int>>, tables: map<int, seq<Word>>,
                     order': seq<int>, known': map<int, set<int>>, tables': map<int, seq<Word>>, a: int)
    requires TraceSourced(img, fn, order, known, tables, a)
    requires order <= order' && KnownGrows(known, known') && TablesGrow(tables, tables')
    ensures TraceSourced(img, fn, order', known', tables', a)
  {
    if p :| p in order && LeadsOn(img, known, p, a) {
      assert p in order' && LeadsOn(img, known', p, a);
    } else if d :| d in order && d in tables && a in tables[d] {
      assert d in order' && d in tables' && a in tables'[d];
    }
  }

  lemma {:induction false} OrderSourcedMore(img: Image, fn: int, order: seq<int>, known: map<int, set<int>>,
                                            tables: map<int, seq<Word>>, known': map<int, set<int>>,
                                            tables': map<int, seq<Word>>)
    requires OrderSourced(img, fn, order, known, tables) && KnownGrows(known, known') && TablesGrow(tables, tables')
    ensures OrderSourced(img, fn, order, known', tables')
  {
    if order != [] {
      var n := |order| - 1;
      OrderSourcedMore(img, fn, order[..n], known, tables, known', tables');
      StillSourced(img, fn, order[..n], known, tables, order[..n], known', tables', order[n]);
    }
  }

  /** Visiting an address adds what it leads to. */
  lemma SourcedVisit(img: Image, fn: int, order: seq<int>, known: map<int, set<int>>, tables: map<int, seq<Word>>,
                     reached: set<int>, flow: seq<int>, pc: int, known': map<int, set<int>>, flow': seq<int>)
    requires AllTraceSourced(img, fn, order, known, tables, reached, [pc] + flow)
    requires OrderSourced(img, fn, order, known, tables) && KnownGrows(known, known')
    requires forall a | a in flow' :: a in flow || LeadsOn(img, known', pc, a)
    ensures AllTraceSourced(img, fn, order + [pc], known', tables, reached + {pc}, flow')
            && OrderSourced(img, fn, order + [pc], known', tables)
  {
    var order' := order + [pc];
    assert order'[..|order|] == order && pc in [pc] + flow;
    OrderSourcedMore(img, fn, order, known, tables, known', tables);
    assert TraceSourced(img, fn, order, known, tables, pc);
    StillSourced(img, fn, order, known, tables, order, known', tables, pc);
    SourcedMore(img, fn, order, known, tables, reached, [pc] + flow, order', known', tables);
    forall a | a in reached + {pc} || a in flow' ensures TraceSourced(img, fn, order', known', tables, a) {
      assert a in reached || a in [pc] + flow || (pc in order' && LeadsOn(img, known', pc, a));
    }
  }

  /** Recovered tables add their entries. */
  lemma SourcedTables(img: Image, fn: int, order: seq<int>, known: map<int, set<int>>, tables: map<int, seq<Word>>,
                      reached: set<int>, flow: seq<int>)
    requires AllTraceSourced(img, fn, order, known, tables, reached, [])
    requires forall a | a in flow :: exists d :: d in order && d in tables && a in tables[d]
    ensures AllTraceSourced(img, fn, order, known, tables, reached, flow)
  {
    forall a | a in flow ensures TraceSourced(img, fn, order, known, tables, a) {
    }
  }

  /** What the instruction at `pc` puts on the worklist: a callee, or the target of a tail call. */
  ghost function EnqueuedBy(img: Image, known: map<int, set<int>>, pc: int): set<int> {
    if TailCall(img, known, pc) && !OnlyReferred(img, pc, JumpTarget(img, pc).value) then {JumpTarget(img, pc).value}
    else Callees(img, pc)
  }

  /** What it makes a function of: a callee, or the target of a near tail call. */
  ghost function MintedBy(img: Image, known: map<int, set<int>>, pc: int): set<int> {
    if JumpTarget(img, pc).Some? then (if img.flow(pc).value.rel32 then EnqueuedBy(img, known, pc) else {})
    else Callees(img, pc)
  }

  ghost function Enqueued(img: Image, known: map<int, set<int>>, order: seq<int>): set<int> {
    set pc, a | pc in order && a in EnqueuedBy(img, known, pc) :: a
  }

  ghost function Minted(img: Image, known: map<int, set<int>>, order: seq<int>): set<int> {
    set pc, a | pc in order && a in MintedBy(img, known, pc) :: a
  }

  /** The worklist and the functions of a moment. */
  datatype Awaited = Awaited(pending: set<int>, functions: set<int>)

  /** Those after the instructions of `order` have been observed. */
  ghost function AwaitedAfter(img: Image, first: Awaited, known: map<int, set<int>>, order: seq<int>): Awaited {
    Awaited(first.pending + Enqueued(img, known, order), first.functions + Minted(img, known, order))
  }

  /** What is noted of each instruction is what was awaited or known just before it. */
  ghost predicate KnownAlong(img: Image, first: Awaited, known: map<int, set<int>>, order: seq<int>) {
    order == [] ||
    var n := |order| - 1;
    var before := AwaitedAfter(img, first, known, order[..n]);
    && KnownAlong(img, first, known, order[..n])
    && order[n] in known && known[order[n]] == before.pending + before.functions
  }

  lemma AwaitedSame(img: Image, first: Awaited, known: map<int, set<int>>, order: seq<int>, known': map<int, set<int>>)
    requires KnownGrows(known, known') && forall pc | pc in order :: pc in known
    ensures AwaitedAfter(img, first, known', order) == AwaitedAfter(img, first, known, order)
  {
    forall pc | pc in order
      ensures EnqueuedBy(img, known', pc) == EnqueuedBy(img, known, pc)
              && MintedBy(img, known', pc) == MintedBy(img, known, pc) {
    }
  }

  lemma {:induction false} KnownAlongGrows(img: Image, first: Awaited, known: map<int, set<int>>, order: seq<int>,
                                           known': map<int, set<int>>)
    requires KnownAlong(img, first, known, order) && KnownGrows(known, known')
    requires forall pc | pc in order :: pc in known
    ensures KnownAlong(img, first, known', order)
  {
    if order != [] {
      var n := |order| - 1;
      KnownAlongGrows(img, first, known, order[..n], known');
      AwaitedSame(img, first, known, order[..n], known');
      var last := order[n];
      assert last in known && known'[last] == known[last];
    }
  }

  /** What is awaited or known now is noted of the next instruction. */
  ghost function NotedNext(img: Image, first: Awaited, known: map<int, set<int>>, order: seq<int>, pc: int)
    : map<int, set<int>>
  {
    var now := AwaitedAfter(img, first, known, order);
    known[pc := now.pending + now.functions]
  }

  ghost predicate NowAwaited(img: Image, first: Awaited, known: map<int, set<int>>, order: seq<int>, pc: int,
                             known': map<int, set<int>>) {
    var now := AwaitedAfter(img, first, known, order);
    AwaitedAfter(img, first, known', order + [pc])
    == Awaited(now.pending + EnqueuedBy(img, known', pc), now.functions + MintedBy(img, known', pc))
  }

  /** What is noted, and of which instructions. */
  ghost predicate NotedAlong(img: Image, first: Awaited, known: map<int, set<int>>, order: seq<int>) {
    known.Keys == Members(order) && KnownAlong(img, first, known, order)
  }

  /** One more instruction is observed. */
  lemma NotedMore(img: Image, first: Awaited, reached: set<int>, known: map<int, set<int>>, order: seq<int>, pc: int,
                  known': map<int, set<int>>)
    requires NotedAlong(img, first, known, order) && Observed(img, reached, order) && pc !in reached
    requires known' == NotedNext(img, first, known, order, pc)
    ensures NotedAlong(img, first, known', order + [pc]) && NowAwaited(img, first, known, order, pc, known')
    ensures KnownGrows(known, known') && pc in known'
  {
    assert pc !in order && forall p | p in order :: p in Members(order);
    assert forall p :: p in order + [pc] <==> p in order || p == pc;
    KnownNext(img, first, known, order, pc, known');
  }

  lemma KnownNext(img: Image, first: Awaited, known: map<int, set<int>>, order: seq<int>, pc: int,
                  known': map<int, set<int>>)
    requires KnownAlong(img, first, known, order) && pc !in known && forall p | p in order :: p in known
    requires known' == NotedNext(img, first, known, order, pc)
    ensures KnownAlong(img, first, known', order + [pc]) && NowAwaited(img, first, known, order, pc, known')
  {
    KnownAlongGrows(img, first, known, order, known');
    AwaitedSame(img, first, known, order, known');
    UnionNext(img, known', order, pc);
    KnownMore(img, first, known', order, pc);
  }

  lemma KnownMore(img: Image, first: Awaited, known: map<int, set<int>>, order: seq<int>, pc: int)
    requires KnownAlong(img, first, known, order) && pc in known
    requires var now := AwaitedAfter(img, first, known, order); known[pc] == now.pending + now.functions
    ensures KnownAlong(img, first, known, order + [pc])
  {
    assert (order + [pc])[..|order|] == order;
  }

  lemma UnionNext(img: Image, known: map<int, set<int>>, order: seq<int>, pc: int)
    ensures Enqueued(img, known, order + [pc]) == Enqueued(img, known, order) + EnqueuedBy(img, known, pc)
    ensures Minted(img, known, order + [pc]) == Minted(img, known, order) + MintedBy(img, known, pc)
  {
    assert forall p :: p in order + [pc] <==> p in order || p == pc;
  }

  /**
   * A jump whose target was awaited or known is no way on of its trace, and the target is on the worklist after it,
   * unless it is only referred to; every other near jump is followed in the same trace.
   */
  lemma JumpDecided(img: Image, traced: Traced, entries: set<int>, pc: int)
    requires Complete(img, traced, entries) && pc in traced.order && JumpTarget(img, pc).Some?
    ensures var target := JumpTarget(img, pc).value;
            if target in traced.known[pc] then
              && (forall a :: !LeadsOn(img, traced.known, pc, a))
              && (OnlyReferred(img, pc, target) || target in Enqueued(img, traced.known, traced.order))
            else target in traced.visited
  {
    JumpFollowed(img, traced.known, traced.visited, traced.order, entries, pc);
    if TailCall(img, traced.known, pc) {
      TailLeadsNowhere(img, traced.known, pc);
      if !OnlyReferred(img, pc, JumpTarget(img, pc).value) {
        EnqueuedHas(img, traced.known, traced.order, pc);
      }
    }
  }

  lemma JumpFollowed(img: Image, known: map<int, set<int>>, visited: set<int>, order: seq<int>, entries: set<int>,
                     pc: int)
    requires AllFollowed(img, known, visited, visited, entries) && Observed(img, visited, order)
    requires pc in order && JumpTarget(img, pc).Some?
    ensures pc in known && (TailCall(img, known, pc) || JumpTarget(img, pc).value in visited)
  {
    assert pc in visited && img.Decoded(pc);
    assert Followed(img, known, pc, visited, entries);
  }

  lemma TailLeadsNowhere(img: Image, known: map<int, set<int>>, pc: int)
    requires TailCall(img, known, pc)
    ensures forall a :: !LeadsOn(img, known, pc, a)
  {
  }

  lemma EnqueuedHas(img: Image, known: map<int, set<int>>, order: seq<int>, pc: int)
    requires pc in order && TailCall(img, known, pc) && !OnlyReferred(img, pc, JumpTarget(img, pc).value)
    ensures JumpTarget(img, pc).value in Enqueued(img, known, order)
  {
    assert JumpTarget(img, pc).value in EnqueuedBy(img, known, pc);
  }

  /** One turn of the worklist: what was awaited and known before it, and the trace it made, if it did. */
  datatype Turn = Turn(before: Awaited, traced: Option<Traced>)

  /** The least entry is dropped or traced; once there is none, data words are awaited instead. */
  ghost predicate TurnGives(img: Image, turn: Turn, after: Awaited) {
    var b := turn.before;
    if b.pending == {} then
      && turn.traced.None? && after.functions == b.functions
      && forall va | va in after.pending :: va in img.words && img.Decoded(va)
    else
      var fn := Least(b.pending);
      match turn.traced
      case None => after == Awaited(b.pending - {fn}, b.functions)
      case Some(traced) =>
        var first := Awaited(b.pending - {fn}, b.functions + {fn});
        && traced.fn == fn && !img.inside(fn) && KnownAlong(img, first, traced.known, traced.order)
        && after == AwaitedAfter(img, first, traced.known, traced.order)
  }

  ghost predicate Ran(img: Image, first: Awaited, history: seq<Turn>, now: Awaited) {
    if history == [] then now == first else
      var n := |history| - 1;
      Ran(img, first, history[..n], history[n].before) && TurnGives(img, history[n], now)
  }

  ghost function TracesOf(history: seq<Turn>): set<Traced> {
    set turn | turn in history && turn.traced.Some? :: turn.traced.value
  }

  lemma RanMore(img: Image, first: Awaited, history: seq<Turn>, turn: Turn, now: Awaited)
    requires Ran(img, first, history, turn.before) && TurnGives(img, turn, now)
    ensures Ran(img, first, history + [turn], now)
    ensures TracesOf(history + [turn]) == With(TracesOf(history), turn)
  {
    assert (history + [turn])[..|history|] == history;
    assert forall t :: t in history + [turn] <==> t in history || t == turn;
  }

  /** The functions in the end: those known at first, every entry traced, and every callee or tail call minted. */
  lemma {:induction false} FunctionsAre(img: Image, first: Awaited, history: seq<Turn>, now: Awaited)
    requires Ran(img, first, history, now)
    ensures forall f :: f in now.functions <==>
              f in first.functions || exists traced :: traced in TracesOf(history) && MadeBy(img, traced, f)
  {
    if history != [] {
      var n := |history| - 1;
      FunctionsAre(img, first, history[..n], history[n].before);
      RanMore(img, first, history[..n], history[n], now);
      assert history == history[..n] + [history[n]];
    }
  }

  ghost predicate MadeBy(img: Image, traced: Traced, f: int) {
    f == traced.fn || f in Minted(img, traced.known, traced.order)
  }

  /** Some decoded span, perhaps overwritten since, holds the address. */
  ghost predicate EverSpanned(ever: set<(int, int)>, va: int) {
    exists span | span in ever :: span.0 <= va < span.1
  }

  ghost function SpanSet(spans: map<int, int>): set<(int, int)> {
    set start | start in spans :: (start, spans[start])
  }

  /** The span of an instruction observed, or of a table recovered. */
  ghost predicate Traces(img: Image, order: seq<int>, tables: map<int, seq<Word>>, span: (int, int)) {
    || (span.0 in order && span.1 == img.code.at(span.0).1)
    || exists pc :: TableAt(img, tables, pc, span)
  }

  ghost predicate TableAt(img: Image, tables: map<int, seq<Word>>, pc: int, span: (int, int)) {
    && pc in tables && IsDispatchAt(img.code, pc)
    && span.0 == img.code.at(pc).0.through.disp && span.1 == span.0 + 4 * |tables[pc]|
  }

  /** Every span ever decoded was there first, or is of what the trace has observed and recovered. */
  ghost predicate EverIn(img: Image, first: set<(int, int)>, ever: set<(int, int)>, order: seq<int>,
                         tables: map<int, seq<Word>>) {
    forall span | span in ever && span !in first :: Traces(img, order, tables, span)
  }

  lemma EverGrows(img: Image, first: set<(int, int)>, ever: set<(int, int)>, order: seq<int>,
                  tables: map<int, seq<Word>>,
                  order': seq<int>, tables': map<int, seq<Word>>)
    requires EverIn(img, first, ever, order, tables)
    requires order <= order' && TablesGrow(tables, tables')
    ensures EverIn(img, first, ever, order', tables')
  {
    forall span | span in ever && span !in first ensures Traces(img, order', tables', span) {
      assert Traces(img, order, tables, span);
      if pc :| TableAt(img, tables, pc, span) {
        assert TableAt(img, tables', pc, span);
      }
    }
  }

  /** What a call at `pc` enqueues: its target in the code, resolved, and in no known function. */
  function Callees(img: Image, pc: int): set<int> {
    match img.flow(pc)
    case Some(CallNear(target, rel32)) =>
      if img.Near(target) && !img.CallUnresolved(pc, rel32) && !img.inside(target.value) then {target.value} else {}
    case _ => {}
  }

  /** Every entry was there first, or is called by an instruction that the trace has observed. */
  ghost predicate EntriesIn(img: Image, first: set<int>, entries: set<int>, order: seq<int>) {
    forall e | e in entries && e !in first :: CalledFrom(img, order, e)
  }

  ghost predicate CalledFrom(img: Image, order: seq<int>, e: int) {
    exists pc :: pc in order && e in Callees(img, pc)
  }

  lemma EntriesGrow(img: Image, first: set<int>, entries: set<int>, order: seq<int>, pc: int, entries': set<int>)
    requires EntriesIn(img, first, entries, order) && entries' - entries <= Callees(img, pc)
    ensures EntriesIn(img, first, entries', order + [pc])
  {
    forall e | e in entries' && e !in first ensures CalledFrom(img, order + [pc], e) {
      if e in entries {
        var caller :| caller in order && e in Callees(img, caller);
        assert caller in order + [pc];
      } else {
        assert e in entries' - entries && pc in order + [pc];
      }
    }
  }

  /** Every entry is an origin, or is called by an instruction of some trace. */
  ghost predicate AllCalled(img: Image, origins: set<int>, entries: set<int>, traces: set<Traced>) {
    forall e | e in entries && e !in origins :: exists traced :: traced in traces && CalledFrom(img, traced.order, e)
  }

  lemma CalledGrows(img: Image, origins: set<int>, entries: set<int>, traces: set<Traced>, traced: Traced,
                    entries': set<int>)
    requires AllCalled(img, origins, entries, traces) && EntriesIn(img, entries, entries', traced.order)
    ensures AllCalled(img, origins, entries', traces + {traced})
  {
    forall e | e in entries' && e !in origins
      ensures exists t :: t in traces + {traced} && CalledFrom(img, t.order, e) {
      if e in entries {
        var t :| t in traces && CalledFrom(img, t.order, e);
        assert t in traces + {traced};
      } else {
        assert traced in traces + {traced};
      }
    }
  }

  /** What a trace begins with. */
  datatype First = First(awaited: Awaited, entries: set<int>, ever: set<(int, int)>)

  /** Recovering tables adds only their spans. */
  lemma TableSpans(img: Image, fn: int, order: seq<int>, spans: map<int, int>, spans': map<int, int>,
                   dispatches: map<int, Operand>, found: map<int, seq<Word>>,
                   was: set<int>, recovered: set<int>, tables: map<int, seq<Word>>, tables': map<int, seq<Word>>)
    requires SpansFrom(spans, spans', dispatches, found, recovered - was)
             && FoundTables(img.code, fn, order, dispatches, found)
    requires tables' == WithTables(was, tables, recovered, found)
    ensures forall span | span in SpanSet(spans') && span !in SpanSet(spans) :: Traces(img, order, tables', span)
  {
    forall span | span in SpanSet(spans') && span !in SpanSet(spans) ensures Traces(img, order, tables', span) {
      var start := span.0;
      var pc :| pc in recovered - was && TableSpan(dispatches, found, pc, start, spans'[start]);
      assert TableAt(img, tables', pc, span);
    }
  }

  lemma SpansStayIn(code: Code, fn: int, order: seq<int>, spans: map<int, int>, spans': map<int, int>,
                    dispatches: map<int, Operand>, found: map<int, seq<Word>>, pcs: set<int>)
    requires SpansIn(code, spans) && FoundTables(code, fn, order, dispatches, found)
    requires SpansFrom(spans, spans', dispatches, found, pcs)
    ensures SpansIn(code, spans')
  {
    forall start | start in spans' ensures code.base <= start < spans'[start] <= code.base + |code.data| {
      if !(start in spans && spans'[start] == spans[start]) {
        var pc :| pc in pcs && TableSpan(dispatches, found, pc, start, spans'[start]);
      }
    }
  }

  /** Every span ever decoded is of an instruction or a table of a complete trace. */
  ghost predicate AllTraced(img: Image, traces: set<Traced>, ever: set<(int, int)>) {
    forall span | span in ever :: exists traced :: traced in traces && Traces(img, traced.order, traced.tables, span)
  }

  lemma WithinIsSpanned(spans: map<int, int>, ever: set<(int, int)>, va: int)
    requires SpanSet(spans) <= ever && WithinSpan(spans, va)
    ensures EverSpanned(ever, va)
  {
    var start := Floor(spans.Keys, va).value;
    assert (start, spans[start]) in SpanSet(spans);
  }

  /**
   * What became of an entry: it is inside a known function, inside an instruction or table of a trace, or
   * traced itself.
   */
  ghost predicate Settled(img: Image, entry: int, traces: set<Traced>, ever: set<(int, int)>) {
    || img.inside(entry)
    || EverSpanned(ever, entry)
    || exists traced :: traced in traces && traced.fn == entry
  }

  ghost predicate AllSettled(img: Image, settled: set<int>, traces: set<Traced>, ever: set<(int, int)>) {
    forall entry | entry in settled :: Settled(img, entry, traces, ever)
  }

  /** Each address seen has been visited or waits in the queue. */
  ghost predicate Queued(seen: set<int>, visited: set<int>, flow: seq<int>) {
    forall pc | pc in seen :: pc in visited || pc in flow
  }

  ghost predicate AllInCode(img: Image, pcs: set<int>) {
    forall pc | pc in pcs :: img.InCode(pc)
  }

  /** What is left of a trace: addresses to visit, then dispatches to recover. */
  ghost function Left(img: Image, pcs: set<int>): nat {
    Executors.Remaining(img.code.base, img.End(), pcs)
  }

  lemma LeftShrinks(img: Image, before: set<int>, after: set<int>)
    requires before <= after
    ensures Left(img, after) <= Left(img, before)
    ensures AllInCode(img, after) ==> after == before || Left(img, after) < Left(img, before)
    ensures forall pc | pc in after && pc !in before && img.InCode(pc) :: Left(img, after) < Left(img, before)
  {
    Executors.RemainingShrinks(img.code.base, img.End(), before, after);
    if AllInCode(img, after) && after != before {
      assert before + (after - before) == after;
      SomeMember(after - before);
      var pc :| pc in after - before;
    }
  }

  /** The first `n` data words that are taken for function pointers. */
  ghost function Pointers(img: Image, spans: map<int, int>, n: nat): set<int>
    requires n <= |img.words|
  {
    set i | 0 <= i < n && img.Decoded(img.words[i]) && !WithinSpan(spans, img.words[i]) :: img.words[i]
  }

  ghost predicate WordsCovered(img: Image, entries: set<int>, ever: set<(int, int)>) {
    forall va | va in img.words && img.Decoded(va) :: va in entries || EverSpanned(ever, va)
  }

  /** What a trace keeps: of what it has visited and queued, observed, recovered, enqueued and decoded. */
  ghost predicate InTrace(img: Image, fn: int, recovered: set<int>, entries: set<int>, ever: set<(int, int)>,
                          first: First, reached: set<int>, flow: seq<int>, seen: set<int>, order: seq<int>,
                          known: map<int, set<int>>, tables: map<int, seq<Word>>) {
    && Queued(seen, reached, flow) && AllFollowed(img, known, reached, seen, entries) && Observed(img, reached, order)
    && TablesFollowed(img.code, fn, order, recovered, tables, seen)
    && OrderSourced(img, fn, order, known, tables) && AllTraceSourced(img, fn, order, known, tables, reached, flow)
    && AllIn(recovered, order)
    && EverIn(img, first.ever, ever, order, tables) && EntriesIn(img, first.entries, entries, order)
  }

  lemma VisitSkipped(img: Image, fn: int, recovered: set<int>, entries: set<int>, ever: set<(int, int)>, first: First,
                     reached: set<int>, pc: int, flow: seq<int>, seen: set<int>, order: seq<int>,
                     known: map<int, set<int>>, tables: map<int, seq<Word>>)
    requires InTrace(img, fn, recovered, entries, ever, first, reached, [pc] + flow, seen, order, known, tables)
    requires pc in reached || !img.Decoded(pc)
    ensures InTrace(img, fn, recovered, entries, ever, first, reached + {pc}, flow, seen, order, known, tables)
  {
    assert pc in [pc] + flow;
    forall a | a in reached + {pc} || a in flow ensures TraceSourced(img, fn, order, known, tables, a) {
      assert a in reached || a in [pc] + flow;
    }
  }

  lemma VisitDecoded(img: Image, fn: int, recovered: set<int>, entries: set<int>, entries': set<int>,
                     ever: set<(int, int)>, ever': set<(int, int)>, first: First,
                     reached: set<int>, pc: int, flow: seq<int>, seen: set<int>, order: seq<int>,
                     known: map<int, set<int>>, tables: map<int, seq<Word>>,
                     flow': seq<int>, seen': set<int>, known': map<int, set<int>>)
    requires InTrace(img, fn, recovered, entries, ever, first, reached, [pc] + flow, seen, order, known, tables)
    requires pc !in reached && img.Decoded(pc)
    requires KnownGrows(known, known') && pc in known'
    requires ever' == ever + {(pc, img.code.at(pc).1)} && entries <= entries' && entries' - entries <= Callees(img, pc)
    requires flow <= flow' && seen <= seen' && Followed(img, known', pc, seen', entries')
    requires (forall a | a in seen' :: a in seen || a in flow')
             && (forall a | a in flow' :: a in flow || LeadsOn(img, known', pc, a))
    ensures InTrace(img, fn, recovered, entries', ever', first, reached + {pc}, flow', seen', order + [pc], known',
                    tables)
  {
    assert Queued(seen, reached + {pc}, flow) by {
      assert forall a | a in [pc] + flow :: a == pc || a in flow;
    }
    ObservedNext(img, reached, order, pc);
    EverGrows(img, first.ever, ever, order, tables, order + [pc], tables);
    EntriesGrow(img, first.entries, entries, order, pc, entries');
    TablesMore(img.code, fn, order, recovered, tables, seen, pc, seen');
    SourcedVisit(img, fn, order, known, tables, reached, flow, pc, known', flow');
    FollowedGrows(img, known, reached, seen, entries, known', seen', entries');
  }

  lemma RecoverInTrace(img: Image, fn: int, recovered: set<int>, recovered': set<int>, entries: set<int>,
                       ever: set<(int, int)>, ever': set<(int, int)>, first: First,
                       reached: set<int>, seen: set<int>, order: seq<int>, known: map<int, set<int>>,
                       tables: map<int, seq<Word>>, flow': seq<int>, seen': set<int>, tables': map<int, seq<Word>>)
    requires InTrace(img, fn, recovered, entries, ever, first, reached, [], seen, order, known, tables)
    requires TablesFollowed(img.code, fn, order, recovered', tables', seen') && AllIn(recovered', order)
    requires (forall a | a in flow' :: exists d :: d in order && d in tables' && a in tables'[d])
             && TablesGrow(tables, tables')
    requires seen' == seen + (set a | a in flow') && EverIn(img, ever, ever', order, tables')
    ensures InTrace(img, fn, recovered', entries, ever', first, reached, flow', seen', order, known, tables')
  {
    EverGrows(img, first.ever, ever, order, tables, order, tables');
    SourcedMore(img, fn, order, known, tables, reached, [], order, known, tables');
    OrderSourcedMore(img, fn, order, known, tables, known, tables');
    SourcedTables(img, fn, order, known, tables', reached, flow');
    FollowedGrows(img, known, reached, seen, entries, known, seen', entries);
  }

  /** A trace whose flow has run dry, once the tables that its facts give have been recovered. */
  lemma Recovered(img: Image, fn: int, bounds: Facts, indexes: Facts, dispatches: map<int, Operand>,
                  found: map<int, seq<Word>>,
                  was: set<int>, recovered: set<int>, entries: set<int>, ever: set<(int, int)>, ever': set<(int, int)>,
                  first: First, reached: set<int>, seen: set<int>, order: seq<int>, known: map<int, set<int>>,
                  tables: map<int, seq<Word>>,
                  before: Found, after: Found, log: seq<int>)
    returns (seen': set<int>, tables': map<int, seq<Word>>)
    requires InTrace(img, fn, was, entries, ever, first, reached, [], seen, order, known, tables)
    requires DispatchesObserved(img.code, order, dispatches) && DispatchesDecoded(img.code, dispatches)
    requires bounds == BoundsAlong(img.code, map[], map[], order)
             && indexes == IndexesAlong(img.code, map[], map[], map[], order)
    requires found == TablesOf(img.code, fn, bounds, indexes, dispatches)
    requires SpansIn(img.code, before.spans) && SpanSet(before.spans) <= ever && before.flow == []
    requires AllLogged(log, found.Keys, was, recovered) && SwitchTracking.After(before, dispatches, found, log) == after
    requires ever' == ever + SpanSet(after.spans)
    ensures InTrace(img, fn, recovered, entries, ever', first, reached, after.flow, seen', order, known, tables')
            && seen <= seen'
    ensures TablesComplete(img.code, fn, order, recovered)
    ensures SpansIn(img.code, after.spans) && before.spans.Keys <= after.spans.Keys && was <= recovered
    ensures recovered == was || order == [] ==> after.flow == []
  {
    seen', tables' := seen + (set a | a in after.flow), WithTables(was, tables, recovered, found);
    TablesAreFound(img.code, fn, order, bounds, indexes, dispatches);
    TablesRecovered(img, fn, order, dispatches, found, was, recovered, tables, seen, before, after, log, tables');
    TablesObserved(img.code, fn, order, bounds, indexes, dispatches);
    EverRecovered(img, ever, before.spans, after.spans, order, tables');
    RecoverInTrace(img, fn, was, recovered, entries, ever, ever', first, reached, seen, order, known, tables,
                   after.flow, seen', tables');
    NothingToRecover(order, found.Keys, was, recovered);
  }

  /** A trace with nothing left to visit or to recover is complete. */
  lemma TraceEnds(img: Image, fn: int, recovered: set<int>, entries: set<int>, ever: set<(int, int)>, first: First,
                  reached: set<int>, seen: set<int>, order: seq<int>, known: map<int, set<int>>,
                  tables: map<int, seq<Word>>)
    requires InTrace(img, fn, recovered, entries, ever, first, reached, [], seen, order, known, tables)
    requires TablesComplete(img.code, fn, order, recovered) && fn in seen
    ensures Complete(img, Traced(fn, reached, order, known, tables), entries)
  {
    forall pc | pc in seen ensures pc in reached {
    }
    FollowedGrows(img, known, reached, seen, entries, known, reached, entries);
  }

  lemma EverRecovered(img: Image, ever: set<(int, int)>, spans: map<int, int>, spans': map<int, int>, order: seq<int>,
                      tables: map<int, seq<Word>>)
    requires SpanSet(spans) <= ever
    requires forall span | span in SpanSet(spans') && span !in SpanSet(spans) :: Traces(img, order, tables, span)
    ensures EverIn(img, ever, ever + SpanSet(spans'), order, tables)
  {
  }

  lemma NothingToRecover(order: seq<int>, pcs: set<int>, was: set<int>, recovered: set<int>)
    requires recovered == was + pcs && AllIn(pcs, order)
    ensures order == [] ==> recovered == was
  {
    if order == [] {
      assert forall pc | pc in pcs :: pc in order;
    }
  }

  class Worklist {
    const img: Image
    var pending: set<int>
    var functions: set<int>
    var spans: map<int, int>
    var candidates: seq<Candidate>
    ghost var entries: set<int>
    ghost var ever: set<(int, int)>

    constructor (img: Image, entry: Option<int>, functions: set<int>)
      requires img.Valid()
      ensures this.img == img && Valid()
      ensures pending == entries == functions + (if img.Near(entry) then {entry.value} else {})
      ensures this.functions == functions && spans == map[] && ever == {}
    {
      this.img, this.functions, spans, candidates := img, functions, map[], [];
      pending := functions + if img.Near(entry) then {entry.value} else {};
      entries := functions + if img.Near(entry) then {entry.value} else {};
      ever := {};
    }

    ghost predicate Valid()
      reads this
    {
      && img.Valid()
      && pending <= entries && functions <= entries
      && SpansIn(img.code, spans) && SpanSet(spans) <= ever
    }

    /** The worklist has only grown, and every new entry waits in it. */
    ghost predicate Grown(pending: set<int>, entries: set<int>, spans: map<int, int>, ever: set<(int, int)>)
      reads this
    {
      && Valid()
      && pending <= this.pending && entries <= this.entries && this.entries - entries <= this.pending
      && spans.Keys <= this.spans.Keys && ever <= this.ever
    }

    /** The `match` on the flow control of the instruction at `pc`: queues the ways on, enqueues new entries. */
    method Follow(pc: int, flow: seq<int>, ghost seen: set<int>, ghost known: map<int, set<int>>)
      returns (flow': seq<int>, ghost seen': set<int>)
      requires Valid() && img.Decoded(pc) && pc in known && known[pc] == pending + functions
      modifies this`pending, this`functions, this`entries
      ensures Valid() && old(entries) <= entries
      ensures pending == old(pending) + EnqueuedBy(img, known, pc)
      ensures functions == old(functions) + MintedBy(img, known, pc)
      ensures entries - old(entries) <= pending && entries - old(entries) <= Callees(img, pc)
      ensures flow <= flow' && seen <= seen' && Followed(img, known, pc, seen', entries)
      ensures forall a | a in seen' :: a in seen || a in flow'
      ensures forall a | a in flow' :: a in flow || LeadsOn(img, known, pc, a)
    {
      flow', seen' := flow, seen;
      var next := img.code.at(pc).1;
      match img.flow(pc).value {
        case Fall =>
          flow' := flow' + [next];
          seen' := seen' + {next};
        case Cond(target) =>
          flow' := flow' + [next];
          seen' := seen' + {next};
          if img.Near(target) {
            flow' := flow' + [target.value];
            seen' := seen' + {target.value};
          }
        case CallNear(target, rel32) =>
          if img.Near(target) && !img.CallUnresolved(pc, rel32) && !img.inside(target.value) {
            functions := functions + {target.value};
            pending := pending + {target.value};
            entries := entries + {target.value};
          }
          flow' := flow' + [next];
          seen' := seen' + {next};
        case Jump(target, rel32) =>
          if img.Near(target) && !img.JumpUnresolved(pc, rel32) {
            if target.value !in pending && target.value !in functions {
              flow' := flow' + [target.value];
              seen' := seen' + {target.value};
            } else if rel32 && !img.inside(target.value) {
              functions := functions + {target.value};
              pending := pending + {target.value};
            } else if !rel32 {
              pending := pending + {target.value};
            }
          }
        case Indirect(table) =>
          if !img.TableNext(pc, table) {
            flow' := flow' + [next];
            seen' := seen' + {next};
          }
        case Stop =>
      }
    }

    /** The tracker's state once the instructions of a trace have been observed in this order. */
    ghost predicate Tracking(tracker: SwitchTracker, order: seq<int>)
      reads tracker`cmpAfter, tracker`boundAt, tracker`indexTableAt, tracker`dispatches
    {
      && tracker.Valid() && tracker.code == img.code
      && FactsAlong(img.code, order, tracker.cmpAfter, tracker.boundAt, tracker.indexTableAt)
      && DispatchesObserved(img.code, order, tracker.dispatches)
    }

    /** Decodes the instruction at `pc`, lets the tracker observe it, and follows its flow. */
    method Decode(pc: int, tracker: SwitchTracker, flow: seq<int>, ghost seen: set<int>, ghost order: seq<int>,
                  ghost known: map<int, set<int>>)
      returns (flow': seq<int>, ghost seen': set<int>)
      requires Valid() && img.Decoded(pc) && Tracking(tracker, order) && pc in known && known[pc] == pending + functions
      modifies this`pending, this`functions, this`spans, this`entries, this`ever, tracker
      ensures Grown(old(pending), old(entries), old(spans), old(ever))
      ensures entries - old(entries) <= Callees(img, pc)
      ensures pending == old(pending) + EnqueuedBy(img, known, pc)
      ensures functions == old(functions) + MintedBy(img, known, pc)
      ensures spans == old(spans)[pc := img.code.at(pc).1] && ever == old(ever) + {(pc, img.code.at(pc).1)}
      ensures Tracking(tracker, order + [pc]) && tracker.recovered == old(tracker.recovered)
      ensures flow <= flow' && seen <= seen' && Followed(img, known, pc, seen', entries)
      ensures forall a | a in seen' :: a in seen || a in flow'
      ensures forall a | a in flow' :: a in flow || LeadsOn(img, known, pc, a)
    {
      var next := img.code.at(pc).1;
      spans := spans[pc := next];
      ever := ever + {(pc, next)};
      FactsNext(img.code, order, pc, tracker.cmpAfter, tracker.boundAt, tracker.indexTableAt, tracker.dispatches);
      tracker.Observe(pc);
      flow', seen' := Follow(pc, flow, seen, known);
    }

    /** Where a trace stands between two visits. */
    ghost predicate Visited(tracker: SwitchTracker, reached: set<int>, flow: seq<int>, seen: set<int>, order: seq<int>,
                            known: map<int, set<int>>, tables: map<int, seq<Word>>, first: First)
      reads this, tracker
    {
      && Valid() && Tracking(tracker, order)
      && Awaited(pending, functions) == AwaitedAfter(img, first.awaited, known, order)
      && NotedAlong(img, first.awaited, known, order)
      && InTrace(img, tracker.fnVa, tracker.recovered, entries, ever, first, reached, flow, seen, order, known, tables)
    }

    ghost predicate Tracing(tracker: SwitchTracker, reached: set<int>, flow: seq<int>, seen: set<int>, order: seq<int>,
                            known: map<int, set<int>>, tables: map<int, seq<Word>>, first: First)
      reads this, tracker
    {
      && Visited(tracker, reached, flow, seen, order, known, tables, first)
      && (flow == [] ==> TablesComplete(img.code, tracker.fnVa, order, tracker.recovered))
    }

    /** Adds the targets of the jump tables that can be recovered to a flow that has run dry. */
    method RecoverTables(tracker: SwitchTracker) returns (flow': seq<int>, ghost log: seq<int>)
      requires DispatchesDecoded(img.code, tracker.dispatches) && tracker.code == img.code
      modifies this`candidates, this`spans, this`ever, tracker`recovered
      ensures AllLogged(log, tracker.Tables().Keys, old(tracker.recovered), tracker.recovered)
      ensures SwitchTracking.After(Found(old(candidates), old(spans), []), tracker.dispatches, tracker.Tables(), log)
              == Found(candidates, spans, flow')
      ensures ever == old(ever) + SpanSet(spans)
    {
      candidates, spans, flow', log := tracker.Recover(candidates, spans, []);
      ever := ever + SpanSet(spans);
    }

    /** `flow.pop_front()`, or once the flow runs dry what the recovered jump tables add to it. */
    method Replenish(tracker: SwitchTracker, ghost reached: set<int>, flow: seq<int>, ghost seen: set<int>,
                     ghost order: seq<int>, ghost known: map<int, set<int>>, ghost tables: map<int, seq<Word>>,
                     ghost first: First)
      returns (flow': seq<int>, ghost seen': set<int>, ghost tables': map<int, seq<Word>>)
      requires Visited(tracker, reached, flow, seen, order, known, tables, first)
      modifies this`candidates, this`spans, this`ever, tracker`recovered
      ensures Tracing(tracker, reached, flow', seen', order, known, tables', first) && seen <= seen'
      ensures old(spans).Keys <= spans.Keys && old(ever) <= ever && old(tracker.recovered) <= tracker.recovered
      ensures tracker.recovered == old(tracker.recovered) || order == [] ==> flow' == flow
    {
      flow', seen', tables' := flow, seen, tables;
      if flow == [] {
        flow', seen', tables' := RecoverFlow(tracker, reached, seen, order, known, tables, first);
      }
    }

    method RecoverFlow(tracker: SwitchTracker, ghost reached: set<int>, ghost seen: set<int>,
                       ghost order: seq<int>, ghost known: map<int, set<int>>, ghost tables: map<int, seq<Word>>,
                       ghost first: First)
      returns (flow': seq<int>, ghost seen': set<int>, ghost tables': map<int, seq<Word>>)
      requires Valid() && Tracking(tracker, order)
      requires InTrace(img, tracker.fnVa, tracker.recovered, entries, ever, first, reached, [], seen, order, known,
                       tables)
      modifies this`candidates, this`spans, this`ever, tracker`recovered
      ensures InTrace(img, tracker.fnVa, tracker.recovered, entries, ever, first, reached, flow', seen', order, known,
                      tables')
      ensures Valid() && TablesComplete(img.code, tracker.fnVa, order, tracker.recovered) && seen <= seen'
      ensures old(spans).Keys <= spans.Keys && old(ever) <= ever && old(tracker.recovered) <= tracker.recovered
      ensures tracker.recovered == old(tracker.recovered) || order == [] ==> flow' == []
    {
      ghost var log;
      ghost var before, found := Found(candidates, spans, []), tracker.Tables();
      flow', log := RecoverTables(tracker);
      seen', tables' := Recovered(img, tracker.fnVa, tracker.boundAt, tracker.indexTableAt, tracker.dispatches, found,
                                  old(tracker.recovered), tracker.recovered, entries, old(ever), ever, first,
                                  reached, seen, order, known, tables, before, Found(candidates, spans, flow'), log);
    }

    /** Visits the address at the front of the queue. */
    method VisitNext(pc: int, tracker: SwitchTracker, reached: set<int>, flow: seq<int>, ghost seen: set<int>,
                     ghost order: seq<int>, ghost known: map<int, set<int>>, ghost tables: map<int, seq<Word>>,
                     ghost first: First)
      returns (flow': seq<int>, ghost seen': set<int>, ghost order': seq<int>, ghost known': map<int, set<int>>)
      requires Visited(tracker, reached, [pc] + flow, seen, order, known, tables, first)
      modifies this`pending, this`functions, this`spans, this`entries, this`ever, tracker
      ensures Grown(old(pending), old(entries), old(spans), old(ever))
      ensures Visited(tracker, reached + {pc}, flow', seen', order', known', tables, first)
              && tracker.recovered == old(tracker.recovered)
      ensures seen <= seen'
      ensures if pc !in reached && img.Decoded(pc) then pc in spans && order' == order + [pc]
              else flow' == flow && pending == old(pending) && order' == order
    {
      order', known' := order, known;
      if pc !in reached && img.Decoded(pc) {
        order', known' := order + [pc], NotedNext(img, first.awaited, known, order, pc);
        flow', seen' := DecodeNext(pc, tracker, reached, flow, seen, order, known, tables, first, known');
      } else {
        flow', seen' := flow, seen;
        VisitSkipped(img, tracker.fnVa, tracker.recovered, entries, ever, first, reached, pc, flow, seen, order, known,
                     tables);
      }
    }

    method DecodeNext(pc: int, tracker: SwitchTracker, ghost reached: set<int>, flow: seq<int>, ghost seen: set<int>,
                      ghost order: seq<int>, ghost known: map<int, set<int>>, ghost tables: map<int, seq<Word>>,
                      ghost first: First, ghost known': map<int, set<int>>)
      returns (flow': seq<int>, ghost seen': set<int>)
      requires Visited(tracker, reached, [pc] + flow, seen, order, known, tables, first)
      requires pc !in reached && img.Decoded(pc) && known' == NotedNext(img, first.awaited, known, order, pc)
      modifies this`pending, this`functions, this`spans, this`entries, this`ever, tracker
      ensures Grown(old(pending), old(entries), old(spans), old(ever)) && tracker.recovered == old(tracker.recovered)
      ensures Visited(tracker, reached + {pc}, flow', seen', order + [pc], known', tables, first) && seen <= seen'
              && pc in spans
    {
      NotedMore(img, first.awaited, reached, known, order, pc, known');
      flow', seen' := Decode(pc, tracker, flow, seen, order, known');
      VisitDecoded(img, tracker.fnVa, tracker.recovered, old(entries), entries, old(ever), ever, first, reached, pc,
                   flow, seen, order, known, tables, flow', seen', known');
    }

    /** Visits the next address and, when the flow runs dry, recovers jump tables. */
    method TraceNext(tracker: SwitchTracker, reached: set<int>, flow: seq<int>, ghost seen: set<int>,
                     ghost order: seq<int>, ghost known: map<int, set<int>>, ghost tables: map<int, seq<Word>>,
                     ghost first: First)
      returns (reached': set<int>, flow': seq<int>, ghost seen': set<int>, ghost order': seq<int>,
               ghost known': map<int, set<int>>, ghost tables': map<int, seq<Word>>)
      requires Tracing(tracker, reached, flow, seen, order, known, tables, first) && flow != []
      modifies this`pending, this`functions, this`spans, this`candidates, this`entries, this`ever, tracker
      ensures Tracing(tracker, reached', flow', seen', order', known', tables', first)
      ensures Grown(old(pending), old(entries), old(spans), old(ever))
      ensures reached' == reached + {flow[0]} && seen <= seen'
      ensures Less(Left(img, reached'), Left(img, tracker.recovered), |flow'|, Left(img, reached),
                   Left(img, old(tracker.recovered)), |flow|)
      ensures if flow[0] !in reached && img.Decoded(flow[0]) then flow[0] in spans
              else pending == old(pending) && order' == order && (order == [] ==> flow' == flow[1..])
    {
      var pc := flow[0];
      assert flow == [pc] + flow[1..];
      reached' := reached + {pc};
      flow', seen', order', known' := VisitNext(pc, tracker, reached, flow[1..], seen, order, known, tables, first);
      flow', seen', tables' := Replenish(tracker, reached', flow', seen', order', known', tables, first);
      LeftShrinks(img, reached, reached');
      LeftShrinks(img, old(tracker.recovered), tracker.recovered);
    }

    /** The flow-based trace of one function. */
    method Trace(fn: int) returns (ghost traced: Traced)
      requires Valid()
      modifies this`pending, this`functions, this`spans, this`candidates, this`entries, this`ever
      ensures Grown(old(pending), old(entries), old(spans), old(ever))
      ensures traced.fn == fn && Complete(img, traced, entries)
              && EverIn(img, old(ever), ever, traced.order, traced.tables)
      ensures EntriesIn(img, old(entries), entries, traced.order)
      ensures KnownAlong(img, old(Awaited(pending, functions)), traced.known, traced.order)
      ensures Awaited(pending, functions)
              == AwaitedAfter(img, old(Awaited(pending, functions)), traced.known, traced.order)
      ensures if img.Decoded(fn) then fn in spans else pending == old(pending)
    {
      var tracker := new SwitchTracker(img.code, fn);
      var reached: set<int>, flow := {}, [fn];
      ghost var seen, order, known, tables := {fn}, [], map[], map[];
      ghost var first := First(Awaited(pending, functions), entries, ever);
      while flow != []
        invariant Tracing(tracker, reached, flow, seen, order, known, tables, first) && tracker.fnVa == fn && fn in seen
        invariant Grown(old(pending), old(entries), old(spans), old(ever))
        invariant if img.Decoded(fn) then (if fn in reached then fn in spans else flow == [fn])
                  else pending == old(pending) && order == [] && (flow == [] || flow == [fn])
        decreases Left(img, reached), Left(img, tracker.recovered), |flow|
      {
        reached, flow, seen, order, known, tables :=
          TraceNext(tracker, reached, flow, seen, order, known, tables, first);
      }
      traced := Traced(fn, reached, order, known, tables);
      TraceEnds(img, fn, tracker.recovered, entries, ever, first, reached, seen, order, known, tables);
    }

    /** Phase 2: the words of the data sections that point at an instruction not yet decoded. */
    method ScanData()
      requires Valid()
      modifies this`pending, this`entries
      ensures Grown(old(pending), old(entries), spans, ever)
      ensures pending == old(pending) + Pointers(img, spans, |img.words|)
      ensures entries == old(entries) + Pointers(img, spans, |img.words|)
    {
      for i := 0 to |img.words|
        invariant Grown(old(pending), old(entries), spans, ever)
        invariant pending == old(pending) + Pointers(img, spans, i)
        invariant entries == old(entries) + Pointers(img, spans, i)
      {
        var va := img.words[i];
        if img.Decoded(va) && va !in pending && !WithinSpan(spans, va) {
          pending := pending + {va};
        }
        entries := entries + Pointers(img, spans, i + 1);
      }
    }

    /** The traces so far: complete, the only source of spans, and what settles the entries no longer pending. */
    ghost predicate Settling(traces: set<Traced>)
      reads this
    {
      && Valid() && AllComplete(img, traces, entries) && AllTraced(img, traces, ever)
      && AllSettled(img, entries - pending, traces, ever)
    }

    /** One entry off the worklist: skipped when inside a decoded span or a known function, else traced. */
    method Dequeue(ghost traces: set<Traced>, ghost origins: set<int>) returns (ghost turn: Turn)
      requires pending != {} && Settling(traces) && AllCalled(img, origins, entries, traces)
      modifies this
      ensures Settling(With(traces, turn)) && AllCalled(img, origins, entries, With(traces, turn))
      ensures turn.before == old(Awaited(pending, functions)) && TurnGives(img, turn, Awaited(pending, functions))
      ensures old(entries) <= entries && old(ever) <= ever
      ensures Left(img, spans.Keys) < Left(img, old(spans.Keys))
              || (spans.Keys == old(spans.Keys) && |pending| < |old(pending)|)
    {
      var fn := Least(pending);
      turn := Turn(Awaited(pending, functions), None);
      pending := pending - {fn};
      if WithinSpan(spans, fn) {
        WithinIsSpanned(spans, ever, fn);
        SettledNext(img, old(entries) - old(pending), traces, ever, fn, entries - pending, traces, ever);
      } else if !img.inside(fn) {
        functions := functions + {fn};
        ghost var traced := TraceEntry(fn, traces, origins);
        turn := turn.(traced := Some(traced));
        SettledNext(img, old(entries) - old(pending), traces, old(ever), fn, entries - pending, traces + {traced},
                    ever);
      } else {
        SettledNext(img, old(entries) - old(pending), traces, ever, fn, entries - pending, traces, ever);
      }
    }

    /** Traces an entry outside the spans and the known functions. */
    method TraceEntry(fn: int, ghost traces: set<Traced>, ghost origins: set<int>) returns (ghost traced: Traced)
      requires Valid() && AllComplete(img, traces, entries) && AllTraced(img, traces, ever) && fn in entries
      requires !WithinSpan(spans, fn)
      requires AllCalled(img, origins, entries, traces)
      modifies this`pending, this`functions, this`spans, this`candidates, this`entries, this`ever
      ensures Valid() && AllComplete(img, traces + {traced}, entries) && AllTraced(img, traces + {traced}, ever)
      ensures AllCalled(img, origins, entries, traces + {traced}) && traced.fn == fn
      ensures Grown(old(pending), old(entries), old(spans), old(ever))
      ensures KnownAlong(img, old(Awaited(pending, functions)), traced.known, traced.order)
      ensures Awaited(pending, functions)
              == AwaitedAfter(img, old(Awaited(pending, functions)), traced.known, traced.order)
      ensures Left(img, spans.Keys) < Left(img, old(spans.Keys))
              || (spans.Keys == old(spans.Keys) && pending == old(pending))
    {
      traced := Trace(fn);
      CompleteGrows(img, traces, old(entries), entries);
      TracedGrows(img, traces, old(ever), traced, ever);
      CalledGrows(img, origins, old(entries), traces, traced, entries);
      LeftShrinks(img, old(spans).Keys, spans.Keys);
    }

    /** The scan of the data sections, once no entry is left. */
    method ScanOnce(ghost traces: set<Traced>, ghost origins: set<int>) returns (ghost turn: Turn)
      requires pending == {} && Settling(traces) && AllCalled(img, origins, entries, traces)
      requires forall va | va in img.words :: va in origins
      modifies this`pending, this`entries
      ensures Settling(traces) && AllCalled(img, origins, entries, traces) && old(entries) <= entries
      ensures WordsCovered(img, entries, ever) && turn.traced.None?
      ensures turn.before == old(Awaited(pending, functions)) && TurnGives(img, turn, Awaited(pending, functions))
    {
      ghost var settled := entries;
      turn := Turn(Awaited(pending, functions), None);
      ScanData();
      CompleteGrows(img, traces, settled, entries);
      PointersCalled(img, origins, settled, spans, traces);
      PointersCover(img, spans, ever, entries);
    }

    /** The whole worklist: every entry is settled, and every data word into the code is one or is spanned. */
    method Discover() returns (ghost history: seq<Turn>)
      requires Valid() && entries == pending && ever == {}
      modifies this
      ensures pending == {} && old(pending) <= entries && Settling(TracesOf(history))
      ensures WordsCovered(img, entries, ever)
      ensures AllCalled(img, old(pending) + (set va | va in img.words), entries, TracesOf(history))
      ensures Ran(img, old(Awaited(pending, functions)), history, Awaited(pending, functions))
    {
      history := [];
      ghost var first, origins := Awaited(pending, functions), pending + (set va | va in img.words);
      var dataScanned := false;
      while pending != {} || !dataScanned
        invariant Settling(TracesOf(history)) && old(pending) <= entries
        invariant AllCalled(img, origins, entries, TracesOf(history))
        invariant Ran(img, first, history, Awaited(pending, functions))
        invariant dataScanned ==> WordsCovered(img, entries, ever)
        decreases if dataScanned then 0 else 1, Left(img, spans.Keys), |pending|
      {
        ghost var turn;
        if pending != {} {
          turn := Dequeue(TracesOf(history), origins);
        } else {
          turn := ScanOnce(TracesOf(history), origins);
          dataScanned := true;
        }
        RanMore(img, first, history, turn, Awaited(pending, functions));
        history := history + [turn];
      }
    }
  }

  ghost function With(traces: set<Traced>, turn: Turn): set<Traced> {
    if turn.traced.Some? then traces + {turn.traced.value} else traces
  }

  /** Data words are origins. */
  lemma PointersCalled(img: Image, origins: set<int>, entries: set<int>, spans: map<int, int>, traces: set<Traced>)
    requires AllCalled(img, origins, entries, traces) && forall va | va in img.words :: va in origins
    ensures AllCalled(img, origins, entries + Pointers(img, spans, |img.words|), traces)
  {
    forall e | e in Pointers(img, spans, |img.words|) ensures e in origins {
      var i :| 0 <= i < |img.words| && img.words[i] == e;
    }
  }

  lemma PointersCover(img: Image, spans: map<int, int>, ever: set<(int, int)>, entries: set<int>)
    requires SpanSet(spans) <= ever && Pointers(img, spans, |img.words|) <= entries
    ensures WordsCovered(img, entries, ever)
  {
    forall va | va in img.words && img.Decoded(va) && !WithinSpan(spans, va) ensures va in entries {
      var i :| 0 <= i < |img.words| && img.words[i] == va;
      assert va in Pointers(img, spans, |img.words|);
    }
    forall va | va in img.words && WithinSpan(spans, va) ensures EverSpanned(ever, va) {
      WithinIsSpanned(spans, ever, va);
    }
  }

  lemma TracedGrows(img: Image, traces: set<Traced>, ever: set<(int, int)>, traced: Traced, ever': set<(int, int)>)
    requires AllTraced(img, traces, ever) && EverIn(img, ever, ever', traced.order, traced.tables)
    ensures AllTraced(img, traces + {traced}, ever')
  {
    forall span | span in ever' ensures exists t :: t in traces + {traced} && Traces(img, t.order, t.tables, span) {
      if span in ever {
        var t :| t in traces && Traces(img, t.order, t.tables, span);
        assert t in traces + {traced};
      } else {
        assert traced in traces + {traced};
      }
    }
  }

  lemma SettledNext(img: Image, settled: set<int>, traces: set<Traced>, ever: set<(int, int)>, fn: int,
                    settled': set<int>, traces': set<Traced>, ever': set<(int, int)>)
    requires AllSettled(img, settled, traces, ever) && settled' <= settled + {fn}
    requires traces <= traces' && ever <= ever' && Settled(img, fn, traces', ever')
    ensures AllSettled(img, settled', traces', ever')
  {
    forall entry | entry in settled' && entry != fn ensures Settled(img, entry, traces', ever') {
      assert Settled(img, entry, traces, ever);
    }
  }
}
