/**
 * What the switch tracker of src/analysis/x86.rs may believe at an address: a fact is justified by a
 * straight-line path of decoded instructions, and is then true of every run along that path.
 */
module SwitchFacts {
  import opened Wrappers
  import opened Words
  import opened X86Machine

  const MAX_SWITCH_CASES: int := 1024
  const MAX_SWITCH_GAP: int := 8

  function Next(code: Code, pc: int): int {
    code.at(pc).1
  }

  /** At `pc` the flags are those of `cmp reg, imm`, where the path begins, `gap` instructions ago. */
  ghost predicate CmpFact(code: Code, path: seq<int>, pc: int, reg: Reg, imm: Word, gap: nat) {
    path != [] && gap <= MAX_SWITCH_GAP &&
    var n := |path| - 1;
    var ins := code.at(path[n]).0;
    && Next(code, path[n]) == pc
    && if gap == 0 then ins == CmpImm(reg, imm) && n == 0
       else
         && Sequential(ins) && !Writes(ins, reg) && !ModifiesFlags(ins)
         && CmpFact(code, path[..n], path[n], reg, imm, gap - 1)
  }

  /** At `pc` the register is at most `max`: a `ja` after such a comparison fell through. */
  ghost predicate BoundFact(code: Code, path: seq<int>, pc: int, reg: Reg, max: Word, gap: nat) {
    path != [] && gap <= MAX_SWITCH_GAP &&
    var n := |path| - 1;
    var ins := code.at(path[n]).0;
    && Next(code, path[n]) == pc
    && if gap == 0 then ins == Ja && exists cmpGap :: CmpFact(code, path[..n], path[n], reg, max, cmpGap)
       else Sequential(ins) && !Writes(ins, reg) && BoundFact(code, path[..n], path[n], reg, max, gap - 1)
  }

  /** The byte load reads `[reg + disp]`. */
  predicate IndexedBy(from: Operand, reg: Reg) {
    || (from.base == Some(reg) && from.index == None)
    || (from.base == None && from.index == Some(reg) && from.scale == 1)
  }

  function MaxByte(bytes: seq<Byte>): (m: Byte)
    requires bytes != []
    ensures m in bytes
    ensures forall b | b in bytes :: b <= m
  {
    if |bytes| == 1 then bytes[0] else
      var rest := MaxByte(bytes[1..]);
      assert bytes == [bytes[0]] + bytes[1..];
      if rest < bytes[0] then bytes[0] else rest
  }

  /** The `max + 1` bytes from `table` are in the section, and `entries` is one more than the greatest of them. */
  ghost predicate IsIndexTable(code: Code, table: Word, max: Word, entries: int) {
    && max < 1024 && code.base <= table && table - code.base + max < |code.data|
    && var bytes := code.data[table - code.base..table - code.base + max + 1];
       (forall b | b in bytes :: b < entries) && entries - 1 in bytes
  }

  /** One more than the greatest byte of the index table, if it is one. */
  function IndexEntries(code: Code, from: Operand, max: Word): (r: Option<int>)
    ensures r.Some? ==> IsIndexTable(code, from.disp, max, r.value)
    ensures r.None? ==> forall entries :: !IsIndexTable(code, from.disp, max, entries)
  {
    if max >= MAX_SWITCH_CASES || from.disp < code.base then None else
      var off := from.disp - code.base;
      if off + max + 1 > |code.data| then None else
        Some(MaxByte(code.data[off..off + max + 1]) + 1)
  }

  /** At `pc` the register holds what the byte load at position `load` of the path gave it. */
  ghost predicate IndexFact(code: Code, path: seq<int>, pc: int, idx: Reg, entries: int, load: nat, gap: nat) {
    path != [] && gap <= MAX_SWITCH_GAP &&
    var n := |path| - 1;
    var ins := code.at(path[n]).0;
    && Next(code, path[n]) == pc
    && if gap == 0 then
         && load == n && ins.LoadByte? && ins.dest.reg == idx
         && exists reg, max, boundGap :: Bounded(code, path[..n], path[n], ins.from, reg, max, boundGap, entries)
       else
         && Sequential(ins) && !Writes(ins, idx) && load < n
         && IndexFact(code, path[..n], path[n], idx, entries, load, gap - 1)
  }

  ghost predicate Bounded(code: Code, path: seq<int>, pc: int, from: Operand, reg: Reg, max: Word, gap: nat,
                          entries: int) {
    BoundFact(code, path, pc, reg, max, gap) && IndexedBy(from, reg) && IsIndexTable(code, from.disp, max, entries)
  }

  /** `ms` are the states of a machine that falls through each instruction of the path. */
  ghost predicate Runs(code: Code, path: seq<int>, ms: seq<Machine>) {
    && |ms| == |path| + 1
    && (forall i | 0 <= i < |ms| :: Mapped(code, ms[i]))
    && (forall i | 0 <= i < |path| :: FallsThrough(code.at(path[i]).0, ms[i], ms[i + 1]))
  }

  lemma {:induction false} RunsFront(code: Code, path: seq<int>, ms: seq<Machine>)
    requires Runs(code, path, ms) && path != []
    ensures Runs(code, path[..|path| - 1], ms[..|path|])
    ensures FallsThrough(code.at(path[|path| - 1]).0, ms[|path| - 1], ms[|path|])
  {
  }

  lemma {:induction false} CmpSound(code: Code, path: seq<int>, pc: int, reg: Reg, imm: Word, gap: nat,
                                    ms: seq<Machine>)
    requires CmpFact(code, path, pc, reg, imm, gap) && Runs(code, path, ms)
    ensures var m := ms[|path|]; m.cf == (m.regs[reg] < imm) && m.zf == (m.regs[reg] == imm)
    decreases |path|
  {
    RunsFront(code, path, ms);
    if gap > 0 {
      CmpSound(code, path[..|path| - 1], path[|path| - 1], reg, imm, gap - 1, ms[..|path|]);
    }
  }

  lemma {:induction false} BoundSound(code: Code, path: seq<int>, pc: int, reg: Reg, max: Word, gap: nat,
                                      ms: seq<Machine>)
    requires BoundFact(code, path, pc, reg, max, gap) && Runs(code, path, ms)
    ensures ms[|path|].regs[reg] <= max
    decreases |path|
  {
    RunsFront(code, path, ms);
    var front, last := path[..|path| - 1], path[|path| - 1];
    if gap == 0 {
      var cmpGap :| CmpFact(code, front, last, reg, max, cmpGap);
      CmpSound(code, front, last, reg, max, cmpGap, ms[..|path|]);
    } else {
      BoundSound(code, front, last, reg, max, gap - 1, ms[..|path|]);
    }
  }

  /** The rest of the register was zero, so the byte loaded is the whole index. */
  predicate Zeroed(dest: Dest, was: Word) {
    match dest
    case Dword(_) => true
    case Low16(_) => was < 0x1_0000
    case LowByte(_) => was < 0x100
    case HighByte(_) => false
  }

  /** A load into AH, which the tracker also takes for the index, bounds it in one case only. */
  lemma MergeBelow(dest: Dest, was: Word, b: Byte, entries: int)
    requires b < entries <= 256
    ensures !dest.HighByte? ==> (Merge(dest, was, b) < entries <==> Zeroed(dest, was))
    ensures dest.HighByte? ==> (Merge(dest, was, b) < entries <==> was < 0x1_0000 && b == 0 && was % 0x100 < entries)
  {
  }

  lemma LoadedBelow(code: Code, m: Machine, from: Operand, reg: Reg, max: Word, entries: int)
    requires Mapped(code, m) && IndexedBy(from, reg) && m.regs[reg] <= max
             && IsIndexTable(code, from.disp, max, entries)
    ensures m.mem(Address(m, from)) < entries <= 256
  {
    var a := Address(m, from);
    assert a == from.disp + m.regs[reg];
    IndexBelow(code, from.disp, max, entries, a);
    assert m.mem(a) == code.data[a - code.base];
  }

  lemma IndexBelow(code: Code, table: Word, max: Word, entries: int, a: int)
    requires IsIndexTable(code, table, max, entries) && table <= a <= table + max
    ensures code.data[a - code.base] < entries <= 256
  {
    var bytes := code.data[table - code.base..table - code.base + max + 1];
    assert bytes[a - table] == code.data[a - code.base] && bytes[a - table] in bytes;
  }

  /** The byte load bounds the index exactly when the part of the register it leaves alone was zero. */
  lemma LoadBounds(code: Code, m: Machine, dest: Dest, from: Operand, reg: Reg, max: Word, entries: int)
    requires Mapped(code, m) && IndexedBy(from, reg) && m.regs[reg] <= max
             && IsIndexTable(code, from.disp, max, entries)
    ensures m.mem(Address(m, from)) < entries
    ensures !dest.HighByte? ==>
              (Merge(dest, m.regs[dest.reg], m.mem(Address(m, from))) < entries <==> Zeroed(dest, m.regs[dest.reg]))
  {
    LoadedBelow(code, m, from, reg, max, entries);
    MergeBelow(dest, m.regs[dest.reg], m.mem(Address(m, from)), entries);
  }

  /** The index is below the table's entry count, if the load zero-extended. */
  lemma {:induction false} IndexSound(code: Code, path: seq<int>, pc: int, idx: Reg, entries: int, load: nat, gap: nat,
                                      ms: seq<Machine>)
    requires IndexFact(code, path, pc, idx, entries, load, gap) && Runs(code, path, ms)
    ensures load < |path| && code.at(path[load]).0.LoadByte?
    ensures Zeroed(code.at(path[load]).0.dest, ms[load].regs[idx]) ==> ms[|path|].regs[idx] < entries
    decreases |path|
  {
    RunsFront(code, path, ms);
    var front, last := path[..|path| - 1], path[|path| - 1];
    if gap == 0 {
      var ins := code.at(last).0;
      var reg, max, boundGap :| Bounded(code, front, last, ins.from, reg, max, boundGap, entries);
      BoundSound(code, front, last, reg, max, boundGap, ms[..|path|]);
      LoadBounds(code, ms[|path| - 1], ins.dest, ins.from, reg, max, entries);
    } else {
      IndexSound(code, front, last, idx, entries, load, gap - 1, ms[..|path|]);
    }
  }

  /** The table at `tableVa` holds these `count` words, each of which lies in the function before the table. */
  ghost predicate IsTable(code: Code, fnVa: int, tableVa: Word, count: int, targets: seq<Word>) {
    && 0 < count <= 1024 && fnVa < tableVa
    && code.base <= tableVa && tableVa - code.base + 4 * count <= |code.data|
    && |targets| == count
    && forall i | 0 <= i < count ::
         targets[i] == Le32(code.data, tableVa - code.base + 4 * i) && fnVa <= targets[i] < tableVa
  }

  /** `jump_table_targets`: the entries, if all lie in the function before the table. */
  function JumpTableTargets(code: Code, fnVa: int, tableVa: Word, count: int): (r: Option<seq<Word>>)
    ensures r.Some? ==> IsTable(code, fnVa, tableVa, count, r.value)
    ensures r.None? ==> forall targets :: !IsTable(code, fnVa, tableVa, count, targets)
  {
    if count <= 0 || count > MAX_SWITCH_CASES || tableVa <= fnVa || tableVa < code.base then None else
      var off := tableVa - code.base;
      if off + 4 * count > |code.data| then None else
        var words := WordsFrom(code.data, off, count);
        if forall i | 0 <= i < count :: fnVa <= words[i] < tableVa then Some(words) else
          assert forall other | IsTable(code, fnVa, tableVa, count, other) :: other == words by {
            forall other | IsTable(code, fnVa, tableVa, count, other) ensures other == words {
              OnlyTable(code, fnVa, tableVa, count, words, other);
            }
          }
          None
  }

  function WordsFrom(data: seq<Byte>, off: nat, count: nat): (words: seq<Word>)
    requires off + 4 * count <= |data|
    ensures |words| == count && forall i | 0 <= i < count :: words[i] == Le32(data, off + 4 * i)
  {
    seq(count, i requires 0 <= i < count => Le32(data, off + 4 * i))
  }

  lemma OnlyTable(code: Code, fnVa: int, tableVa: Word, count: int, words: seq<Word>, other: seq<Word>)
    requires IsTable(code, fnVa, tableVa, count, other) && |words| == count
    requires forall i | 0 <= i < count :: words[i] == Le32(code.data, tableVa - code.base + 4 * i)
    ensures other == words
  {
    forall i | 0 <= i < count ensures other[i] == words[i] {
    }
  }

  lemma EntryAddress(m: Machine, through: Operand, i: int, a: int)
    requires m.Valid() && through.base == None && through.index.Some? && through.scale == 4
    requires i == m.regs[through.index.value] && a == through.disp + 4 * i < 0x1_0000_0000
    ensures Address(m, through) == a
  {
    var scale: int := through.scale;
    assert i * scale == 4 * i;
  }

  lemma JumpsToWordAt(code: Code, m: Machine, through: Operand, off: nat)
    requires Mapped(code, m) && off + 4 <= |code.data| && Address(m, through) == code.base + off
    ensures JumpsTo(m, through) == Le32(code.data, off)
  {
    var a: int := Address(m, through);
    assert Wrap(a + 1) == a + 1 && Wrap(a + 2) == a + 2 && Wrap(a + 3) == a + 3;
    assert m.mem(a) == code.data[off] && m.mem(a + 1) == code.data[off + 1] && m.mem(a + 2) == code.data[off + 2]
           && m.mem(a + 3) == code.data[off + 3];
  }

  /** A dispatch `jmp [idx*4 + table]` whose index is below the count lands on a recorded target. */
  lemma DispatchLands(code: Code, m: Machine, fnVa: int, through: Operand, count: int, targets: seq<Word>)
    requires Mapped(code, m)
    requires through.base == None && through.index.Some? && through.scale == 4
    requires IsTable(code, fnVa, through.disp, count, targets) && m.regs[through.index.value] < count
    ensures JumpsTo(m, through) == targets[m.regs[through.index.value]]
            && fnVa <= JumpsTo(m, through) < through.disp
  {
    var i: int := m.regs[through.index.value];
    var off := through.disp - code.base + 4 * i;
    EntryAddress(m, through, i, code.base + off);
    JumpsToWordAt(code, m, through, off);
  }

  /** The dispatch at `pc` is `jmp [idx*4 + table]`. */
  predicate IsDispatch(code: Code, pc: int, through: Operand) {
    code.at(pc).0 == JmpIndirect(through) && through.base == None && through.index.Some? && through.scale == 4
  }

  /** A dispatch guarded by `cmp; ja`: every run along the path lands on a recorded target in the function. */
  lemma {:induction false} BoundedDispatchLands(code: Code, fnVa: int, path: seq<int>, pc: int, through: Operand,
                                                max: Word, gap: nat, targets: seq<Word>, ms: seq<Machine>)
    requires IsDispatch(code, pc, through) && BoundFact(code, path, pc, through.index.value, max, gap)
             && Runs(code, path, ms)
    requires IsTable(code, fnVa, through.disp, max + 1, targets)
    ensures JumpsTo(ms[|path|], through) in targets
    ensures fnVa <= JumpsTo(ms[|path|], through) < through.disp
  {
    BoundSound(code, path, pc, through.index.value, max, gap, ms);
    DispatchLands(code, ms[|path|], fnVa, through, max + 1, targets);
  }

  /** The same through an index table, when the load zero-extends or the index was zeroed before it. */
  lemma {:induction false} IndexedDispatchLands(code: Code, fnVa: int, path: seq<int>, pc: int, through: Operand,
                                                entries: int, load: nat, gap: nat, targets: seq<Word>,
                                                ms: seq<Machine>)
    requires IsDispatch(code, pc, through) && IndexFact(code, path, pc, through.index.value, entries, load, gap)
             && Runs(code, path, ms)
    requires load < |path| && code.at(path[load]).0.LoadByte?
    requires Zeroed(code.at(path[load]).0.dest, ms[load].regs[through.index.value])
    requires IsTable(code, fnVa, through.disp, entries, targets)
    ensures JumpsTo(ms[|path|], through) in targets
    ensures fnVa <= JumpsTo(ms[|path|], through) < through.disp
  {
    IndexSound(code, path, pc, through.index.value, entries, load, gap, ms);
    DispatchLands(code, ms[|path|], fnVa, through, entries, targets);
  }

  const THROUGH := Operand(None, Some(0), 4, 12)

  /** `cmp ecx, 0; ja; mov al, [ecx + 8]; jmp [eax*4 + 12]`, and one entry in each table. */
  ghost predicate IsShortLoad(code: Code) {
    && code.base == 0 && |code.data| == 16 && (forall k | 0 <= k < 16 :: code.data[k] == 0)
    && code.at(0) == (CmpImm(1, 0), 1) && code.at(1) == (Ja, 2)
    && code.at(2) == (LoadByte(LowByte(0), Operand(Some(1), None, 1, 8)), 3) && code.at(3).0 == JmpIndirect(THROUGH)
  }

  /** Only the section is zero, and the index was not zeroed before the load. */
  function ShortLoadState(zf: bool): Machine {
    Machine([0x100, 0, 0, 0, 0, 0, 0, 0], false, zf, a => if a < 16 then 0 else 1)
  }

  /** The states of a run: the comparison sets ZF, `ja` falls through, and the load changes nothing. */
  lemma ShortLoadRuns(code: Code, path: seq<int>) returns (ms: seq<Machine>)
    requires IsShortLoad(code) && path == [0, 1, 2]
    ensures Runs(code, path, ms) && ms[|path|] == ShortLoadState(true)
  {
    ms := [ShortLoadState(false), ShortLoadState(true), ShortLoadState(true), ShortLoadState(true)];
    assert FallsThrough(code.at(path[0]).0, ms[0], ms[1]);
    assert FallsThrough(code.at(path[1]).0, ms[1], ms[2]);
    assert FallsThrough(code.at(path[2]).0, ms[2], ms[3]);
  }

  lemma ShortLoadBelieved(code: Code, path: seq<int>, pc: int, entries: int, load: nat)
    requires IsShortLoad(code) && path == [0, 1, 2] && pc == 3 && entries == 1 && load == 2
    ensures IndexFact(code, path, pc, 0, entries, load, 0)
  {
    var one, two := path[..1], path[..2];
    assert two[..1] == one;
    assert CmpFact(code, one, 1, 1, 0, 0);
    assert BoundFact(code, two, 2, 1, 0, 0);
    assert code.data[8..9] == [0];
    assert Bounded(code, two, 2, Operand(Some(1), None, 1, 8), 1, 0, 0, 1);
  }

  lemma ShortLoadTable(code: Code, tableVa: Word, count: int, targets: seq<Word>)
    requires IsShortLoad(code) && tableVa == 12 && count == 1 && targets == [0]
    ensures IsTable(code, 0, tableVa, count, targets)
  {
  }

  lemma ShortLoadEscapes(m: Machine)
    requires m == ShortLoadState(true)
    ensures JumpsTo(m, THROUGH) != 0
  {
    EntryAddress(m, THROUGH, 0x100, 0x40C);
    assert m.mem(0x40C) == 1;
  }

  /** A run follows a path that bounds the dispatch at `pc`, and jumps to no entry of the table it bounds. */
  ghost predicate Escapes(code: Code, path: seq<int>, pc: int, ms: seq<Machine>, through: Operand, entries: int,
                          load: nat, targets: seq<Word>) {
    && IsDispatch(code, pc, through) && Runs(code, path, ms)
    && IndexFact(code, path, pc, through.index.value, entries, load, 0)
    && IsTable(code, 0, through.disp, entries, targets) && JumpsTo(ms[|path|], through) !in targets
  }

  lemma Escaped(code: Code, path: seq<int>, pc: int, ms: seq<Machine>, through: Operand, entries: int, load: nat,
                targets: seq<Word>)
    requires IsDispatch(code, pc, through) && Runs(code, path, ms)
    requires IndexFact(code, path, pc, through.index.value, entries, load, 0)
    requires IsTable(code, 0, through.disp, entries, targets) && JumpsTo(ms[|path|], through) !in targets
    ensures exists path, pc, ms, entries, load: nat, targets ::
              Escapes(code, path, pc, ms, through, entries, load, targets)
  {
    assert Escapes(code, path, pc, ms, through, entries, load, targets);
  }

  /** With 0x100 in EAX the load leaves 0x100 there, and the dispatch goes past the recovered table. */
  lemma ByteLoadFails(code: Code)
    requires IsShortLoad(code)
    ensures exists path, pc, ms, entries, load: nat, targets ::
              Escapes(code, path, pc, ms, THROUGH, entries, load, targets)
  {
    var path, pc, entries, load, targets := [0, 1, 2], 3, 1, 2, [0];
    var ms := ShortLoadRuns(code, path);
    ShortLoadBelieved(code, path, pc, entries, load);
    ShortLoadTable(code, THROUGH.disp, entries, targets);
    ShortLoadEscapes(ms[|path|]);
    Escaped(code, path, pc, ms, THROUGH, entries, load, targets);
  }
}
