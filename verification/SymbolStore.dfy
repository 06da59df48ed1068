/** The symbol table of src/obj/symbols.rs: a list of symbols and the three indexes over it. */
module SymbolStore {
  import opened Wrappers
  import opened Words
  import opened OrderedKeys
  import opened NestedLists

  datatype Kind = UnknownKind | Function | Object | SectionKind

  datatype Flag =
    | Global | Local | Weak | Common | Hidden | Exported
    | RelocationIgnore | NoWrite | Stripped | NoExport | NoReloc | Alias

  /** `data_kind` is 0 where it is unknown; demangled names and hashes are not part of this model. */
  datatype Symbol = Symbol(name: string, address: nat, section: Option<nat>, size: nat, sizeKnown: bool,
                           flags: set<Flag>, kind: Kind, align: Option<nat>, dataKind: nat)

  predicate IsImport(name: string) {
    "__imp_" <= name
  }

  /** `is_auto_symbol`, `is_auto_label` and `is_auto_jump_table` of src/util/config.rs. */
  predicate IsAuto(symbol: Symbol) {
    || "lbl_" <= symbol.name || "fn_" <= symbol.name || "jumptable_" <= symbol.name
    || "gap_" <= symbol.name || "pad_" <= symbol.name || "dtor_" <= symbol.name
  }

  /** `normalize_imp_kind` */
  function Normalized(symbol: Symbol): Symbol {
    if !IsImport(symbol.name) then symbol
    else symbol.(kind := Object, size := if symbol.sizeKnown then symbol.size else 4, sizeKnown := true)
  }

  /** A slot of the import table is a data pointer of known size. */
  predicate ImportIsData(symbol: Symbol) {
    IsImport(symbol.name) ==> symbol.kind == Object && symbol.sizeKnown
  }

  function KeepFlags(flags: set<Flag>): set<Flag> {
    flags * {Exported, NoWrite, RelocationIgnore, Stripped, NoExport, NoReloc}
  }

  function AddressKey(symbol: Symbol): Option<Word> {
    Some(Wrap(symbol.address))
  }

  function SectionKey(symbol: Symbol): Option<(nat, Word)> {
    if symbol.section.Some? then Some((symbol.section.value, Wrap(symbol.address))) else None
  }

  function NameKey(symbol: Symbol): Option<string> {
    if symbol.name == [] then None else Some(symbol.name)
  }

  function Keys<K>(symbols: seq<Symbol>, key: Symbol -> Option<K>): (keys: seq<Option<K>>)
    ensures |keys| == |symbols| && forall i | 0 <= i < |keys| :: keys[i] == key(symbols[i])
  {
    seq(|symbols|, i requires 0 <= i < |symbols| => key(symbols[i]))
  }

  lemma KeysMore<K>(symbols: seq<Symbol>, symbol: Symbol, key: Symbol -> Option<K>)
    ensures Keys(symbols + [symbol], key) == Keys(symbols, key) + [key(symbol)]
  {
  }

  lemma KeysUpdate<K>(symbols: seq<Symbol>, i: nat, symbol: Symbol, key: Symbol -> Option<K>)
    requires i < |symbols|
    ensures Keys(symbols[i := symbol], key) == Keys(symbols, key)[i := key(symbol)]
  {
  }

  ghost predicate Indexed(symbols: seq<Symbol>, byAddress: Lists<Word>, bySection: Lists<(nat, Word)>,
                          byName: Lists<string>) {
    && Indexes(byAddress, Keys(symbols, AddressKey))
    && Indexes(bySection, Keys(symbols, SectionKey))
    && Indexes(byName, Keys(symbols, NameKey))
  }

  /** Whether `add` merges a symbol into an existing one at its address. */
  predicate Merges(existing: Symbol, symbol: Symbol) {
    && Stripped !in existing.flags
    && (existing.kind == symbol.kind || existing.name == symbol.name
        || (existing.kind == UnknownKind && IsAuto(existing)))
  }

  ghost predicate Begins(name: string, prefix: string) {
    |prefix| <= |name| && name[..|prefix|] == prefix
  }

  /** The name was made up by the tool. */
  ghost predicate Provisional(name: string) {
    || Begins(name, "lbl_") || Begins(name, "fn_") || Begins(name, "jumptable_")
    || Begins(name, "gap_") || Begins(name, "pad_") || Begins(name, "dtor_")
  }

  /** A stripped symbol is left alone; others take in their own kind or name, and unknown ones of a made-up name any. */
  ghost predicate MayMerge(existing: Symbol, symbol: Symbol) {
    Stripped !in existing.flags && (existing.kind != symbol.kind && existing.name != symbol.name ==>
                                      existing.kind == UnknownKind && Provisional(existing.name))
  }

  /** The existing symbol gives way: when told to, a made-up name to a real one, and a label to a jump table. */
  ghost predicate GivesWay(existing: Symbol, symbol: Symbol, replace: bool) {
    replace || (Provisional(existing.name)
                && (!Provisional(symbol.name) || (Begins(existing.name, "lbl_") && Begins(symbol.name, "jumptable_"))))
  }

  lemma ProvisionalIff(symbol: Symbol)
    ensures IsAuto(symbol) <==> Provisional(symbol.name)
    ensures "lbl_" <= symbol.name <==> Begins(symbol.name, "lbl_")
    ensures "jumptable_" <= symbol.name <==> Begins(symbol.name, "jumptable_")
  {
  }

  lemma MergesIff(existing: Symbol, symbol: Symbol, replace: bool)
    ensures Merges(existing, symbol) <==> MayMerge(existing, symbol)
    ensures Replaces(existing, symbol, replace) <==> GivesWay(existing, symbol, replace)
  {
    ProvisionalIff(existing);
    ProvisionalIff(symbol);
  }

  ghost predicate Within(indexes: seq<nat>, n: nat) {
    forall k | 0 <= k < |indexes| :: indexes[k] < n
  }

  /** The first symbol of the list that a symbol merges into. */
  function FirstMatch(symbols: seq<Symbol>, indexes: seq<nat>, symbol: Symbol): (r: Option<nat>)
    requires Within(indexes, |symbols|)
    ensures r.None? ==> forall k | 0 <= k < |indexes| :: !MayMerge(symbols[indexes[k]], symbol)
    ensures r.Some? ==> exists k :: 0 <= k < |indexes| && indexes[k] == r.value && MayMerge(symbols[r.value], symbol)
                                    && forall j | 0 <= j < k :: !MayMerge(symbols[indexes[j]], symbol)
  {
    if indexes == [] then None
    else
      MergesIff(symbols[indexes[0]], symbol, false);
      if Merges(symbols[indexes[0]], symbol) then Some(indexes[0])
      else
        var rest := FirstMatch(symbols, indexes[1..], symbol);
        assert rest.Some? ==>
                 exists k :: 0 < k < |indexes| && indexes[k] == rest.value && MayMerge(symbols[rest.value], symbol)
                                          && forall j | 0 <= j < k :: !MayMerge(symbols[indexes[j]], symbol) by {
          if rest.Some? {
            var k :| 0 <= k < |indexes[1..]| && indexes[1..][k] == rest.value && MayMerge(symbols[rest.value], symbol)
                     && forall j | 0 <= j < k :: !MayMerge(symbols[indexes[1..][j]], symbol);
            assert indexes[k + 1] == rest.value;
            forall j | 0 <= j < k + 1 ensures !MayMerge(symbols[indexes[j]], symbol) {
              assert j > 0 ==> indexes[j] == indexes[1..][j - 1];
            }
          }
        }
        rest
  }

  /** An absolute symbol of the name. */
  predicate IsAbsolute(symbol: Symbol, name: string) {
    symbol.section.None? && symbol.name == name
  }

  function FirstAbsolute(symbols: seq<Symbol>, indexes: seq<nat>, name: string): (r: Option<nat>)
    requires Within(indexes, |symbols|)
    ensures r.None? <==> forall k | 0 <= k < |indexes| :: !IsAbsolute(symbols[indexes[k]], name)
    ensures r.Some? ==> r.value in indexes && IsAbsolute(symbols[r.value], name)
  {
    if indexes == [] then None
    else if IsAbsolute(symbols[indexes[0]], name) then Some(indexes[0])
    else
      assert forall k | 0 <= k < |indexes[1..]| :: indexes[1..][k] == indexes[k + 1];
      FirstAbsolute(symbols, indexes[1..], name)
  }

  /** Whether what is there gives way to the new symbol. */
  predicate Replaces(existing: Symbol, symbol: Symbol, replace: bool) {
    || replace
    || (IsAuto(existing) && !IsAuto(symbol))
    || ("lbl_" <= existing.name && "jumptable_" <= symbol.name)
  }

  function MergedSize(existing: Symbol, symbol: Symbol, replace: bool): nat {
    if existing.sizeKnown && symbol.sizeKnown && existing.size != symbol.size
        then (if replace then symbol.size else existing.size)
    else if symbol.sizeKnown then symbol.size else existing.size
  }

  /** The symbol that takes the place of an existing one. */
  function Merged(existing: Symbol, symbol: Symbol, replace: bool): Symbol {
    Symbol(symbol.name, symbol.address, symbol.section, MergedSize(existing, symbol, replace), existing.sizeKnown
           || symbol.size != 0,
           symbol.flags + KeepFlags(existing.flags),
           if existing.kind != UnknownKind && symbol.kind != UnknownKind && existing.kind != symbol.kind
           then existing.kind else symbol.kind,
           if symbol.align.Some? then symbol.align else existing.align,
           if symbol.dataKind == 0 then existing.dataKind else symbol.dataKind)
  }

  /** What an existing symbol becomes when another is added onto it. */
  function Updated(existing: Symbol, symbol: Symbol, replace: bool): Symbol {
    if !Replaces(existing, symbol, replace) then
      if symbol.sizeKnown && !existing.sizeKnown then Normalized(existing.(size := symbol.size, sizeKnown := true))
          else existing
    else
      var merged := Merged(existing, symbol, true);
      if merged == existing then existing else Normalized(merged)
  }

  /** What is stored in the place of an existing symbol that another is added onto, if it changes. */
  function Change(existing: Symbol, symbol: Symbol, replace: bool): (r: Option<Symbol>)
    ensures Updated(existing, symbol, replace) == if r.Some? then Normalized(r.value) else existing
    ensures r.Some? && (existing.address != r.value.address || existing.section != r.value.section) <==>
            CannotMove(existing, symbol, replace)
  {
    MergesIff(existing, symbol, replace);
    if !Replaces(existing, symbol, replace) then
      if symbol.sizeKnown && !existing.sizeKnown then Some(existing.(size := symbol.size, sizeKnown := true)) else None
    else
      var merged := Merged(existing, symbol, true);
      if existing != merged then Some(merged) else None
  }

  /** What is there would give way to a symbol that is elsewhere. */
  ghost predicate CannotMove(existing: Symbol, symbol: Symbol, replace: bool) {
    GivesWay(existing, symbol, replace) && (existing.address != symbol.address || existing.section != symbol.section)
  }

  /** When `add` fails: an absolute symbol in a relocatable object, or one that would have to move. */
  ghost predicate AddFails(executable: bool, existing: Option<Symbol>, symbol: Symbol, replace: bool) {
    match existing
    case Some(existing) => CannotMove(existing, symbol, replace)
    case None =>
      && symbol.section.None? && !executable
      && ((Alias !in symbol.flags && Stripped !in symbol.flags) || (symbol.address != 0 && Common !in symbol.flags))
  }

  /**
   * What a symbol becomes when another is added onto it. One that stays only learns its size; one that gives way
   * takes over all, but keeps what the other leaves open, its kind if both are known, and the flags that are kept.
   */
  lemma UpdatedIs(existing: Symbol, symbol: Symbol, replace: bool)
    requires !IsImport(existing.name) && !IsImport(symbol.name)
    ensures var u := Updated(existing, symbol, replace);
            if !GivesWay(existing, symbol, replace) then
              && u == existing.(size := u.size, sizeKnown := u.sizeKnown)
              && (u.sizeKnown <==> existing.sizeKnown || symbol.sizeKnown)
              && u.size == (if symbol.sizeKnown && !existing.sizeKnown then symbol.size else existing.size)
            else
              && (u.name, u.address, u.section) == (symbol.name, symbol.address, symbol.section)
              && (u.sizeKnown <==> existing.sizeKnown || symbol.size != 0)
              && u.size == (if symbol.sizeKnown then symbol.size else existing.size)
              && (forall f :: f in u.flags <==> f in symbol.flags || (f in existing.flags && Sticky(f)))
              && u.kind == (if existing.kind == UnknownKind || symbol.kind == UnknownKind then symbol.kind
                            else existing.kind)
              && u.align == (if symbol.align.None? then existing.align else symbol.align)
              && u.dataKind == (if symbol.dataKind == 0 then existing.dataKind else symbol.dataKind)
  {
    MergesIff(existing, symbol, replace);
  }

  ghost predicate Sticky(f: Flag) {
    f == Exported || f == NoWrite || f == RelocationIgnore || f == Stripped || f == NoExport || f == NoReloc
  }

  /** Adding never forgets a size, and never flips one resolved kind to another, imports aside. */
  lemma UpdatedKeeps(existing: Symbol, symbol: Symbol, replace: bool)
    ensures var u := Updated(existing, symbol, replace);
            && (existing.sizeKnown ==> u.sizeKnown)
            && (existing.kind != UnknownKind && symbol.kind != UnknownKind && !IsImport(u.name) ==>
                 u.kind == existing.kind)
            && KeepFlags(existing.flags) <= u.flags
            && (u.name == existing.name || u.name == symbol.name)
  {
  }

  /** The first symbol listed at the address that the other merges into. */
  ghost predicate AtAddress(symbols: seq<Symbol>, bySection: Lists<(nat, Word)>, symbol: Symbol, r: Option<nat>) {
    symbol.section.Some? &&
    var indexes := At(bySection, (symbol.section.value, Wrap(symbol.address)));
    Within(indexes, |symbols|) && r == FirstMatch(symbols, indexes, symbol)
  }

  ghost predicate LowestAbsolute(symbols: seq<Symbol>, symbol: Symbol, r: Option<nat>) {
    if r.None? then forall i | 0 <= i < |symbols| :: !IsAbsolute(symbols[i], symbol.name)
    else
      && r.value < |symbols| && IsAbsolute(symbols[r.value], symbol.name)
      && forall i | 0 <= i < |symbols| && IsAbsolute(symbols[i], symbol.name) ::
           Wrap(symbols[r.value].address) <= Wrap(symbols[i].address)
  }

  /** The size counts as known exactly if it is not zero. */
  function Resized(symbol: Symbol): Symbol {
    symbol.(sizeKnown := symbol.size != 0)
  }

  /** No symbol has moved. */
  ghost predicate Placed(before: seq<Symbol>, after: seq<Symbol>) {
    && |before| <= |after|
    && forall i | 0 <= i < |before| :: after[i].address == before[i].address && after[i].section == before[i].section
  }

  class ObjSymbols {
    const executable: bool
    var symbols: seq<Symbol>
    var byAddress: Lists<Word>
    var bySection: Lists<(nat, Word)>
    var byName: Lists<string>
    /** The symbols stored since the table was made. */
    ghost var stored: set<nat>

    constructor (executable: bool, symbols: seq<Symbol>)
      ensures Valid() && this.executable == executable && this.symbols == symbols && stored == {}
    {
      this.executable, this.symbols := executable, symbols;
      byAddress, bySection, byName, stored := map[], map[], map[], {};
      new;
      for i := 0 to |symbols|
        invariant this.symbols == symbols && stored == {}
        invariant Indexed(symbols[..i], byAddress, bySection, byName)
      {
        Index(symbols[i], i, symbols[..i]);
        assert symbols[..i + 1] == symbols[..i] + [symbols[i]];
      }
      assert symbols[..|symbols|] == symbols;
    }

    ghost predicate Valid()
      reads this
    {
      && Indexed(symbols, byAddress, bySection, byName)
      && (forall i | i in stored :: i < |symbols| && ImportIsData(symbols[i]))
    }

    /** Lists the next symbol under its keys. */
    method Index(symbol: Symbol, index: nat, ghost before: seq<Symbol>)
      requires Indexed(before, byAddress, bySection, byName) && index == |before|
      modifies this`byAddress, this`bySection, this`byName
      ensures Indexed(before + [symbol], byAddress, bySection, byName)
    {
      KeysMore(before, symbol, AddressKey);
      KeysMore(before, symbol, SectionKey);
      KeysMore(before, symbol, NameKey);
      PushNew(byAddress, Keys(before, AddressKey), Wrap(symbol.address));
      byAddress := PushTo(byAddress, Wrap(symbol.address), index);
      if symbol.section.Some? {
        PushNew(bySection, Keys(before, SectionKey), (symbol.section.value, Wrap(symbol.address)));
        bySection := PushTo(bySection, (symbol.section.value, Wrap(symbol.address)), index);
      } else {
        SkipNew(bySection, Keys(before, SectionKey));
      }
      if symbol.name != [] {
        PushNew(byName, Keys(before, NameKey), symbol.name);
        byName := PushTo(byName, symbol.name, index);
      } else {
        SkipNew(byName, Keys(before, NameKey));
      }
    }

    /** `add_direct`: the table is written before the check on absolute symbols can fail. */
    method AddDirect(symbol: Symbol) returns (r: Result<nat>)
      requires Valid()
      modifies this
      ensures r.Failure? <==> symbol.section.None? && symbol.address != 0 && Common !in symbol.flags && !executable
      ensures r.Success? ==> Valid() && r.value == |old(symbols)| && symbols == old(symbols) + [Normalized(symbol)]
      ensures r.Success? ==> stored == old(stored) + {r.value}
      ensures r.Failure? ==> symbols == old(symbols) && stored == old(stored)
    {
      var symbol := Normalized(symbol);
      var index := |symbols|;
      if symbol.section.None? && symbol.address != 0 && Common !in symbol.flags && !executable {
        byAddress := PushTo(byAddress, Wrap(symbol.address), index);
        return Failure;
      }
      Index(symbol, index, symbols);
      symbols := symbols + [symbol];
      stored := stored + {index};
      r := Success(index);
    }

    method Replace(index: nat, symbol: Symbol) returns (r: Result<()>)
      requires Valid() && index < |symbols|
      modifies this
      ensures Valid()
      ensures r.Success? <==>
                symbol.address == old(symbols[index].address) && symbol.section == old(symbols[index].section)
      ensures symbols == if r.Success? then old(symbols)[index := Normalized(symbol)] else old(symbols)
      ensures stored == if r.Success? then old(stored) + {index} else old(stored)
    {
      var symbol := Normalized(symbol);
      var existing := symbols[index];
      if existing.address != symbol.address || existing.section != symbol.section {
        return Failure;
      }
      KeysUpdate(symbols, index, symbol, AddressKey);
      KeysUpdate(symbols, index, symbol, SectionKey);
      KeysUpdate(symbols, index, symbol, NameKey);
      assert Keys(symbols[index := symbol], AddressKey) == Keys(symbols, AddressKey);
      assert Keys(symbols[index := symbol], SectionKey) == Keys(symbols, SectionKey);
      Rename(index, existing, symbol);
      symbols := symbols[index := symbol];
      stored := stored + {index};
      r := Success(());
    }

    method Rename(index: nat, existing: Symbol, symbol: Symbol)
      requires index < |symbols| && symbols[index] == existing && Indexes(byName, Keys(symbols, NameKey))
      modifies this`byName
      ensures Indexes(byName, Keys(symbols, NameKey)[index := NameKey(symbol)])
    {
      ghost var keys := Keys(symbols, NameKey);
      if existing.name != symbol.name {
        if existing.name != [] {
          TakeOut(byName, keys, existing.name, index);
          byName := RemoveFrom(byName, existing.name, index);
          keys := keys[index := None];
        }
        if symbol.name != [] {
          PutIn(byName, keys, symbol.name, index);
          byName := PushTo(byName, symbol.name, index);
        }
        assert keys[index := NameKey(symbol)] == Keys(symbols, NameKey)[index := NameKey(symbol)];
      } else {
        assert keys[index := NameKey(symbol)] == keys;
      }
    }

    /** The existing symbol another is added onto: one at its address, or an absolute one of its name. */
    method Existing(symbol: Symbol) returns (r: Option<nat>)
      requires Valid() && (symbol.section.Some? || executable)
      ensures r.Some? ==> r.value < |symbols|
      ensures symbol.section.Some? ==> AtAddress(symbols, bySection, symbol, r)
      ensures symbol.section.None? ==> LowestAbsolute(symbols, symbol, r)
    {
      if symbol.section.Some? {
        var key: (nat, Word) := (symbol.section.value, Wrap(symbol.address));
        ListedInSection(key);
        r := FirstMatch(symbols, At(bySection, key), symbol);
        if r.Some? {
          assert r.value in At(bySection, key);
        }
      } else {
        r := FindAbsolute(symbol.name);
      }
    }

    /** `add`: merges the symbol into an existing one, or adds it as a new one. */
    method Add(symbol: Symbol, replace: bool) returns (r: Result<nat>, ghost existing: Option<nat>)
      requires Valid()
      modifies this
      ensures r.Success? ==> Valid() && r.value < |symbols| && |symbols| >= |old(symbols)|
      ensures var s := Normalized(symbol);
              if Alias in s.flags || Stripped in s.flags then existing.None?
              else if s.section.Some? then AtAddress(old(symbols), old(bySection), s, existing)
              else if executable then LowestAbsolute(old(symbols), s, existing) else r.Failure?
      ensures existing.Some? ==> existing.value < |old(symbols)|
      ensures r.Failure? <==> AddFails(executable, if existing.Some? then Some(old(symbols)[existing.value]) else None,
                                       Normalized(symbol), replace)
      ensures r.Success? && existing.None? ==>
                r.value == |old(symbols)|
                && symbols == old(symbols) + [Normalized(if Alias in symbol.flags then symbol
                     else Resized(Normalized(symbol)))]
      ensures r.Success? && existing.Some? ==>
                existing.value == r.value < |old(symbols)|
                && symbols == old(symbols)[r.value := Updated(old(symbols)[r.value], Normalized(symbol), replace)]
      ensures r.Success? ==> Placed(old(symbols), symbols)
    {
      var symbol := Normalized(symbol);
      existing := None;
      if Alias in symbol.flags {
        r := AddDirect(symbol);
        return;
      }
      var found: Option<nat> := None;
      if Stripped !in symbol.flags {
        if symbol.section.None? && !executable {
          return Failure, None;
        }
        found := Existing(symbol);
      }
      existing := found;
      if found.None? {
        r := AddDirect(Resized(symbol));
      } else {
        r := AddOnto(found.value, symbol, replace);
      }
    }

    method AddOnto(index: nat, symbol: Symbol, replace: bool) returns (r: Result<nat>)
      requires Valid() && index < |symbols|
      modifies this
      ensures Valid() && (r.Success? ==> r.value == index)
      ensures r.Failure? <==> CannotMove(old(symbols[index]), symbol, replace)
      ensures symbols == if r.Success? then old(symbols)[index := Updated(old(symbols[index]), symbol, replace)]
                else old(symbols)
      ensures Placed(old(symbols), symbols)
    {
      r := Success(index);
      var change := Change(symbols[index], symbol, replace);
      if change.Some? {
        var result := Replace(index, change.value);
        if result.Failure? {
          r := Failure;
        }
      }
    }

    lemma ListedWithin(indexes: seq<nat>, key: Word)
      requires Valid() && key in byAddress && indexes == byAddress[key]
      ensures Within(indexes, |symbols|) && forall k | 0 <= k < |indexes| :: Wrap(symbols[indexes[k]].address) == key
    {
      forall k | 0 <= k < |indexes| ensures indexes[k] < |symbols| && Wrap(symbols[indexes[k]].address) == key {
        assert indexes[k] in At(byAddress, key);
      }
    }

    lemma ListedInSection(key: (nat, Word))
      requires Valid()
      ensures Within(At(bySection, key), |symbols|)
      ensures forall i | i in At(bySection, key) :: i < |symbols| && SectionKey(symbols[i]) == Some(key)
    {
      forall k | 0 <= k < |At(bySection, key)| ensures At(bySection, key)[k] < |symbols| {
        assert At(bySection, key)[k] in At(bySection, key);
      }
    }

    lemma ListedUnderName(name: string)
      requires Valid() && name != []
      ensures Within(At(byName, name), |symbols|)
      ensures forall k | 0 <= k < |At(byName, name)| :: symbols[At(byName, name)[k]].name == name
    {
      forall k | 0 <= k < |At(byName, name)| ensures At(byName, name)[k] < |symbols|
          && symbols[At(byName, name)[k]].name == name {
        assert At(byName, name)[k] in At(byName, name);
      }
    }

    lemma ListedByName(i: nat)
      requires Valid() && i < |symbols| && symbols[i].name != []
      ensures i in At(byName, symbols[i].name)
    {
      assert Keys(symbols, NameKey)[i] == Some(symbols[i].name);
    }

    lemma ListedInSectionUnder(i: nat)
      requires Valid() && i < |symbols| && symbols[i].section.Some?
      ensures i in At(bySection, (symbols[i].section.value, Wrap(symbols[i].address)))
    {
      assert Keys(symbols, SectionKey)[i] == Some((symbols[i].section.value, Wrap(symbols[i].address)));
    }

    /** `iter_abs().find`: the absolute symbol of the name at the lowest address. */
    method FindAbsolute(name: string) returns (r: Option<nat>)
      requires Valid()
      ensures r.None? <==> forall i | 0 <= i < |symbols| :: !IsAbsolute(symbols[i], name)
      ensures r.Some? ==> r.value < |symbols| && IsAbsolute(symbols[r.value], name)
                          && forall i | 0 <= i < |symbols| && IsAbsolute(symbols[i], name) ::
                               Wrap(symbols[r.value].address) <= Wrap(symbols[i].address)
    {
      r := None;
      var keys := byAddress.Keys;
      var next := Ceiling(keys, 0);
      while next.Some?
        invariant r.None? && (next.Some? ==> next.value in keys)
        invariant forall i | 0 <= i < |symbols| && IsAbsolute(symbols[i], name) ::
                    next.Some? && next.value <= Wrap(symbols[i].address)
        decreases if next.Some? then Greatest(keys) - next.value + 1 else 0
      {
        var key: Word := next.value;
        ListedWithin(byAddress[key], key);
        r := FirstAbsolute(symbols, byAddress[key], name);
        forall i | 0 <= i < |symbols| && IsAbsolute(symbols[i], name) && Wrap(symbols[i].address) == key
          ensures r.Some? {
          ListedUnder(i);
        }
        if r.Some? {
          return;
        }
        forall i | 0 <= i < |symbols| && IsAbsolute(symbols[i], name) ensures Wrap(symbols[i].address) in keys {
          ListedUnder(i);
        }
        next := Ceiling(keys, next.value + 1);
      }
    }

    lemma ListedUnder(i: nat)
      requires Valid() && i < |symbols|
      ensures Wrap(symbols[i].address) in byAddress && i in byAddress[Wrap(symbols[i].address)]
    {
      assert Keys(symbols, AddressKey)[i] == Some(Wrap(symbols[i].address));
      assert i in At(byAddress, Wrap(symbols[i].address));
    }
  }
}
