/**
 * The new symbol records and strings that `fold` in src/cmd/coff.rs appends: records go before the
 * string table, long names to its end, and the two sizes are rewritten.
 */
module CoffAppending {
  import opened Wrappers
  import opened Words
  import opened Endian
  import opened CoffFormat

  const EXTERNAL: Byte := 2

  /** A name to be defined, and the primary's location and type. */
  datatype Def = Def(name: Bytes, value: Word, section: int, kind: int) {
    predicate Valid() {
      0 < section < 0x8000 && 0 <= kind < 0x1_0000
    }
  }

  /** What the name adds to the string table. */
  function LongName(name: Bytes): Bytes {
    if |name| <= 8 then [] else name + [0]
  }

  /** The first eight bytes of the record: the name, or four zeros and its string table offset. */
  function NameField(name: Bytes, so: Word): (bytes: Bytes)
    ensures |bytes| == 8
  {
    if |name| <= 8 then name + Zeros(8 - |name|) else [0, 0, 0, 0] + Write32(so)
  }

  function Zeros(n: nat): (bytes: Bytes)
    ensures |bytes| == n && forall i | 0 <= i < n :: bytes[i] == 0
  {
    if n == 0 then [] else [0] + Zeros(n - 1)
  }

  function Joined(parts: seq<Bytes>): Bytes {
    if parts == [] then [] else parts[0] + Joined(parts[1..])
  }

  function RecordParts(def: Def, so: Word): (parts: seq<Bytes>)
    requires def.Valid()
    ensures |parts| == 5 && |parts[0]| == 8 && |parts[1]| == 4 && |parts[2]| == |parts[3]| == |parts[4]| == 2
  {
    [NameField(def.name, so), Write32(def.value), Write16(def.section), Write16(def.kind), [EXTERNAL, 0]]
  }

  function NewRecord(def: Def, so: Word): (bytes: Bytes)
    requires def.Valid()
    ensures |bytes| == 18
  {
    var parts := RecordParts(def, so);
    JoinedParts(parts);
    Joined(parts)
  }

  lemma JoinedParts(parts: seq<Bytes>)
    requires |parts| == 5
    ensures |Joined(parts)| == |parts[0]| + |parts[1]| + |parts[2]| + |parts[3]| + |parts[4]|
    ensures Joined(parts) == parts[0] + parts[1] + parts[2] + parts[3] + parts[4]
  {
    assert Joined(parts[4..]) == parts[4] + Joined([]) == parts[4];
    assert parts[3..][1..] == parts[4..] && Joined(parts[3..]) == parts[3] + parts[4];
    assert parts[2..][1..] == parts[3..] && Joined(parts[2..]) == parts[2] + (parts[3] + parts[4]);
    assert parts[1..][1..] == parts[2..] && Joined(parts[1..]) == parts[1] + (parts[2] + (parts[3] + parts[4]));
  }

  /** The first `n` chunks, end to end. */
  ghost function Flat(chunks: seq<Bytes>, n: nat): Bytes
    requires n <= |chunks|
  {
    if n == 0 then [] else Flat(chunks, n - 1) + chunks[n - 1]
  }

  /** Each chunk is found where the ones before it end. */
  lemma {:induction false} ChunkAt(chunks: seq<Bytes>, n: nat, i: nat, at: nat)
    requires i < n <= |chunks| && at == |Flat(chunks, i)|
    ensures at + |chunks[i]| <= |Flat(chunks, n)| && Flat(chunks, n)[at..at + |chunks[i]|] == chunks[i]
  {
    if i < n - 1 {
      ChunkAt(chunks, n - 1, i, at);
      SliceOfFront(Flat(chunks, n - 1), chunks[n - 1], Flat(chunks, n), at, |chunks[i]|);
    } else {
      SliceOfEnd(Flat(chunks, i), chunks[i], Flat(chunks, n));
    }
  }

  lemma SliceOfFront(a: Bytes, b: Bytes, whole: Bytes, o: nat, n: nat)
    requires o + n <= |a| && whole == a + b
    ensures whole[o..o + n] == a[o..o + n]
  {
  }

  lemma SliceOfEnd(a: Bytes, b: Bytes, whole: Bytes)
    requires whole == a + b
    ensures whole[|a|..|a| + |b|] == b
  {
  }

  ghost predicate AllValid(defs: seq<Def>) {
    forall i | 0 <= i < |defs| :: defs[i].Valid()
  }

  /** The strings of the names, and the records with the offsets those strings end up at. */
  ghost predicate Built(defs: seq<Def>, strsize: nat, n: nat, records: seq<Bytes>, strings: seq<Bytes>)
    requires AllValid(defs) && n <= |defs|
  {
    && |records| == |strings| == n
    && (n > 0 ==>
          && Built(defs, strsize, n - 1, records[..n - 1], strings[..n - 1])
          && strings[n - 1] == LongName(defs[n - 1].name)
          && records[n - 1] == NewRecord(defs[n - 1], Wrap(strsize + |Flat(strings[..n - 1], n - 1)|)))
  }

  lemma {:induction false} BuiltAt(defs: seq<Def>, strsize: nat, n: nat, records: seq<Bytes>, strings: seq<Bytes>,
                                   i: nat)
    requires AllValid(defs) && i < n <= |defs| && Built(defs, strsize, n, records, strings)
    ensures |records[i]| == 18 && strings[i] == LongName(defs[i].name)
    ensures records[i] == NewRecord(defs[i], Wrap(strsize + |Flat(strings, i)|))
  {
    if i < n - 1 {
      BuiltAt(defs, strsize, n - 1, records[..n - 1], strings[..n - 1], i);
    }
    FlatSame(strings[..n - 1], strings, i);
  }

  lemma {:induction false} BuiltLength(defs: seq<Def>, strsize: nat, n: nat, records: seq<Bytes>, strings: seq<Bytes>,
                                       k: nat)
    requires AllValid(defs) && k <= n <= |defs| && Built(defs, strsize, n, records, strings)
    ensures |Flat(records, k)| == 18 * k
  {
    if k > 0 {
      BuiltLength(defs, strsize, n, records, strings, k - 1);
      BuiltAt(defs, strsize, n, records, strings, k - 1);
    }
  }

  /** The loop over the missing names, as far as it fills `new_records` and `new_strings`. */
  method BuildRecords(defs: seq<Def>, oldStrsize: nat)
    returns (newRecords: Bytes, newStrings: Bytes, ghost records: seq<Bytes>, ghost strings: seq<Bytes>)
    requires AllValid(defs)
    ensures Built(defs, oldStrsize, |defs|, records, strings)
    ensures newRecords == Flat(records, |defs|) && newStrings == Flat(strings, |defs|)
  {
    newRecords, newStrings, records, strings := [], [], [], [];
    for i := 0 to |defs|
      invariant Built(defs, oldStrsize, i, records, strings)
      invariant newRecords == Flat(records, i) && newStrings == Flat(strings, i)
    {
      var rec, s := NewRecord(defs[i], Wrap(oldStrsize + |newStrings|)), LongName(defs[i].name);
      FlatNext(records, rec);
      FlatNext(strings, s);
      BuiltNext(defs, oldStrsize, i, records + [rec], strings + [s], rec);
      newRecords, newStrings := newRecords + rec, newStrings + s;
      records, strings := records + [rec], strings + [s];
    }
  }

  lemma BuiltNext(defs: seq<Def>, strsize: nat, n: nat, records: seq<Bytes>, strings: seq<Bytes>, rec: Bytes)
    requires AllValid(defs) && n < |defs| && |records| == |strings| == n + 1
             && Built(defs, strsize, n, records[..n], strings[..n])
    requires rec == NewRecord(defs[n], Wrap(strsize + |Flat(strings[..n], n)|))
    requires strings[n] == LongName(defs[n].name) && records[n] == rec
    ensures Built(defs, strsize, n + 1, records, strings)
  {
  }

  lemma FlatNext(chunks: seq<Bytes>, chunk: Bytes)
    ensures Flat(chunks + [chunk], |chunks| + 1) == Flat(chunks, |chunks|) + chunk
    ensures (chunks + [chunk])[..|chunks|] == chunks
  {
    FlatSame(chunks, chunks + [chunk], |chunks|);
  }

  lemma {:induction false} FlatSame(chunks: seq<Bytes>, more: seq<Bytes>, n: nat)
    requires n <= |chunks| && chunks <= more
    ensures Flat(more, n) == Flat(chunks, n)
  {
    if n > 0 {
      FlatSame(chunks, more, n - 1);
    }
  }

  /** The string table lies inside the file and holds at least its own size. */
  predicate HasStrings(d: Bytes, layout: Layout) {
    layout.Fits(d) && 4 <= Read32(d, layout.Stroff()) && layout.Stroff() + Read32(d, layout.Stroff()) <= |d|
  }

  /** Where the string table comes to be, and what the two sizes become. */
  ghost predicate NewSizes(layout: Layout, size: nat, newRecords: Bytes, newStrings: Bytes,
                           stroff': nat, count': int, size': int) {
    && stroff' == layout.Stroff() + |newRecords|
    && count' == Wrap(layout.nsym + |newRecords| / 18) && size' == Wrap(size + |newStrings|)
  }

  /** Splices the records before the string table and the strings after it, and rewrites both sizes. */
  method Append(data: Bytes, layout: Layout, newRecords: Bytes, newStrings: Bytes, ghost stroff': nat,
                ghost count': int, ghost size': int)
    returns (data': Bytes)
    requires HasStrings(data, layout)
    requires NewSizes(layout, Read32(data, layout.Stroff()), newRecords, newStrings, stroff', count', size')
    ensures newRecords == [] ==> data' == data
    ensures newRecords != [] ==>
              var stroff := layout.Stroff();
              Appended(data, stroff, Read32(data, stroff), newRecords, newStrings, data', stroff', count', size')
  {
    data' := data;
    if newRecords != [] {
      var stroff := layout.Stroff();
      var end := stroff + Read32(data, stroff);
      var strtab := data[stroff..end] + newStrings;
      var size := Wrap(|strtab|);
      strtab := Put(strtab, 0, Write32(size));
      data' := data[..stroff] + newRecords + strtab + data[end..];
      var count := Wrap(layout.nsym + |newRecords| / 18);
      AppendedIs(data, layout, newRecords, newStrings, strtab, data', count);
      data' := Put(data', 12, Write32(count));
    }
  }

  /** Only the two sizes are rewritten, and nothing is lost. */
  ghost predicate Appended(d: Bytes, stroff: nat, size: nat, newRecords: Bytes, newStrings: Bytes,
                           d': Bytes, stroff': nat, count': int, size': int) {
    Spliced(d, stroff, size, newRecords, newStrings, d') && stroff' == stroff + |newRecords|
        && Sized(d', stroff', count', size')
  }

  /** The number of records and the size of the string table, as they are read. */
  ghost predicate Sized(d: Bytes, stroff: nat, count: int, size: int) {
    16 <= stroff && stroff + 4 <= |d| && Read32(d, 12) == count && Read32(d, stroff) == size
  }

  lemma AppendedIs(d: Bytes, layout: Layout, newRecords: Bytes, newStrings: Bytes, strtab: Bytes, d': Bytes,
                   count: Word)
    requires HasStrings(d, layout)
    requires var stroff := layout.Stroff(); var size := Read32(d, stroff);
             && strtab == Put(d[stroff..stroff + size] + newStrings, 0, Write32(Wrap(size + |newStrings|)))
             && d' == d[..stroff] + newRecords + strtab + d[stroff + size..]
    ensures var stroff := layout.Stroff();
            Appended(d, stroff, Read32(d, stroff), newRecords, newStrings, Put(d', 12, Write32(count)),
                     stroff + |newRecords|,
                     count, Wrap(Read32(d, stroff) + |newStrings|))
  {
    var stroff := layout.Stroff();
    var size := Read32(d, stroff);
    Write32Reads(count);
    Write32Reads(Wrap(size + |newStrings|));
    PartsSpliced(d, stroff, size, newRecords, newStrings, Write32(Wrap(size + |newStrings|)), Write32(count), strtab,
                 d');
  }

  lemma PartsSpliced(d: Bytes, stroff: nat, size: nat, newRecords: Bytes, newStrings: Bytes, newSize: Bytes,
                     count: Bytes, strtab: Bytes, mid: Bytes)
    requires 16 <= stroff && 4 <= size && stroff + size <= |d| && |newSize| == |count| == 4
    requires strtab == Put(d[stroff..stroff + size] + newStrings, 0, newSize)
    requires mid == d[..stroff] + newRecords + strtab + d[stroff + size..]
    ensures Spliced(d, stroff, size, newRecords, newStrings, Put(mid, 12, count))
    ensures SizesAre(Put(mid, 12, count), stroff + |newRecords|, count, newSize)
  {
    var o := stroff + |newRecords|;
    FourParts(d[..stroff], newRecords, strtab, d[stroff + size..], mid);
    StrtabIs(d, stroff, size, newStrings, newSize, strtab);
    PartsSizes(mid, count, strtab, newSize, o);
    IsSpliced(d, stroff, size, newRecords, newStrings, strtab, mid, Put(mid, 12, count));
  }

  ghost predicate SizesAre(d: Bytes, stroff: nat, count: Bytes, size: Bytes) {
    16 <= stroff && stroff + 4 <= |d| && Read32(d, 12) == Value(count) && Read32(d, stroff) == Value(size)
  }

  lemma PartsSizes(mid: Bytes, count: Bytes, strtab: Bytes, size: Bytes, o: nat)
    requires 16 <= o && |count| == 4 && 4 <= |strtab| && o + |strtab| <= |mid| && mid[o..o + |strtab|] == strtab
    requires Read32(strtab, 0) == Value(size)
    ensures SizesAre(Put(mid, 12, count), o, count, size)
  {
    Read32Put(mid, 12, count);
    SizeInside(mid, count, strtab, o);
  }

  lemma SizeInside(mid: Bytes, count: Bytes, strtab: Bytes, o: nat)
    requires 16 <= o && |count| == 4 && 4 <= |strtab| && o + |strtab| <= |mid| && mid[o..o + |strtab|] == strtab
    ensures Read32(Put(mid, 12, count), o) == Read32(strtab, 0)
  {
    PutBefore(mid, 12, count, o, o + 4);
    SubSlice(mid, o, strtab, 0, 4);
  }

  lemma PutBefore(d: Bytes, o: nat, bytes: Bytes, i: nat, j: nat)
    requires o + |bytes| <= i <= j <= |d|
    ensures Put(d, o, bytes)[i..j] == d[i..j]
  {
  }

  lemma StrtabIs(d: Bytes, stroff: nat, size: nat, newStrings: Bytes, newSize: Bytes, strtab: Bytes)
    requires 4 <= size && stroff + size <= |d| && |newSize| == 4
    requires strtab == Put(d[stroff..stroff + size] + newStrings, 0, newSize)
    ensures |strtab| == size + |newStrings| && Read32(strtab, 0) == Value(newSize)
    ensures forall k | 4 <= k < |strtab| :: strtab[k] == if k < size then d[stroff + k] else newStrings[k - size]
  {
    var was := d[stroff..stroff + size] + newStrings;
    Read32Put(was, 0, newSize);
    forall k | 4 <= k < |strtab| ensures strtab[k] == if k < size then d[stroff + k] else newStrings[k - size] {
      assert strtab[k] == was[k];
    }
  }

  ghost predicate Parts(a: Bytes, b: Bytes, c: Bytes, e: Bytes, d: Bytes) {
    && |d| == |a| + |b| + |c| + |e|
    && (forall k | 0 <= k < |a| :: d[k] == a[k])
    && (forall k | |a| <= k < |a| + |b| :: d[k] == b[k - |a|])
    && (forall k | |a| + |b| <= k < |a| + |b| + |c| :: d[k] == c[k - |a| - |b|])
    && (forall k | |a| + |b| + |c| <= k < |d| :: d[k] == e[k - |a| - |b| - |c|])
    && d[|a| + |b|..|a| + |b| + |c|] == c
  }

  lemma FourParts(a: Bytes, b: Bytes, c: Bytes, e: Bytes, d: Bytes)
    requires d == a + b + c + e
    ensures Parts(a, b, c, e, d)
  {
  }

  lemma IsSpliced(d: Bytes, stroff: nat, size: nat, newRecords: Bytes, newStrings: Bytes, strtab: Bytes, mid: Bytes,
                  d': Bytes)
    requires 16 <= stroff && 4 <= size && stroff + size <= |d|
    requires |strtab| == size + |newStrings|
    requires forall k | 4 <= k < |strtab| ::
               strtab[k] == if k < size then d[stroff + k] else newStrings[k - size]
    requires Parts(d[..stroff], newRecords, strtab, d[stroff + size..], mid)
    requires |d'| == |mid| && forall k | 0 <= k < |mid| && !(12 <= k < 16) :: d'[k] == mid[k]
    ensures Spliced(d, stroff, size, newRecords, newStrings, d')
  {
  }

  /** What each byte of the result is: nothing but the two sizes is changed, and nothing is lost. */
  ghost predicate Spliced(d: Bytes, stroff: nat, size: nat, newRecords: Bytes, newStrings: Bytes, d': Bytes) {
    var stroff', end := stroff + |newRecords|, stroff + size;
    && 16 <= stroff && 4 <= size && end <= |d| && |d'| == |d| + |newRecords| + |newStrings|
    && (forall k {:trigger d'[k]} | 0 <= k < stroff && !(12 <= k < 16) :: d'[k] == d[k])
    && (forall k {:trigger d'[k]} | stroff <= k < stroff' :: d'[k] == newRecords[k - stroff])
    && (forall k {:trigger d'[k]} | stroff' + 4 <= k < stroff' + size :: d'[k] == d[k - |newRecords|])
    && (forall k {:trigger d'[k]} | stroff' + size <= k < stroff' + size + |newStrings| ::
         d'[k] == newStrings[k - stroff' - size])
    && (forall k {:trigger d'[k]} | stroff' + size + |newStrings| <= k < |d'| ::
         d'[k] == d[k - |newRecords| - |newStrings|])
  }

  /** A string that starts past the size and ends inside the string table. */
  ghost predicate WellTerminated(d: Bytes, stroff: nat, size: nat, so: nat) {
    4 <= so && stroff + so <= |d| && so + |CString(d[stroff + so..])| < size
  }

  lemma OldString(d: Bytes, stroff: nat, size: nat, newRecords: Bytes, newStrings: Bytes, d': Bytes, so: nat)
    requires Spliced(d, stroff, size, newRecords, newStrings, d') && WellTerminated(d, stroff, size, so)
    ensures CString(d'[stroff + |newRecords| + so..]) == CString(d[stroff + so..])
  {
    var s, s' := d[stroff + so..], d'[stroff + |newRecords| + so..];
    var r := CString(s);
    CStringMeans(s);
    forall i | 0 <= i <= |r| ensures s'[i] == s[i] {
      assert s'[i] == d'[stroff + |newRecords| + so + i];
    }
    assert r <= s';
    CStringIs(s', r);
  }

  lemma OldBytes(d: Bytes, stroff: nat, size: nat, newRecords: Bytes, newStrings: Bytes, d': Bytes, i: nat, j: nat)
    requires Spliced(d, stroff, size, newRecords, newStrings, d') && 16 <= i <= j <= stroff
    ensures d'[i..j] == d[i..j]
  {
  }

  /** Every old record reads the same name at its old index, if that name ends inside the string table. */
  lemma OldRecordReads(d: Bytes, stroff: nat, size: nat, newRecords: Bytes, newStrings: Bytes, d': Bytes, o: nat,
                       stroff': nat)
    requires Spliced(d, stroff, size, newRecords, newStrings, d') && 16 <= o && o + 18 <= stroff
             && stroff' == stroff + |newRecords|
    requires Read32(d, o) == 0 ==> WellTerminated(d, stroff, size, Read32(d, o + 4))
    ensures SymName(d', stroff', o) == SymName(d, stroff, o)
  {
    OldBytes(d, stroff, size, newRecords, newStrings, d', o, o + 8);
    OffsetSame(d, d', o);
    if Read32(d, o) == 0 {
      var so := Read32(d, o + 4);
      OldString(d, stroff, size, newRecords, newStrings, d', so);
      LongSymName(d, stroff, o, so);
      LongSymName(d', stroff', o, so);
    }
  }

  lemma OffsetSame(d: Bytes, d': Bytes, o: nat)
    requires o + 8 <= |d| && o + 8 <= |d'| && d'[o..o + 8] == d[o..o + 8]
    ensures Read32(d', o) == Read32(d, o) && Read32(d', o + 4) == Read32(d, o + 4)
  {
    SubSlice(d, o, d[o..o + 8], 0, 4);
    SubSlice(d, o, d[o..o + 8], 4, 8);
    SubSlice(d', o, d[o..o + 8], 0, 4);
    SubSlice(d', o, d[o..o + 8], 4, 8);
  }

  /** A name in the record itself: padded with zeros, or exactly eight bytes. */
  lemma ShortNameReads(d: Bytes, stroff: nat, o: nat, name: Bytes)
    requires o + 8 <= |d| && stroff + 4 <= |d| && |name| <= 8 && d[o..o + 8] == name + Zeros(8 - |name|)
    ensures SymName(d, stroff, o) == name <==> 0 !in name && (name != [] || d[stroff] == 0)
  {
    SymNameHasNoNul(d, stroff, o);
    if name == [] {
      EmptyNameReads(d, stroff, o, d[o..o + 8]);
    } else if 0 !in name {
      FieldNameReads(d, stroff, o, name);
    }
  }

  lemma FieldNameReads(d: Bytes, stroff: nat, o: nat, name: Bytes)
    requires o + 8 <= |d| && 0 < |name| <= 8 && d[o..o + 8] == name + Zeros(8 - |name|) && 0 !in name
    ensures SymName(d, stroff, o) == name
  {
    var field := d[o..o + 8];
    assert field[0] == name[0] && name[0] in name && field[0] == d[o];
    FirstByte(d, o);
    assert field[..|name|] == name && (|name| < 8 ==> field[|name|] == Zeros(8 - |name|)[0]);
    CStringIs(field, name);
  }

  lemma FirstByte(d: Bytes, o: nat)
    requires o + 4 <= |d| && d[o] != 0
    ensures Read32(d, o) != 0
  {
  }

  lemma EmptyNameReads(d: Bytes, stroff: nat, o: nat, zeros: Bytes)
    requires o + 8 <= |d| && stroff + 4 <= |d| && |zeros| == 8 && d[o..o + 8] == zeros && forall i | 0 <= i < 8 ::
               zeros[i] == 0
    ensures SymName(d, stroff, o) == [] <==> d[stroff] == 0
  {
    ZerosRead(d, o, zeros);
    assert SymName(d, stroff, o) == CString(d[stroff..]);
    CStringEmpty(d[stroff..]);
  }

  lemma ZerosRead(d: Bytes, o: nat, zeros: Bytes)
    requires o + 8 <= |d| && |zeros| == 8 && d[o..o + 8] == zeros && forall i | 0 <= i < 8 :: zeros[i] == 0
    ensures Read32(d, o) == 0 && Read32(d, o + 4) == 0
  {
    SubSlice(d, o, zeros, 0, 4);
    SubSlice(d, o, zeros, 4, 8);
    ZerosValue(d[o..o + 4]);
    ZerosValue(d[o + 4..o + 8]);
  }

  lemma {:induction false} ZerosValue(zeros: Bytes)
    requires forall i | 0 <= i < |zeros| :: zeros[i] == 0
    ensures Value(zeros) == 0
  {
    if zeros != [] {
      ZerosValue(zeros[1..]);
    }
  }

  lemma CStringEmpty(s: Bytes)
    requires s != []
    ensures CString(s) == [] <==> s[0] == 0
  {
  }

  /** A name in the string table, at the offset the record holds. */
  lemma LongNameReads(d: Bytes, stroff: nat, o: nat, name: Bytes, so: Word)
    requires o + 8 <= |d| && d[o..o + 8] == [0, 0, 0, 0] + Write32(so)
    requires stroff + so + |name| + 1 <= |d| && d[stroff + so..stroff + so + |name| + 1] == name + [0]
    ensures SymName(d, stroff, o) == name <==> 0 !in name
  {
    SymNameHasNoNul(d, stroff, o);
    var field, s := d[o..o + 8], d[stroff + so..];
    OffsetReads(d, o, Write32(so));
    Write32Reads(so);
    assert s[..|name| + 1] == name + [0];
    if 0 !in name {
      TerminatedIs(s, name);
    }
  }

  lemma TerminatedIs(s: Bytes, name: Bytes)
    requires |name| < |s| && s[..|name| + 1] == name + [0] && 0 !in name
    ensures CString(s) == name
  {
    var front := s[..|name| + 1];
    assert front[..|name|] == name && front[|name|] == 0;
    assert s[..|name|] == front[..|name|] && s[|name|] == front[|name|];
    CStringIs(s, name);
  }

  lemma OffsetReads(d: Bytes, o: nat, bytes: Bytes)
    requires o + 8 <= |d| && |bytes| == 4 && d[o..o + 8] == [0, 0, 0, 0] + bytes
    ensures Read32(d, o) == 0 && Read32(d, o + 4) == Value(bytes)
  {
    var whole := [0, 0, 0, 0] + bytes;
    SubSlice(d, o, whole, 0, 4);
    SubSlice(d, o, whole, 4, 8);
    assert whole[0..4] == [0, 0, 0, 0] && whole[4..8] == bytes;
    ZerosValue([0, 0, 0, 0]);
  }

  lemma FieldsOfNew(d: Bytes, o: nat, def: Def, so: Word, rec: Bytes)
    requires def.Valid() && rec == NewRecord(def, so) && o + 18 <= |d| && d[o..o + 18] == rec
    ensures FieldsRead(d, Rec(o, def.name, def.value, def.section, EXTERNAL, def.kind)) && d[o + 17] == 0
    ensures d[o..o + 8] == NameField(def.name, so)
  {
    var parts := RecordParts(def, so);
    JoinedParts(parts);
    PartsAt(d, o, rec, parts);
    Write32Reads(def.value);
    Write16Reads(def.section);
    Write16Reads(def.kind);
  }

  lemma PartsAt(d: Bytes, o: nat, rec: Bytes, parts: seq<Bytes>)
    requires |parts| == 5 && |parts[0]| == 8 && |parts[1]| == 4 && |parts[2]| == |parts[3]| == |parts[4]| == 2
    requires rec == parts[0] + parts[1] + parts[2] + parts[3] + parts[4] && o + 18 <= |d| && d[o..o + 18] == rec
    ensures d[o..o + 8] == parts[0]
    ensures Read32(d, o + 8) == Value(parts[1])
    ensures Read16(d, o + 12) == Value(parts[2]) && Read16(d, o + 14) == Value(parts[3])
    ensures d[o + 16] == parts[4][0] && d[o + 17] == parts[4][1]
  {
    SubSlice(d, o, rec, 0, 8);
    SubSlice(d, o, rec, 8, 12);
    SubSlice(d, o, rec, 12, 14);
    SubSlice(d, o, rec, 14, 16);
    assert rec[0..8] == parts[0] && rec[8..12] == parts[1] && rec[12..14] == parts[2] && rec[14..16] == parts[3];
    assert d[o..o + 18][16] == d[o + 16] && d[o..o + 18][17] == d[o + 17];
  }

  lemma SubSlice(d: Bytes, o: nat, whole: Bytes, i: nat, j: nat)
    requires o + |whole| <= |d| && d[o..o + |whole|] == whole && i <= j <= |whole|
    ensures d[o + i..o + j] == whole[i..j]
  {
    var slice := d[o + i..o + j];
    forall k | 0 <= k < |slice| ensures slice[k] == whole[i..j][k] {
      assert slice[k] == d[o + (i + k)] && d[o..o + |whole|][i + k] == d[o + (i + k)];
    }
  }

  /** The names a record can hold: no NUL, and not empty unless the string table's size begins with a zero byte. */
  predicate Writable(name: Bytes, strsize: nat) {
    0 !in name && (name != [] || strsize % 0x100 == 0)
  }

  lemma AddedAll(defs: seq<Def>, strsize: nat, records: seq<Bytes>, strings: seq<Bytes>)
    requires AllValid(defs) && Built(defs, strsize, |defs|, records, strings)
    ensures |Flat(strings, |defs|)| == Added(defs)
  {
    AddedLength(defs, strsize, |defs|, records, strings);
    assert defs[..|defs|] == defs;
  }

  /** The record reads as the definition, its name exactly if that can be written; it has no auxiliary records. */
  ghost predicate NewRead(d': Bytes, stroff': nat, o: nat, def: Def) {
    && o + 18 <= stroff' && stroff' + 4 <= |d'| && d'[o + 17] == 0
    && FieldsRead(d', Rec(o, def.name, def.value, def.section, EXTERNAL, def.kind))
    && (SymName(d', stroff', o) == def.name <==> Writable(def.name, Read32(d', stroff')))
  }

  /** Each appended record reads back as the definition it was made for, exactly when its name can be written. */
  lemma NewRecordReads(d: Bytes, stroff: nat, size: nat, defs: seq<Def>, records: seq<Bytes>, strings: seq<Bytes>,
                       d': Bytes,
                       i: nat, o: nat, stroff': nat)
    requires AllValid(defs) && i < |defs| && Built(defs, size, |defs|, records, strings)
    requires Spliced(d, stroff, size, Flat(records, |defs|), Flat(strings, |defs|), d')
    requires size + |Flat(strings, |defs|)| < 0x1_0000_0000 && o == stroff + 18 * i && stroff' == stroff + 18 * |defs|
    ensures NewRead(d', stroff', o, defs[i])
  {
    BuiltLength(defs, size, |defs|, records, strings, |defs|);
    PlacedRecord(d, stroff, size, defs, records, strings, Flat(strings, |defs|), d', i, o);
    var so := PlacedString(d, stroff, size, records, strings, Flat(records, |defs|), d', i, stroff');
    BuiltAt(defs, size, |defs|, records, strings, i);
    WrapSmall(so);
    RecordReads(d', stroff', o, defs[i], so, records[i], strings[i]);
  }

  lemma PlacedRecord(d: Bytes, stroff: nat, size: nat, defs: seq<Def>, records: seq<Bytes>, strings: seq<Bytes>,
                     newStrings: Bytes, d': Bytes,
                     i: nat, o: nat)
    requires AllValid(defs) && i < |defs| && Built(defs, size, |defs|, records, strings) && o == stroff + 18 * i
    requires Spliced(d, stroff, size, Flat(records, |defs|), newStrings, d')
    ensures |records[i]| == 18 && o + 18 <= |d'| && d'[o..o + 18] == records[i]
  {
    BuiltAt(defs, size, |defs|, records, strings, i);
    BuiltLength(defs, size, |defs|, records, strings, i);
    ChunkAt(records, |defs|, i, 18 * i);
    SplicedRecord(d, stroff, size, Flat(records, |defs|), newStrings, d', 18 * i, records[i], o);
  }

  lemma PlacedString(d: Bytes, stroff: nat, size: nat, records: seq<Bytes>, strings: seq<Bytes>, newRecords: Bytes,
                     d': Bytes, i: nat, stroff': nat)
    returns (so: nat)
    requires i < |strings| && Spliced(d, stroff, size, newRecords, Flat(strings, |strings|), d')
             && stroff' == stroff + |newRecords|
    ensures so == size + |Flat(strings, i)| && so + |strings[i]| <= size + |Flat(strings, |strings|)|
    ensures stroff' + so + |strings[i]| <= |d'| && d'[stroff' + so..stroff' + so + |strings[i]|] == strings[i]
  {
    var at := |Flat(strings, i)|;
    ChunkAt(strings, |strings|, i, at);
    so := size + at;
    SplicedString(d, stroff, size, newRecords, Flat(strings, |strings|), d', at, strings[i], stroff' + so);
  }

  lemma WrapSmall(x: nat)
    requires x < 0x1_0000_0000
    ensures Wrap(x) == x
  {
  }

  lemma RecordReads(d: Bytes, stroff: nat, o: nat, def: Def, so: Word, rec: Bytes, s: Bytes)
    requires def.Valid() && rec == NewRecord(def, so) && s == LongName(def.name) && o + 18 <= stroff <= |d|
             && d[o..o + 18] == rec
    requires stroff + 4 <= |d| && stroff + so + |s| <= |d| && d[stroff + so..stroff + so + |s|] == s
    ensures NewRead(d, stroff, o, def)
  {
    FieldsOfNew(d, o, def, so, rec);
    NameReads(d, stroff, o, def.name, so, s);
  }

  lemma NameReads(d: Bytes, stroff: nat, o: nat, name: Bytes, so: Word, s: Bytes)
    requires s == LongName(name) && o + 8 <= |d| && d[o..o + 8] == NameField(name, so)
    requires stroff + 4 <= |d| && stroff + so + |s| <= |d| && d[stroff + so..stroff + so + |s|] == s
    ensures SymName(d, stroff, o) == name <==> Writable(name, Read32(d, stroff))
  {
    if |name| <= 8 {
      ShortNameReads(d, stroff, o, name);
      LowByte(d, stroff);
    } else {
      LongNameReads(d, stroff, o, name, so);
    }
  }

  lemma LowByte(d: Bytes, o: nat)
    requires o + 4 <= |d|
    ensures d[o] == 0 <==> Read32(d, o) % 0x100 == 0
  {
  }

  lemma SplicedRecord(d: Bytes, stroff: nat, size: nat, records: Bytes, strings: Bytes, d': Bytes, at: nat, rec: Bytes,
                      o: nat)
    requires Spliced(d, stroff, size, records, strings, d') && at + 18 <= |records| && records[at..at + 18] == rec
             && o == stroff + at
    ensures o + 18 <= |d'| && d'[o..o + 18] == rec
  {
    var slice := d'[o..o + 18];
    forall k | 0 <= k < 18 ensures slice[k] == rec[k] {
      assert slice[k] == d'[o + k] && rec[k] == records[at..at + 18][k];
    }
  }

  lemma SplicedString(d: Bytes, stroff: nat, size: nat, records: Bytes, strings: Bytes, d': Bytes, at: nat, s: Bytes,
                      o: nat)
    requires Spliced(d, stroff, size, records, strings, d') && at + |s| <= |strings| && strings[at..at + |s|] == s
    requires o == stroff + |records| + size + at
    ensures o + |s| <= |d'| && d'[o..o + |s|] == s
  {
    var slice := d'[o..o + |s|];
    forall k | 0 <= k < |s| ensures slice[k] == s[k] {
      assert slice[k] == d'[o + k] && s[k] == strings[at..at + |s|][k];
    }
  }

  lemma {:induction false} CStringOfAppend(a: Bytes, b: Bytes)
    ensures CString(a + b) == if 0 in a then CString(a) else a + CString(b)
  {
    if a == [] {
      assert a + b == b;
    } else if a[0] != 0 {
      assert (a + b)[1..] == a[1..] + b;
      CStringOfAppend(a[1..], b);
      assert a == [a[0]] + a[1..];
    }
  }

  lemma CStringShorter(a: Bytes)
    ensures |CString(a)| <= |a| && (0 in a ==> |CString(a)| < |a|)
  {
    CStringMeans(a);
    if 0 in a {
      assert CString(a) != a;
    }
  }

  /**
   * Whether a name that runs over the size bytes `h` and the table's text `x` survives new size bytes and new
   * strings.
   */
  predicate NameKept(h: Bytes, h': Bytes, x: Bytes, newStrings: Bytes, tail: Bytes) {
    if 0 in h || 0 in h' then 0 in h && 0 in h' && CString(h) == CString(h')
    else h == h' && (0 in x || CString(newStrings + tail) == CString(tail))
  }

  lemma NameKeptIff(h: Bytes, h': Bytes, x: Bytes, newStrings: Bytes, tail: Bytes)
    requires |h| == |h'|
    ensures CString(h' + (x + (newStrings + tail))) == CString(h + (x + tail)) <==> NameKept(h, h', x, newStrings, tail)
  {
    CStringOfAppend(h, x + tail);
    CStringOfAppend(h', x + (newStrings + tail));
    CStringOfAppend(x, tail);
    CStringOfAppend(x, newStrings + tail);
    CStringShorter(h);
    CStringShorter(h');
    if 0 !in h && 0 !in h' {
      SameFront(h, h', CString(x + tail), CString(x + (newStrings + tail)));
      SameFront(x, x, CString(tail), CString(newStrings + tail));
    }
  }

  lemma SameFront(a: Bytes, a': Bytes, b: Bytes, b': Bytes)
    requires |a| == |a'|
    ensures a + b == a' + b' <==> a == a' && b == b'
  {
    if a + b == a' + b' {
      assert a == (a + b)[..|a|] && a' == (a' + b')[..|a|];
      assert b == (a + b)[|a|..] && b' == (a' + b')[|a|..];
    }
  }

  /** Where the text of a string starts that may begin inside the size. */
  function TextFrom(so: nat): nat {
    if so < 4 then 4 else so
  }

  /** The size's four bytes from the offset on, if it is inside the size. */
  function SizeFrom(size: Bytes, so: nat): Bytes
    requires |size| == 4
  {
    if so < 4 then size[so..] else []
  }

  /** Whether the string at an offset is the same once new strings are added and the size's bytes are `size'`. */
  ghost predicate StringKept(d: Bytes, stroff: nat, size: nat, newStrings: Bytes, size': Bytes, so: nat)
    requires 4 <= size && stroff + size <= |d| && stroff + so <= |d| && |size'| == 4
  {
    var tail := d[stroff + size..];
    if so <= size then
      NameKept(SizeFrom(d[stroff..stroff + 4], so), SizeFrom(size', so), d[stroff + TextFrom(so)..stroff + size],
               newStrings, tail)
    else
      CString((newStrings + tail)[so - size..]) == CString(tail[so - size..])
  }

  /** An old name in the string table is kept exactly when the bytes it runs over allow it. */
  lemma OldNameIff(d: Bytes, stroff: nat, size: nat, newRecords: Bytes, newStrings: Bytes,
                   d': Bytes, stroff': nat, count': int, size': Word, o: nat, so: nat)
    requires Appended(d, stroff, size, newRecords, newStrings, d', stroff', count', size') && 16 <= o
             && o + 18 <= stroff
    requires Read32(d, o) == 0 && so == Read32(d, o + 4) && stroff + so <= |d|
    ensures SymName(d', stroff', o) == SymName(d, stroff, o) <==>
            StringKept(d, stroff, size, newStrings, Write32(size'), so)
  {
    SizeBytes(d', stroff', count', size');
    NameIff(d, stroff, size, newRecords, newStrings, d', o, stroff', so, Write32(size'));
  }

  lemma NameIff(d: Bytes, stroff: nat, size: nat, newRecords: Bytes, newStrings: Bytes, d': Bytes, o: nat, stroff': nat,
                so: nat, size': Bytes)
    requires Spliced(d, stroff, size, newRecords, newStrings, d') && 16 <= o && o + 18 <= stroff
             && stroff' == stroff + |newRecords|
    requires Read32(d, o) == 0 && so == Read32(d, o + 4) && stroff + so <= |d|
    requires |size'| == 4 && d'[stroff'..stroff' + 4] == size'
    ensures SymName(d', stroff', o) == SymName(d, stroff, o) <==> StringKept(d, stroff, size, newStrings, size', so)
  {
    OldBytes(d, stroff, size, newRecords, newStrings, d', o, o + 8);
    OffsetSame(d, d', o);
    LongSymName(d, stroff, o, so);
    LongSymName(d', stroff', o, so);
    AnyStringKeptIff(d, stroff, size, newRecords, newStrings, d', stroff', so, size');
  }

  lemma AnyStringKeptIff(d: Bytes, stroff: nat, size: nat, newRecords: Bytes, newStrings: Bytes, d': Bytes,
                         stroff': nat,
                         so: nat, size': Bytes)
    requires Spliced(d, stroff, size, newRecords, newStrings, d') && stroff + so <= |d|
             && stroff' == stroff + |newRecords|
    requires |size'| == 4 && d'[stroff'..stroff' + 4] == size'
    ensures CString(d'[stroff' + so..]) == CString(d[stroff + so..]) <==>
              StringKept(d, stroff, size, newStrings, size', so)
  {
    if so <= size {
      StringKeptIff(d, stroff, size, newRecords, newStrings, d', stroff', so, size');
    } else {
      PastTable(d, stroff, size, newRecords, newStrings, d', so);
    }
  }

  lemma LongSymName(d: Bytes, stroff: nat, o: nat, so: nat)
    requires o + 8 <= |d| && Read32(d, o) == 0 && Read32(d, o + 4) == so && stroff + so <= |d|
    ensures SymName(d, stroff, o) == CString(d[stroff + so..])
  {
  }

  /** The size as `Append` leaves it has the bytes of what it reads as. */
  lemma SizeBytes(d: Bytes, stroff: nat, count: int, size: Word)
    requires Sized(d, stroff, count, size)
    ensures d[stroff..stroff + 4] == Write32(size)
  {
    ValueLowest(d[stroff..stroff + 4], 4);
  }

  lemma StringKeptIff(d: Bytes, stroff: nat, size: nat, newRecords: Bytes, newStrings: Bytes, d': Bytes, stroff': nat,
                      so: nat, size': Bytes)
    requires Spliced(d, stroff, size, newRecords, newStrings, d') && so <= size && stroff' == stroff + |newRecords|
    requires |size'| == 4 && d'[stroff'..stroff' + 4] == size'
    ensures CString(d'[stroff' + so..]) == CString(d[stroff + so..]) <==>
              StringKept(d, stroff, size, newStrings, size', so)
  {
    var text := TextFrom(so);
    var h, h', x, tail := SizeFrom(d[stroff..stroff + 4], so), SizeFrom(size', so),
      d[stroff + text..stroff + size], d[stroff + size..];
    SizePart(d, stroff, d[stroff..stroff + 4], so);
    SizePart(d', stroff', size', so);
    OldParts(d, stroff, size, so, text, h, x, tail);
    NewParts(d, stroff, size, newRecords, newStrings, d', so, text, h', x, tail);
    NameKeptIff(h, h', x, newStrings, tail);
  }

  lemma SizePart(d: Bytes, stroff: nat, size: Bytes, so: nat)
    requires stroff + TextFrom(so) <= |d| && |size| == 4 && d[stroff..stroff + 4] == size
    ensures d[stroff + so..stroff + TextFrom(so)] == SizeFrom(size, so)
  {
    if so < 4 {
      SubSlice(d, stroff, size, so, 4);
    }
  }

  /** A string past the table's end runs into what has been put there. */
  lemma PastTable(d: Bytes, stroff: nat, size: nat, newRecords: Bytes, newStrings: Bytes, d': Bytes, so: nat)
    requires Spliced(d, stroff, size, newRecords, newStrings, d') && size < so && stroff + so <= |d|
    ensures d[stroff + so..] == d[stroff + size..][so - size..]
    ensures d'[stroff + |newRecords| + so..] == (newStrings + d[stroff + size..])[so - size..]
  {
    var s, r := d'[stroff + |newRecords| + so..], (newStrings + d[stroff + size..])[so - size..];
    assert |s| == |r|;
    forall k | 0 <= k < |s| ensures s[k] == r[k] {
      assert s[k] == d'[stroff + |newRecords| + so + k] && r[k] == (newStrings + d[stroff + size..])[so - size + k];
    }
  }

  /** A name that is the size itself, 5 before ten bytes are added and 15 after. */
  lemma OldNameFails(d: Bytes, newRecords: Bytes, newStrings: Bytes, d': Bytes, o: nat, stroff: nat, stroff': nat)
    requires Spliced(d, stroff, 5, newRecords, newStrings, d') && 16 <= o && o + 18 <= stroff
             && stroff' == stroff + |newRecords|
    requires Read32(d, o) == 0 && Read32(d, o + 4) == 0
    requires d[stroff..stroff + 4] == [5, 0, 0, 0] && d'[stroff'..stroff' + 4] == [15, 0, 0, 0]
    ensures SymName(d', stroff', o) != SymName(d, stroff, o)
  {
    NameIff(d, stroff, 5, newRecords, newStrings, d', o, stroff', 0, [15, 0, 0, 0]);
    var h, h' := SizeFrom([5, 0, 0, 0], 0), SizeFrom([15, 0, 0, 0], 0);
    assert h[0] == 5 && h'[0] == 15 && h[1] == 0 && h'[1] == 0;
    CStringIs(h, [5]);
    CStringIs(h', [15]);
  }

  lemma OldParts(d: Bytes, stroff: nat, size: nat, so: nat, text: nat, h: Bytes, x: Bytes, tail: Bytes)
    requires so <= text <= size && stroff + size <= |d|
    requires h == d[stroff + so..stroff + text] && x == d[stroff + text..stroff + size] && tail == d[stroff + size..]
    ensures d[stroff + so..] == h + (x + tail)
  {
  }

  lemma NewParts(d: Bytes, stroff: nat, size: nat, newRecords: Bytes, newStrings: Bytes, d': Bytes, so: nat, text: nat,
                 h': Bytes, x: Bytes, tail: Bytes)
    requires Spliced(d, stroff, size, newRecords, newStrings, d') && so <= text && 4 <= text <= size
    requires h' == d'[stroff + |newRecords| + so..stroff + |newRecords| + text] && x == d[stroff + text..stroff + size]
             && tail == d[stroff + size..]
    ensures d'[stroff + |newRecords| + so..] == h' + (x + (newStrings + tail))
  {
    var s, r := d'[stroff + |newRecords| + so..], h' + (x + (newStrings + tail));
    assert |s| == |r|;
    forall k | 0 <= k < |s| ensures s[k] == r[k] {
      assert s[k] == d'[stroff + |newRecords| + so + k];
    }
  }

  /** The bytes all the names add to the string table. */
  function Added(defs: seq<Def>): nat {
    if defs == [] then 0 else Added(defs[..|defs| - 1]) + |LongName(defs[|defs| - 1].name)|
  }

  lemma {:induction false} AddedLength(defs: seq<Def>, strsize: nat, n: nat, records: seq<Bytes>, strings: seq<Bytes>)
    requires AllValid(defs) && n <= |defs| && Built(defs, strsize, n, records, strings)
    ensures |Flat(strings, n)| == Added(defs[..n])
  {
    if n > 0 {
      AddedLength(defs, strsize, n - 1, records[..n - 1], strings[..n - 1]);
      FlatSame(strings[..n - 1], strings, n - 1);
      assert defs[..n][..n - 1] == defs[..n - 1];
    }
  }

  /** Old record `i` has its bytes and, if its name ends inside the string table, reads the same name. */
  ghost predicate OldRead(d: Bytes, stroff: nat, size: nat, d': Bytes, stroff': nat, symoff: nat, i: nat) {
    var o := symoff + 18 * i;
    && o + 18 <= |d| && o + 18 <= |d'| && d'[o..o + 18] == d[o..o + 18]
    && ((Read32(d, o) == 0 ==> WellTerminated(d, stroff, size, Read32(d, o + 4))) ==>
         SymName(d', stroff', o) == SymName(d, stroff, o))
  }

  /** Both sizes are right, every old record reads as before, every new one as it was meant. */
  ghost predicate AllRead(d: Bytes, symoff: nat, nsym: nat, stroff: nat, size: nat, defs: seq<Def>,
                          d': Bytes, stroff': nat, count': int, size': int) {
    && stroff' == stroff + 18 * |defs| && count' == nsym + |defs| && size' == size + Added(defs)
    && |d'| == |d| + 18 * |defs| + Added(defs) && Sized(d', stroff', count', size')
    && (forall i | 0 <= i < nsym :: OldRead(d, stroff, size, d', stroff', symoff, i))
    && (forall i | 0 <= i < |defs| :: NewRead(d', stroff', stroff + 18 * i, defs[i]))
  }

  /** The new symbols appended to the object: old records read as before, new ones as they were meant. */
  method AppendDefs(data: Bytes, layout: Layout, defs: seq<Def>)
    returns (data': Bytes, ghost stroff': nat, ghost count': nat, ghost size': nat)
    requires HasStrings(data, layout) && AllValid(defs)
    ensures defs == [] ==> data' == data
    ensures |data| <= |data'| && (defs != [] ==> Sized(data', stroff', count', size'))
    ensures count' == Wrap(layout.nsym + |defs|) && size' == Wrap(Read32(data, layout.Stroff()) + Added(defs))
    ensures defs != [] && SizesFit(layout, Read32(data, layout.Stroff()), defs) ==>
              var stroff := layout.Stroff();
              AllRead(data, layout.symoff, layout.nsym, stroff, Read32(data, stroff), defs, data', stroff', count',
                      size')
  {
    var newRecords, newStrings;
    ghost var records, strings;
    ghost var stroff := layout.Stroff();
    ghost var size := Read32(data, stroff);
    newRecords, newStrings, records, strings := BuildRecords(defs, Read32(data, layout.Stroff()));
    stroff', count', size' := SizesOf(layout, size, defs, records, strings, newRecords, newStrings);
    data' := Append(data, layout, newRecords, newStrings, stroff', count', size');
    if defs != [] && SizesFit(layout, size, defs) {
      AppendedAllRead(data, layout.symoff, layout.nsym, stroff, size, defs, records, strings, newRecords, newStrings,
                      data', stroff', count', size');
    }
  }

  lemma AppendedAllRead(d: Bytes, symoff: nat, nsym: nat, stroff: nat, size: nat, defs: seq<Def>, records: seq<Bytes>,
                        strings: seq<Bytes>,
                        newRecords: Bytes, newStrings: Bytes, d': Bytes, stroff': nat, count': int, size': int)
    requires 16 <= symoff && stroff == symoff + 18 * nsym && size + Added(defs) < 0x1_0000_0000
    requires AllValid(defs) && Built(defs, size, |defs|, records, strings)
    requires newRecords == Flat(records, |defs|) && newStrings == Flat(strings, |defs|)
    requires count' == nsym + |defs| && size' == size + Added(defs)
    requires Appended(d, stroff, size, newRecords, newStrings, d', stroff', count', size')
    ensures AllRead(d, symoff, nsym, stroff, size, defs, d', stroff', count', size')
  {
    BuiltLength(defs, size, |defs|, records, strings, |defs|);
    AddedAll(defs, size, records, strings);
    forall i | 0 <= i < nsym {
      OldReads(d, symoff, stroff, size, newRecords, newStrings, d', stroff', i);
    }
    forall i | 0 <= i < |defs| {
      NewRecordReads(d, stroff, size, defs, records, strings, d', i, stroff + 18 * i, stroff');
    }
  }

  /** The new sizes fit the 32 bits they are written in. */
  predicate SizesFit(layout: Layout, size: nat, defs: seq<Def>) {
    size + Added(defs) < 0x1_0000_0000 && layout.nsym + |defs| < 0x1_0000_0000
  }

  /** What the new sizes are: they wrap unless they fit. */
  lemma SizesOf(layout: Layout, size: nat, defs: seq<Def>, records: seq<Bytes>, strings: seq<Bytes>,
                newRecords: Bytes, newStrings: Bytes) returns (stroff': nat, count': nat, size': nat)
    requires AllValid(defs) && Built(defs, size, |defs|, records, strings)
    requires newRecords == Flat(records, |defs|) && newStrings == Flat(strings, |defs|)
    ensures stroff' == layout.Stroff() + 18 * |defs| == layout.Stroff() + |newRecords|
    ensures count' == Wrap(layout.nsym + |defs|) && size' == Wrap(size + Added(defs))
    ensures NewSizes(layout, size, newRecords, newStrings, stroff', count', size')
    ensures SizesFit(layout, size, defs) ==> count' == layout.nsym + |defs| && size' == size + Added(defs)
  {
    BuiltLength(defs, size, |defs|, records, strings, |defs|);
    AddedAll(defs, size, records, strings);
    stroff' := layout.Stroff() + 18 * |defs|;
    count', size' := WrapSizes(layout.nsym, size, |defs|, Added(defs), |newRecords|, |newStrings|);
  }

  lemma WrapSizes(nsym: nat, size: nat, count: nat, added: nat, nrecords: nat, nstrings: nat) returns (count': nat,
      size': nat)
    requires nrecords == 18 * count && nstrings == added
    ensures count' == Wrap(nsym + nrecords / 18) == Wrap(nsym + count)
            && size' == Wrap(size + nstrings) == Wrap(size + added)
    ensures nsym + count < 0x1_0000_0000 ==> count' == nsym + count
    ensures size + added < 0x1_0000_0000 ==> size' == size + added
  {
    assert nrecords / 18 == count;
    count', size' := Wrap(nsym + count), Wrap(size + added);
  }

  lemma OldReads(d: Bytes, symoff: nat, stroff: nat, size: nat, newRecords: Bytes, newStrings: Bytes, d': Bytes,
                 stroff': nat, i: nat)
    requires Spliced(d, stroff, size, newRecords, newStrings, d') && stroff' == stroff + |newRecords| && 16 <= symoff
             && symoff + 18 * i + 18 <= stroff
    ensures OldRead(d, stroff, size, d', stroff', symoff, i)
  {
    var o := symoff + 18 * i;
    OldBytes(d, stroff, size, newRecords, newStrings, d', o, o + 18);
    if Read32(d, o) == 0 ==> WellTerminated(d, stroff, size, Read32(d, o + 4)) {
      OldRecordReads(d, stroff, size, newRecords, newStrings, d', o, stroff');
    }
  }
}
