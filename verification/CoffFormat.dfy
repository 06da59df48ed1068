/**
 * The parts of a COFF object that src/cmd/coff.rs reads and patches: the file header, section headers
 * and symbol records of the Microsoft PE/COFF specification (sections 3.3, 4, 5.4 and 5.6).
 */
module CoffFormat {
  import opened Wrappers
  import opened Words
  import opened Endian

  function Read16(d: Bytes, o: nat): (v: nat)
    requires o + 2 <= |d|
    ensures v < 0x1_0000
  {
    Limits(); ValueBelow(d[o..o + 2], 2);
    Value(d[o..o + 2])
  }

  /** `i16::from_le_bytes` */
  function ReadSigned16(d: Bytes, o: nat): int
    requires o + 2 <= |d|
  {
    if Read16(d, o) < 0x8000 then Read16(d, o) else Read16(d, o) - 0x1_0000
  }

  function Read32(d: Bytes, o: nat): (v: Word)
    requires o + 4 <= |d|
  {
    Limits(); ValueBelow(d[o..o + 4], 4);
    Value(d[o..o + 4])
  }

  /** `to_le_bytes` of a 16-bit value, signed or not, and of a 32-bit one. */
  function Write16(v: int): (bytes: Bytes)
    requires -0x8000 <= v < 0x1_0000
    ensures |bytes| == 2
  {
    Lowest(if v < 0 then v + 0x1_0000 else v, 2)
  }

  function Write32(v: Word): (bytes: Bytes)
    ensures |bytes| == 4
  {
    Lowest(v, 4)
  }

  lemma Write16Reads(v: int)
    requires -0x8000 <= v < 0x1_0000
    ensures Value(Write16(v)) == if v < 0 then v + 0x1_0000 else v
  {
    Limits();
    LowestValue(if v < 0 then v + 0x1_0000 else v, 2);
  }

  lemma Write32Reads(v: Word)
    ensures Value(Write32(v)) == v
  {
    Limits();
    LowestValue(v, 4);
  }

  /** `data[o..o + n].copy_from_slice(bytes)` */
  function Put(d: Bytes, o: nat, bytes: Bytes): (r: Bytes)
    requires o + |bytes| <= |d|
    ensures |r| == |d|
    ensures forall k | 0 <= k < |d| :: r[k] == if o <= k < o + |bytes| then bytes[k - o] else d[k]
  {
    seq(|d|, k requires 0 <= k < |d| => if o <= k < o + |bytes| then bytes[k - o] else d[k])
  }

  /** The bytes before the first NUL. */
  function CString(s: Bytes): Bytes {
    if s == [] || s[0] == 0 then [] else [s[0]] + CString(s[1..])
  }

  lemma {:induction false} CStringMeans(s: Bytes)
    ensures var r := CString(s); r <= s && 0 !in r && (r == s || s[|r|] == 0)
  {
    if s != [] && s[0] != 0 {
      CStringMeans(s[1..]);
    }
  }

  lemma {:induction false} CStringIs(s: Bytes, r: Bytes)
    requires r <= s && 0 !in r && (r == s || s[|r|] == 0)
    ensures CString(s) == r
  {
    if r != [] {
      CStringIs(s[1..], r[1..]);
    }
  }

  /** `sym_name`: in the string table when the first four bytes are zero, else in the record itself. */
  function SymName(d: Bytes, stroff: nat, o: nat): Bytes
    requires o + 8 <= |d|
  {
    if Read32(d, o) == 0
    then (if stroff + Read32(d, o + 4) <= |d| then CString(d[stroff + Read32(d, o + 4)..]) else [])
    else CString(d[o..o + 8])
  }

  lemma SymNameHasNoNul(d: Bytes, stroff: nat, o: nat)
    requires o + 8 <= |d|
    ensures 0 !in SymName(d, stroff, o)
  {
    if Read32(d, o) == 0 {
      if stroff + Read32(d, o + 4) <= |d| {
        CStringMeans(d[stroff + Read32(d, o + 4)..]);
      }
    } else {
      CStringMeans(d[o..o + 8]);
    }
  }

  /** A symbol record as `fold` keeps it, with its offset. */
  datatype Rec = Rec(off: nat, name: Bytes, value: Word, section: int, storage: Byte, kind: int)

  function RecAt(d: Bytes, stroff: nat, o: nat): Rec
    requires o + 18 <= |d|
  {
    Rec(o, SymName(d, stroff, o), Read32(d, o + 8), ReadSigned16(d, o + 12), d[o + 16], Read16(d, o + 14))
  }

  lemma Read32Same(d: Bytes, d': Bytes, o: nat)
    requires o + 4 <= |d| == |d'| && forall k | o <= k < o + 4 :: d'[k] == d[k]
    ensures Read32(d', o) == Read32(d, o)
  {
    assert d'[o..o + 4] == d[o..o + 4];
  }

  lemma Read16Same(d: Bytes, d': Bytes, o: nat)
    requires o + 2 <= |d| == |d'| && d'[o] == d[o] && d'[o + 1] == d[o + 1]
    ensures Read16(d', o) == Read16(d, o)
  {
    assert d'[o..o + 2] == d[o..o + 2];
  }

  lemma Read32Put(d: Bytes, o: nat, bytes: Bytes)
    requires o + 4 <= |d| && |bytes| == 4
    ensures Read32(Put(d, o, bytes), o) == Value(bytes)
  {
    assert Put(d, o, bytes)[o..o + 4] == bytes;
  }

  lemma NameSame(d: Bytes, d': Bytes, stroff: nat, o: nat)
    requires |d| == |d'| && o + 8 <= stroff <= |d|
    requires forall k | o <= k < o + 8 || stroff <= k < |d| :: d'[k] == d[k]
    ensures SymName(d', stroff, o) == SymName(d, stroff, o)
  {
    assert d'[o..o + 8] == d[o..o + 8];
    Read32Same(d, d', o);
    Read32Same(d, d', o + 4);
    var so := stroff + Read32(d, o + 4);
    if so <= |d| {
      SuffixSame(d, d', so);
    }
  }

  lemma SuffixSame(d: Bytes, d': Bytes, p: nat)
    requires p <= |d| == |d'| && forall k | p <= k < |d| :: d'[k] == d[k]
    ensures d'[p..] == d[p..]
  {
  }

  /** The seven bytes of a record's value, section and storage class. */
  function Encoded(r: Rec): (bytes: Bytes)
    requires -0x8000 <= r.section < 0x8000
    ensures |bytes| == 7
  {
    Write32(r.value) + Write16(r.section) + [r.storage]
  }

  /** These seven bytes written over the record at an offset, or nothing. */
  datatype Patch = Patch(off: nat, bytes: Option<Bytes>) {
    predicate Valid() {
      bytes.Some? ==> |bytes.value| == 7
    }

    predicate Covers(k: int) {
      bytes.Some? && (off + 8 <= k < off + 14 || k == off + 16)
    }

    function At(k: int): Byte
      requires Valid() && Covers(k)
    {
      if k == off + 16 then bytes.value[6] else bytes.value[k - off - 8]
    }
  }

  /** Patches at records that do not overlap, in the symbol table. */
  ghost predicate Disjoint(patches: seq<Patch>, lo: int, hi: int) {
    && (forall i | 0 <= i < |patches| :: patches[i].Valid() && lo <= patches[i].off && patches[i].off + 18 <= hi)
    && (forall i, j | 0 <= i < j < |patches| :: patches[i].off + 18 <= patches[j].off)
  }

  /** Byte `k` once all the patches have been made in order. */
  ghost function ByteAfter(d: Bytes, patches: seq<Patch>, k: nat): Byte
    requires k < |d| && forall i | 0 <= i < |patches| :: patches[i].Valid()
  {
    if patches == [] then d[k] else
      var last := patches[|patches| - 1];
      if last.Covers(k) then last.At(k) else ByteAfter(d, patches[..|patches| - 1], k)
  }

  lemma {:induction false} ByteUntouched(d: Bytes, patches: seq<Patch>, k: nat)
    requires k < |d| && forall i | 0 <= i < |patches| :: patches[i].Valid() && !patches[i].Covers(k)
    ensures ByteAfter(d, patches, k) == d[k]
  {
    if patches != [] {
      ByteUntouched(d, patches[..|patches| - 1], k);
    }
  }

  lemma {:induction false} ByteTouched(d: Bytes, patches: seq<Patch>, lo: int, hi: int, j: nat, k: nat)
    requires k < |d| && Disjoint(patches, lo, hi) && j < |patches| && patches[j].Covers(k)
    ensures ByteAfter(d, patches, k) == patches[j].At(k)
  {
    var last := |patches| - 1;
    if j < last {
      assert patches[j].off + 18 <= patches[last].off;
      ByteTouched(d, patches[..last], lo, hi, j, k);
    }
  }

  lemma ByteBeside(d: Bytes, patches: seq<Patch>, lo: int, hi: int, j: nat, k: nat)
    requires Disjoint(patches, lo, hi) && j < |patches| && k < |d|
    requires k < lo || hi <= k || (patches[j].off <= k < patches[j].off + 18 && !patches[j].Covers(k))
    ensures ByteAfter(d, patches, k) == d[k]
  {
    forall i | 0 <= i < |patches| ensures !patches[i].Covers(k) {
      if i < j {
        assert patches[i].off + 18 <= patches[j].off;
      } else if j < i {
        assert patches[j].off + 18 <= patches[i].off;
      }
    }
    ByteUntouched(d, patches, k);
  }

  lemma BytesTouched(d: Bytes, d': Bytes, patches: seq<Patch>, lo: int, hi: int, j: nat, off: nat, bytes: Bytes)
    requires Disjoint(patches, lo, hi) && j < |patches| && patches[j] == Patch(off, Some(bytes)) && hi <= |d| == |d'|
    requires forall k | 0 <= k < |d| :: d'[k] == ByteAfter(d, patches, k)
    ensures |bytes| == 7 && d'[off + 16] == bytes[6] && forall i | 0 <= i < 6 :: d'[off + 8 + i] == bytes[i]
  {
    ByteTouched(d, patches, lo, hi, j, off + 16);
    forall i | 0 <= i < 6 ensures d'[off + 8 + i] == bytes[i] {
      ByteTouched(d, patches, lo, hi, j, off + 8 + i);
    }
  }

  /** What a record's bytes say of it, its name aside. */
  predicate FieldsRead(d: Bytes, r: Rec) {
    && r.off + 18 <= |d|
    && Read32(d, r.off + 8) == r.value && ReadSigned16(d, r.off + 12) == r.section
    && d[r.off + 16] == r.storage && Read16(d, r.off + 14) == r.kind
  }

  lemma EncodedReadBack(d: Bytes, r: Rec, bytes: Bytes)
    requires r.off + 18 <= |d| && -0x8000 <= r.section < 0x8000 && Read16(d, r.off + 14) == r.kind
             && bytes == Encoded(r)
    requires forall i | 0 <= i < 6 :: d[r.off + 8 + i] == bytes[i]
    requires d[r.off + 16] == bytes[6]
    ensures FieldsRead(d, r)
  {
    Write32Reads(r.value);
    Write16Reads(r.section);
    var o := r.off;
    assert d[o + 8..o + 12] == Write32(r.value) by {
      forall i | 0 <= i < 4 ensures d[o + 8..o + 12][i] == Write32(r.value)[i] {
        assert d[o + 8..o + 12][i] == d[o + 8 + i] && bytes[i] == Write32(r.value)[i];
      }
    }
    assert d[o + 12..o + 14] == Write16(r.section) by {
      assert d[o + 8 + 4] == bytes[4] && d[o + 8 + 5] == bytes[5];
    }
  }

  /** A section's header is 40 bytes, its characteristics the last four. */
  function CharsAt(sec: nat): nat
    requires sec >= 1
  {
    20 + (sec - 1) * 40 + 36
  }

  function SectionChars(d: Bytes, sec: nat): Word
    requires sec >= 1 && CharsAt(sec) + 4 <= |d|
  {
    Read32(d, CharsAt(sec))
  }

  /** The bytes of the object and where its tables lie. */
  datatype Layout = Layout(nsec: nat, symoff: nat, nsym: nat) {
    function Stroff(): nat {
      symoff + 18 * nsym
    }

    /** The section headers come before the symbol table, and the string table follows it. */
    predicate Fits(d: Bytes) {
      20 + 40 * nsec <= symoff && Stroff() + 4 <= |d|
    }
  }

  /** From record `i` on, the auxiliary records stay inside the symbol table and the names inside the file. */
  predicate TableSound(d: Bytes, layout: Layout, i: nat)
    requires layout.Fits(d)
    decreases layout.nsym - i
  {
    i < layout.nsym ==>
      var o := layout.symoff + 18 * i;
      && NextIndex(d, layout, i) <= layout.nsym
      && (Read32(d, o) == 0 ==> layout.Stroff() + Read32(d, o + 4) <= |d|)
      && TableSound(d, layout, NextIndex(d, layout, i))
  }

  /** The next record after the one at `i` and its auxiliary records. */
  function NextIndex(d: Bytes, layout: Layout, i: nat): (next: nat)
    requires layout.Fits(d) && i < layout.nsym
    ensures next > i
  {
    i + 1 + d[layout.symoff + 18 * i + 17]
  }

  function RecordAt(d: Bytes, layout: Layout, i: nat): (r: Rec)
    requires layout.Fits(d) && i < layout.nsym
    ensures r.off == layout.symoff + 18 * i
  {
    RecAt(d, layout.Stroff(), layout.symoff + 18 * i)
  }

  /** The symbol records from `i` on, without their auxiliary records. */
  function RecordsFrom(d: Bytes, layout: Layout, i: nat): seq<Rec>
    requires layout.Fits(d)
    decreases layout.nsym - i
  {
    if i >= layout.nsym then [] else [RecordAt(d, layout, i)] + RecordsFrom(d, layout, NextIndex(d, layout, i))
  }

  /** Records in file order, none overlapping another, between two offsets. */
  ghost predicate Spaced(recs: seq<Rec>, lo: int, hi: int) {
    && (forall i | 0 <= i < |recs| :: lo <= recs[i].off && recs[i].off + 18 <= hi)
    && (forall i, j | 0 <= i < j < |recs| :: recs[i].off + 18 <= recs[j].off)
  }

  ghost predicate ReadsAs(d: Bytes, stroff: nat, recs: seq<Rec>) {
    recs != [] ==> recs[0].off + 18 <= |d| && RecAt(d, stroff, recs[0].off) == recs[0] && ReadsAs(d, stroff, recs[1..])
  }

  lemma {:induction false} ReadsAsAt(d: Bytes, stroff: nat, recs: seq<Rec>, i: nat)
    requires ReadsAs(d, stroff, recs) && i < |recs|
    ensures recs[i].off + 18 <= |d| && RecAt(d, stroff, recs[i].off) == recs[i]
  {
    if i > 0 {
      ReadsAsAt(d, stroff, recs[1..], i - 1);
    }
  }

  lemma {:induction false} SectionsInRange(d: Bytes, stroff: nat, recs: seq<Rec>)
    requires ReadsAs(d, stroff, recs)
    ensures forall i | 0 <= i < |recs| :: -0x8000 <= recs[i].section < 0x8000
  {
    forall i | 0 <= i < |recs| ensures -0x8000 <= recs[i].section < 0x8000 {
      ReadsAsAt(d, stroff, recs, i);
    }
  }

  lemma SpacedCons(r: Rec, rest: seq<Rec>, lo: int, next: int, hi: int)
    requires Spaced(rest, next, hi) && lo <= r.off && r.off + 18 <= next && r.off + 18 <= hi
    ensures Spaced([r] + rest, lo, hi)
  {
  }

  lemma ReadsAsCons(d: Bytes, stroff: nat, r: Rec, rest: seq<Rec>)
    requires ReadsAs(d, stroff, rest) && r.off + 18 <= |d| && RecAt(d, stroff, r.off) == r
    ensures ReadsAs(d, stroff, [r] + rest)
  {
    assert ([r] + rest)[1..] == rest;
  }

  lemma {:induction false} RecordsSpaced(d: Bytes, layout: Layout, i: nat, recs: seq<Rec>)
    requires layout.Fits(d) && recs == RecordsFrom(d, layout, i)
    ensures Spaced(recs, layout.symoff + 18 * i, layout.Stroff()) && ReadsAs(d, layout.Stroff(), recs)
    decreases layout.nsym - i
  {
    if i < layout.nsym {
      var r, next := RecordAt(d, layout, i), NextIndex(d, layout, i);
      var rest := RecordsFrom(d, layout, next);
      RecordsSpaced(d, layout, next, rest);
      SpacedCons(r, rest, layout.symoff + 18 * i, layout.symoff + 18 * next, layout.Stroff());
      ReadsAsCons(d, layout.Stroff(), r, rest);
    }
  }
}
