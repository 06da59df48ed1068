/** `AddressRanges` of src/obj/addresses.rs: ranges kept sorted by start, with one entry per start. */
module AddressIntervals {
  import opened Wrappers
  import opened OrderedKeys
  import opened Spans

  datatype SectionAddress = SectionAddress(section: nat, address: int)

  datatype Entry = Entry(start: SectionAddress, end: int)

  /** The order `SectionAddress` derives: by section, then by address. */
  predicate Less(a: SectionAddress, b: SectionAddress) {
    a.section < b.section || (a.section == b.section && a.address < b.address)
  }

  ghost predicate Sorted(entries: seq<Entry>) {
    forall i, j | 0 <= i < j < |entries| :: Less(entries[i].start, entries[j].start)
  }

  /** Where `binary_search_by_key` finds the key, or where it belongs. */
  function Position(entries: seq<Entry>, key: SectionAddress): (pos: nat)
    ensures pos <= |entries|
    ensures forall i | 0 <= i < pos :: Less(entries[i].start, key)
    ensures pos < |entries| ==> !Less(entries[pos].start, key)
  {
    if entries == [] || !Less(entries[0].start, key) then 0 else 1 + Position(entries[1..], key)
  }

  /** The greatest end inserted with a start, and whether there is one. */
  function MaxEnd(inserted: seq<Entry>, start: SectionAddress): Option<int> {
    if inserted == [] then None else
      var before, last := MaxEnd(inserted[..|inserted| - 1], start), inserted[|inserted| - 1];
      if last.start != start then before
      else if before.Some? && last.end < before.value then before else Some(last.end)
  }

  /** One entry for each start inserted, with the greatest end inserted for it. */
  ghost predicate Represents(entries: seq<Entry>, inserted: seq<Entry>) {
    && Sorted(entries)
    && (forall i | 0 <= i < |entries| :: MaxEnd(inserted, entries[i].start) == Some(entries[i].end))
    && (forall start :: MaxEnd(inserted, start).Some? ==> exists i :: 0 <= i < |entries| && entries[i].start == start)
  }

  lemma MaxEndNext(inserted: seq<Entry>, entry: Entry, start: SectionAddress)
    ensures MaxEnd(inserted + [entry], start) ==
            if entry.start != start then MaxEnd(inserted, start)
            else if MaxEnd(inserted, start).Some? && entry.end < MaxEnd(inserted, start).value
                then MaxEnd(inserted, start) else Some(entry.end)
  {
    assert (inserted + [entry])[..|inserted|] == inserted;
  }

  /** Every end inserted is bounded by the greatest, which is one of them. */
  lemma {:induction false} MaxEndIs(inserted: seq<Entry>, start: SectionAddress)
    ensures MaxEnd(inserted, start).None? <==> forall e | e in inserted :: e.start != start
    ensures MaxEnd(inserted, start).Some? ==> Entry(start, MaxEnd(inserted, start).value) in inserted
    ensures MaxEnd(inserted, start).Some? ==>
              forall e | e in inserted && e.start == start :: e.end <= MaxEnd(inserted, start).value
  {
    if inserted != [] {
      var front, last := inserted[..|inserted| - 1], inserted[|inserted| - 1];
      assert inserted == front + [last];
      MaxEndIs(front, start);
    }
  }

  lemma Grows(entries: seq<Entry>, inserted: seq<Entry>, pos: nat, start: SectionAddress, end: int)
    requires Represents(entries, inserted) && pos == Position(entries, start)
    requires pos < |entries| && entries[pos].start == start
    ensures Represents(entries[pos := Entry(start, if end < entries[pos].end then entries[pos].end else end)],
                       inserted + [Entry(start, end)])
  {
    var entries' := entries[pos := Entry(start, if end < entries[pos].end then entries[pos].end else end)];
    forall key ensures MaxEnd(inserted + [Entry(start, end)], key) ==
            if start != key then MaxEnd(inserted, key)
            else if MaxEnd(inserted, key).Some? && end < MaxEnd(inserted, key).value then MaxEnd(inserted, key)
                else Some(end) {
      MaxEndNext(inserted, Entry(start, end), key);
    }
    forall key | MaxEnd(inserted + [Entry(start, end)], key).Some?
      ensures exists i :: 0 <= i < |entries'| && entries'[i].start == key {
      if key == start {
        assert entries'[pos].start == key;
      } else {
        var i :| 0 <= i < |entries| && entries[i].start == key;
        assert entries'[i].start == key;
      }
    }
  }

  lemma Inserts(entries: seq<Entry>, inserted: seq<Entry>, pos: nat, start: SectionAddress, end: int)
    requires Represents(entries, inserted) && pos == Position(entries, start)
    requires pos < |entries| ==> entries[pos].start != start
    ensures Represents(entries[..pos] + [Entry(start, end)] + entries[pos..], inserted + [Entry(start, end)])
  {
    var entries', inserted' := entries[..pos] + [Entry(start, end)] + entries[pos..], inserted + [Entry(start, end)];
    NotThere(entries, pos, start);
    assert MaxEnd(inserted, start).None?;
    SortedAfter(entries, pos, Entry(start, end));
    forall i | 0 <= i < |entries'| ensures MaxEnd(inserted', entries'[i].start) == Some(entries'[i].end) {
      MaxEndNext(inserted, Entry(start, end), entries'[i].start);
      assert i > pos ==> entries'[i] == entries[i - 1];
    }
    forall key | MaxEnd(inserted', key).Some? ensures exists i :: 0 <= i < |entries'| && entries'[i].start == key {
      MaxEndNext(inserted, Entry(start, end), key);
      KeyThere(entries, pos, Entry(start, end), key);
    }
  }

  lemma KeyThere(entries: seq<Entry>, pos: nat, entry: Entry, key: SectionAddress)
    requires pos <= |entries| && (key == entry.start || exists i :: 0 <= i < |entries| && entries[i].start == key)
    ensures exists i :: 0 <= i <= |entries| && (entries[..pos] + [entry] + entries[pos..])[i].start == key
  {
    var entries' := entries[..pos] + [entry] + entries[pos..];
    if key == entry.start {
      assert entries'[pos].start == key;
    } else {
      var i :| 0 <= i < |entries| && entries[i].start == key;
      assert entries'[if i < pos then i else i + 1] == entries[i];
    }
  }

  lemma NotThere(entries: seq<Entry>, pos: nat, start: SectionAddress)
    requires Sorted(entries) && pos == Position(entries, start) && (pos < |entries| ==> entries[pos].start != start)
    ensures forall i | 0 <= i < |entries| :: entries[i].start != start && (i >= pos ==> Less(start, entries[i].start))
  {
    forall i | pos < i < |entries| ensures Less(start, entries[i].start) {
      assert Less(entries[pos].start, entries[i].start);
    }
  }

  lemma SortedAfter(entries: seq<Entry>, pos: nat, entry: Entry)
    requires Sorted(entries) && pos <= |entries|
    requires forall i | 0 <= i < pos :: Less(entries[i].start, entry.start)
    requires forall i | pos <= i < |entries| :: Less(entry.start, entries[i].start)
    ensures Sorted(entries[..pos] + [entry] + entries[pos..])
  {
  }

  /** The spans of one section. */
  ghost function InSection(entries: seq<Entry>, section: nat): map<int, int> {
    if entries == [] then map[] else
      var last := entries[|entries| - 1];
      var before := InSection(entries[..|entries| - 1], section);
      if last.start.section == section then before[last.start.address := last.end] else before
  }

  lemma {:induction false} InSectionIs(entries: seq<Entry>, section: nat)
    requires Sorted(entries)
    ensures forall a :: a in InSection(entries, section) <==>
                            exists i :: 0 <= i < |entries| && entries[i].start == SectionAddress(section, a)
    ensures forall i | 0 <= i < |entries| && entries[i].start.section == section ::
              entries[i].start.address in InSection(entries, section) &&
              InSection(entries, section)[entries[i].start.address] == entries[i].end
  {
    if entries != [] {
      var n := |entries| - 1;
      InSectionIs(entries[..n], section);
      forall a ensures a in InSection(entries, section) <==>
                       exists i :: 0 <= i < |entries| && entries[i].start == SectionAddress(section, a) {
        if a in InSection(entries[..n], section) {
          var i :| 0 <= i < n && entries[..n][i].start == SectionAddress(section, a);
          assert entries[i].start == SectionAddress(section, a);
        }
        if i :| 0 <= i < |entries| && entries[i].start == SectionAddress(section, a) {
          assert i < n ==> entries[..n][i].start == SectionAddress(section, a);
        }
      }
    }
  }

  class AddressRanges {
    var inner: seq<Entry>
    /** Every range inserted, in order. */
    ghost var inserted: seq<Entry>

    constructor ()
      ensures Valid() && inserted == []
    {
      inner, inserted := [], [];
    }

    ghost predicate Valid()
      reads this
    {
      Represents(inner, inserted)
    }

    method Insert(start: SectionAddress, end: int)
      requires Valid()
      modifies this
      ensures Valid() && inserted == old(inserted) + [Entry(start, end)]
    {
      var pos := Position(inner, start);
      if pos < |inner| && inner[pos].start == start {
        Grows(inner, inserted, pos, start, end);
        inner := inner[pos := Entry(start, if end < inner[pos].end then inner[pos].end else end)];
      } else {
        Inserts(inner, inserted, pos, start, end);
        inner := inner[..pos] + [Entry(start, end)] + inner[pos..];
      }
      inserted := inserted + [Entry(start, end)];
    }

    /** True of a start, and of an address inside the entry with the greatest start below it. */
    function Contains(address: SectionAddress): (r: bool)
      requires Valid()
      reads this
    {
      var pos := Position(inner, address);
      if pos < |inner| && inner[pos].start == address then true
      else if pos == 0 then false
      else
        var Entry(start, end) := inner[pos - 1];
        start.section == address.section && address.address >= start.address && address.address < end
    }

    /** In terms of the spans of the address's section alone. */
    lemma ContainsIff(address: SectionAddress)
      requires Valid()
      ensures var spans := InSection(inner, address.section);
              Contains(address) <==> address.address in spans || WithinSpan(spans, address.address)
    {
      var spans, pos := InSection(inner, address.section), Position(inner, address);
      InSectionIs(inner, address.section);
      if !(pos < |inner| && inner[pos].start == address) {
        var floor := Floor(spans.Keys, address.address);
        if floor.Some? {
          var i :| 0 <= i < |inner| && inner[i].start == SectionAddress(address.section, floor.value);
          assert pos < |inner| && pos <= i ==> pos == i || Less(inner[pos].start, inner[i].start);
          assert i < pos - 1 ==> Less(inner[i].start, inner[pos - 1].start);
        }
      }
    }

    /** Membership in the union of what was inserted, when no range is empty and the section's spans are a staircase. */
    lemma ContainsUnion(address: SectionAddress)
      requires Valid() && forall e | e in inserted :: e.start.address < e.end
      requires Staircase(InSection(inner, address.section))
      ensures Contains(address) <==>
              exists e :: e in inserted && e.start.section == address.section
                  && e.start.address <= address.address < e.end
    {
      var spans := InSection(inner, address.section);
      ContainsIff(address);
      PredecessorDecides(spans);
      assert WithinSpan(spans, address.address) <==> InUnion(spans, address.address);
      SpansInserted(address.section);
    }

    /** The same for ranges that do not overlap. */
    lemma ContainsDisjoint(address: SectionAddress)
      requires Valid() && forall e | e in inserted :: e.start.address < e.end
      requires forall e, f | e in inserted && f in inserted && e.start.section == f.start.section == address.section &&
                             e.start.address < f.start.address :: e.end <= f.start.address
      ensures Contains(address) <==>
              exists e :: e in inserted && e.start.section == address.section
                  && e.start.address <= address.address < e.end
    {
      SpansInserted(address.section);
      ApartDecides(InSection(inner, address.section));
      ContainsUnion(address);
    }

    /** A section's spans are inserted ranges, and every range inserted is inside one. */
    lemma SpansInserted(section: nat)
      requires Valid()
      ensures var spans := InSection(inner, section);
              && (forall start | start in spans :: Entry(SectionAddress(section, start), spans[start]) in inserted)
              && (forall e | e in inserted && e.start.section == section ::
                    e.start.address in spans && e.end <= spans[e.start.address])
    {
      var spans := InSection(inner, section);
      InSectionIs(inner, section);
      forall start | start in spans ensures Entry(SectionAddress(section, start), spans[start]) in inserted {
        var i :| 0 <= i < |inner| && inner[i].start == SectionAddress(section, start);
        MaxEndIs(inserted, inner[i].start);
      }
      forall e | e in inserted && e.start.section == section
        ensures e.start.address in spans && e.end <= spans[e.start.address]
      {
        MaxEndIs(inserted, e.start);
        var i :| 0 <= i < |inner| && inner[i].start == e.start;
      }
    }
  }
}
