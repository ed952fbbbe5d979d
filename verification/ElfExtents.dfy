/** The list of extents of an ELF object and the computation of all of them
    (_libelf_extent_is_unused, _libelf_insert_extent, _libelf_resync_sections and _libelf_resync_elf,
    src/libelf/elf_update.c). */
module ElfExtents {
  import opened Arith
  import opened ElfLayout

  datatype Kind = Header | ProgramHeaders | SectionData(index: nat) | SectionHeaders

  datatype Extent = Extent(start: nat, size: nat, kind: Kind)

  function End(e: Extent): nat { e.start + e.size }

  /** In order of their offsets, not empty, and disjoint. */
  predicate Ascending(x: seq<Extent>) {
    && (forall i :: 0 <= i < |x| ==> x[i].size > 0)
    && forall i, j :: 0 <= i < j < |x| ==> End(x[i]) <= x[j].start
  }

  predicate Overlap(e: Extent, start: nat, size: nat) { e.start < start + size && start < End(e) }

  /** Where the last extent ends. */
  function EndOf(x: seq<Extent>): nat { if x == [] then 0 else End(x[|x| - 1]) }

  class Object {
    const version: nat
    const headerSize: nat
    const phCount: nat
    const phSize: nat
    const phAlign: nat
    const shSize: nat
    const shAlign: nat
    const sections: array<Section>
    var extents: seq<Extent>
    var phOffset: nat
    var shOffset: nat

    ghost predicate Valid()
      reads this, sections
    {
      && headerSize > 0 && phSize > 0 && phAlign > 0 && shSize > 0 && shAlign > 0
      && forall i :: 0 <= i < sections.Length ==> ValidSection(sections[i])
    }

    constructor (version: nat, headerSize: nat, phCount: nat, phSize: nat, phAlign: nat, shSize: nat, shAlign: nat,
                 sections: array<Section>)
      requires headerSize > 0 && phSize > 0 && phAlign > 0 && shSize > 0 && shAlign > 0
      requires forall i :: 0 <= i < sections.Length ==> ValidSection(sections[i])
      ensures Valid() && extents == [] && this.sections == sections
      ensures this.version == version && this.headerSize == headerSize && this.phCount == phCount
      ensures this.phSize == phSize && this.phAlign == phAlign && this.shSize == shSize && this.shAlign == shAlign
    {
      this.version, this.headerSize, this.phCount, this.phSize, this.phAlign := version, headerSize, phCount, phSize,
          phAlign;
      this.shSize, this.shAlign, this.sections := shSize, shAlign, sections;
      extents, phOffset, shOffset := [], 0, 0;
    }

    /** Whether no extent overlaps a stretch, and how many lie before it. */
    method ExtentIsUnused(start: nat, size: nat) returns (unused: bool, before: nat)
      requires Ascending(extents)
      ensures unused <==> forall i :: 0 <= i < |extents| ==> !Overlap(extents[i], start, size)
      ensures unused ==>
                && before <= |extents| && (forall i :: 0 <= i < before ==> End(extents[i]) <= start)
                && forall i :: before <= i < |extents| ==> start + size <= extents[i].start
    {
      before := 0;
      while before < |extents|
        invariant before <= |extents| && forall i :: 0 <= i < before ==> End(extents[i]) <= start
      {
        var t := extents[before];
        if t.start + t.size <= start {
          before := before + 1;
        } else if start + size <= t.start {
          assert before == 0 || End(extents[before - 1]) <= start;
          break;
        } else {
          return false, before;
        }
      }
      unused := true;
    }

    /** Puts an extent into its place. It is refused exactly if it overlaps another. */
    method InsertExtent(e: Extent) returns (ok: bool)
      requires Ascending(extents) && e.size > 0
      modifies this`extents
      ensures ok <==> forall i :: 0 <= i < |old(extents)| ==> !Overlap(old(extents)[i], e.start, e.size)
      ensures !ok ==> extents == old(extents)
      ensures ok ==>
                Ascending(extents) && exists k ::
                  0 <= k <= |old(extents)| && extents == old(extents)[..k] + [e] + old(extents)[k..]
      ensures EndOf(old(extents)) <= e.start ==> ok && extents == old(extents) + [e]
    {
      var before;
      ok, before := ExtentIsUnused(e.start, e.size);
      if EndOf(extents) <= e.start { NothingBehind(extents, e, ok, before); }
      if ok {
        Inserted(extents, e, before);
        extents := extents[..before] + [e] + extents[before..];
      }
    }

    /** The header at the start, then the program headers at the next aligned place. */
    method ResyncHeaders() returns (rc: nat)
      requires Valid() && extents == []
      modifies this`extents, this`phOffset
      ensures extents == Front() && phOffset == (if phCount > 0 then RoundUp(headerSize, phAlign) else 0)
      ensures rc == EndOf(extents) && Ascending(extents)
    {
      hide RoundUp, Overlap;
      var ok := InsertExtent(Extent(0, headerSize, Header));
      rc := headerSize;
      phOffset := 0;
      if phCount > 0 {
        RoundUpLeast(rc, phAlign);
        phOffset := RoundUp(rc, phAlign);
        MulMonotone(1, phCount, phSize);
        rc := phOffset + phCount * phSize;
        ok := InsertExtent(Extent(phOffset, phCount * phSize, ProgramHeaders));
      }
    }

    ghost function Front(): seq<Extent> {
      [Extent(0, headerSize, Header)]
      + if phCount > 0 then [Extent(RoundUp(headerSize, phAlign), phCount * phSize, ProgramHeaders)] else []
    }

    /** The sections, one behind the other. */
    method ResyncSections(rc: nat) returns (error: LayoutError, rc': nat)
      requires Valid() && Ascending(extents) && EndOf(extents) == rc && extents != []
      modifies this`extents, sections
      ensures error == NoError <==> AllFaultless(old(sections[..]), version, sections.Length)
      ensures error != LayoutConflict
      ensures error == NoError ==>
                && Valid() && Ascending(extents)
                   && EndOf(extents) == rc' == AfterSections(old(sections[..]), rc, sections.Length)
                && extents == old(extents) + SectionExtents(old(sections[..]), rc, sections.Length)
                && AllLaidOut(old(sections[..]), sections[..], rc, sections.Length)
    {
      hide SectionFault, FinalAlign, FinalSize, RoundUp, LaidOut, ValidSection;
      ghost var ss, front := sections[..], extents;
      error, rc' := NoError, rc;
      var i := 0;
      while i < sections.Length
        invariant i <= sections.Length && error == NoError && Valid() && AllFaultless(ss, version, i)
        invariant Ascending(extents) && extents != [] && EndOf(extents) == rc' == AfterSections(ss, rc, i)
        invariant extents == front + SectionExtents(ss, rc, i)
        invariant AllLaidOut(ss, sections[..], rc, i)
        invariant forall k :: i <= k < sections.Length ==> sections[k] == ss[k]
      {
        if sections[i].occupies {
          error, rc' := ResyncSection(i, rc');
          if error != NoError {
            return;
          }
        }
        i := i + 1;
      }
    }

    /** One section: its extent, if it is not empty, goes behind all others. */
    method ResyncSection(i: nat, rc: nat) returns (error: LayoutError, rc': nat)
      requires Valid() && i < sections.Length && sections[i].occupies
      requires Ascending(extents) && EndOf(extents) == rc && extents != []
      modifies this`extents, sections
      ensures error == SectionFault(old(sections[i]), version) != LayoutConflict
      ensures forall k :: 0 <= k < sections.Length && k != i ==> sections[k] == old(sections[k])
      ensures error == NoError ==>
                && Valid() && LaidOut(old(sections[i]), sections[i], rc) && Ascending(extents) && extents != []
                   && EndOf(extents) == rc'
                && var s := old(sections[i]);
                   if FinalSize(s) == 0 then extents == old(extents) && rc' == rc
                   else extents == old(extents) + [Extent(RoundUp(rc, FinalAlign(s)), FinalSize(s), SectionData(i))]
                        && rc' == RoundUp(rc, FinalAlign(s)) + FinalSize(s)
    {
      hide SectionFault, FinalAlign, FinalSize, RoundUp;
      var s;
      rc' := rc;
      error, s := ComputeSectionExtents(sections[i], version, rc);
      if error == NoError {
        LaidOutIsValid(sections[i], s, version, rc);
        sections[i] := s;
        if s.size > 0 {
          var ok := InsertExtent(Extent(s.offset, s.size, SectionData(i)));
          if !ok {
            error := LayoutConflict;
          } else if rc < s.offset + s.size {
            rc' := s.offset + s.size;
          }
        }
      }
    }

    /** The whole layout: the header, the program headers, the sections and the section headers. `size`
        is the size of the file. The only possible errors are those of the sections themselves. */
    method ResyncElf() returns (error: LayoutError, size: nat)
      requires Valid() && extents == []
      modifies this`extents, this`phOffset, this`shOffset, sections
      ensures error == NoError <==> AllFaultless(old(sections[..]), version, sections.Length)
      ensures error != LayoutConflict
      ensures error == NoError ==>
                && Valid() && Ascending(extents) && EndOf(extents) == size
                && AllLaidOut(old(sections[..]), sections[..], EndOf(Front()), sections.Length)
                && extents == Front() + SectionExtents(old(sections[..]), EndOf(Front()), sections.Length)
                   + Back(shOffset)
                && (sections.Length > 0 ==>
                     shOffset == RoundUp(AfterSections(old(sections[..]), EndOf(Front()), sections.Length), shAlign))
    {
      var rc := ResyncHeaders();
      error, size := ResyncSections(rc);
      if error != NoError {
        return;
      }
      shOffset := 0;
      if sections.Length > 0 {
        RoundUpLeast(size, shAlign);
        shOffset := RoundUp(size, shAlign);
        MulMonotone(1, sections.Length, shSize);
        if shOffset + sections.Length * shSize > size {
          size := shOffset + sections.Length * shSize;
        }
        var ok := InsertExtent(Extent(shOffset, sections.Length * shSize, SectionHeaders));
        if !ok {
          error := LayoutConflict;
        }
      }
    }

    ghost function Back(offset: nat): seq<Extent> {
      if sections.Length > 0 then [Extent(offset, sections.Length * shSize, SectionHeaders)] else []
    }
  }

  lemma NothingBehind(x: seq<Extent>, e: Extent, ok: bool, before: nat)
    requires Ascending(x) && e.size > 0 && EndOf(x) <= e.start
    requires ok <==> forall i :: 0 <= i < |x| ==> !Overlap(x[i], e.start, e.size)
    requires ok ==> before <= |x| && forall i :: before <= i < |x| ==> e.start + e.size <= x[i].start
    ensures ok && before == |x| && x[..before] + [e] + x[before..] == x + [e]
  {
    forall i | 0 <= i < |x| ensures End(x[i]) <= e.start {
      if i < |x| - 1 { assert End(x[i]) <= x[|x| - 1].start; }
    }
  }

  lemma Inserted(x: seq<Extent>, e: Extent, k: nat)
    requires Ascending(x) && e.size > 0 && k <= |x|
    requires (forall i :: 0 <= i < k ==> End(x[i]) <= e.start) && forall i :: k <= i < |x| ==> End(e) <= x[i].start
    ensures Ascending(x[..k] + [e] + x[k..])
  {
  }

  // ----- what the pass over the sections computes -----

  predicate AllFaultless(ss: seq<Section>, version: nat, n: nat)
    requires n <= |ss|
  {
    forall i :: 0 <= i < n && ss[i].occupies ==> SectionFault(ss[i], version) == NoError
  }

  predicate TakesSpace(s: Section) { s.occupies && FinalSize(s) > 0 }

  /** The end of the file after the first `i` sections. */
  function AfterSections(ss: seq<Section>, rc: nat, i: nat): nat
    requires i <= |ss|
  {
    if i == 0 then rc
    else if TakesSpace(ss[i - 1]) then
      RoundUp(AfterSections(ss, rc, i - 1), FinalAlign(ss[i - 1])) + FinalSize(ss[i - 1])
    else AfterSections(ss, rc, i - 1)
  }

  /** Their extents. */
  function SectionExtents(ss: seq<Section>, rc: nat, i: nat): seq<Extent>
    requires i <= |ss|
  {
    if i == 0 then []
    else if TakesSpace(ss[i - 1]) then
      SectionExtents(ss, rc, i - 1)
      + [Extent(RoundUp(AfterSections(ss, rc, i - 1), FinalAlign(ss[i - 1])), FinalSize(ss[i - 1]), SectionData(i - 1))]
    else SectionExtents(ss, rc, i - 1)
  }

  predicate AllLaidOut(ss: seq<Section>, ss': seq<Section>, rc: nat, n: nat)
    requires n <= |ss|
  {
    && |ss'| == |ss|
    && forall i :: 0 <= i < n ==>
         if ss[i].occupies then LaidOut(ss[i], ss'[i], AfterSections(ss, rc, i)) else ss'[i] == ss[i]
  }

  /** A laid out section is still well formed and does not start before `rc`. */
  lemma LaidOutIsValid(s: Section, s': Section, version: nat, rc: nat)
    requires ValidSection(s) && SectionFault(s, version) == NoError && LaidOut(s, s', rc)
    ensures ValidSection(s') && s'.offset >= rc && s'.size == FinalSize(s)
    ensures s'.offset % FinalAlign(s) == 0 && FinalAlign(s) > 0
  {
    RoundUpLeast(rc, FinalAlign(s));
    if s.content.Described? {
      forall i | 0 <= i < |s'.content.data|
        ensures ValidElem(s'.content.data[i].elem) && |s'.content.data[i].image| == FileLength(s'.content.data[i])
      {
        assert s'.content.data[i] == s.content.data[i].(off := OffsetOf(s.content.data, i));
      }
    }
  }
}
