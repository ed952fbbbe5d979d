/** What the layout of an object comes to, said by the offsets, sizes and alignments of its sections
    and descriptors (src/libelf/elf_update.c). */
module ElfPlacement {
  import opened Arith
  import opened ElfLayout
  import opened ElfExtents

  // ----- what is laid out -----

  function TwoTo(k: nat): nat { if k == 0 then 1 else 2 * TwoTo(k - 1) }

  ghost predicate SomeTwoTo(n: nat) { exists k: nat :: n == TwoTo(k) }

  lemma {:induction false} PowerOfTwoIff(n: nat)
    ensures PowerOfTwo(n) <==> SomeTwoTo(n)
    ensures PowerOfTwo(n) ==> n > 0
  {
    if PowerOfTwo(n) { IsTwoTo(n); }
    forall k: nat | n == TwoTo(k) ensures PowerOfTwo(n) { TwoToIsPower(k); }
  }

  lemma {:induction false} IsTwoTo(n: nat)
    requires PowerOfTwo(n)
    ensures n > 0 && exists k: nat :: n == TwoTo(k)
  {
    if n == 1 {
      assert n == TwoTo(0);
    } else {
      IsTwoTo(n / 2);
      var k: nat :| n / 2 == TwoTo(k);
      assert n == TwoTo(k + 1);
    }
  }

  lemma {:induction false} TwoToIsPower(k: nat)
    ensures TwoTo(k) > 0 && PowerOfTwo(TwoTo(k))
  {
    if k > 0 { TwoToIsPower(k - 1); }
  }

  /** A descriptor that can be laid out: a known type, the object's version, a power of two as its alignment, and
      whole elements. */
  ghost predicate Proper(d: Data, version: nat) {
    && d.known && d.version == version && SomeTwoTo(d.align)
    && d.elem.memSize > 0 && d.size % d.elem.memSize == 0
  }

  lemma ProperIff(d: Data, version: nat)
    ensures DataFault(d, version) == NoError <==> Proper(d, version)
    ensures DataFault(d, version) != NoError ==>
              DataFault(d, version) == if d.known && d.version != version then VersionError else DataError
  {
    PowerOfTwoIff(d.align);
  }

  /** A section is laid out exactly if its type is known and its descriptors, if they are what it has, are proper. */
  lemma FaultlessIff(s: Section, version: nat)
    ensures SectionFault(s, version) == NoError <==>
              s.known && (s.content.Described? ==>
                            forall i :: 0 <= i < |s.content.data| ==> Proper(s.content.data[i], version))
  {
    if s.content.Described? {
      NoFaultMeansSound(s.content.data, version, 0);
      forall i | 0 <= i < |s.content.data|
        ensures DataFault(s.content.data[i], version) == NoError <==> Proper(s.content.data[i], version)
      {
        ProperIff(s.content.data[i], version);
      }
    }
  }

  /** The fault reported is that of the first descriptor that is not proper. */
  lemma {:induction false} FaultIsFirst(data: seq<Data>, version: nat, n: nat)
    requires n < |data| && !Proper(data[n], version) && forall k :: 0 <= k < n ==> Proper(data[k], version)
    ensures FirstFault(data, version, 0)
            == if data[n].known && data[n].version != version then VersionError else DataError
  {
    FaultFrom(data, version, 0, n);
  }

  lemma {:induction false} FaultFrom(data: seq<Data>, version: nat, i: nat, n: nat)
    requires i <= n < |data| && !Proper(data[n], version) && forall k :: i <= k < n ==> Proper(data[k], version)
    ensures FirstFault(data, version, i)
            == if data[n].known && data[n].version != version then VersionError else DataError
    decreases n - i
  {
    ProperIff(data[i], version);
    if i < n { FaultFrom(data, version, i + 1, n); }
  }

  // ----- one section -----

  /** The alignment that the section's header asks for, or its type does if the header does not. */
  predicate Asked(s: Section, a: nat) { (s.align == 0 ==> a == s.elem.fileAlign) && (s.align != 0 ==> a == s.align) }

  /** A section starts at the next multiple of the largest of the alignment asked for and those of its descriptors. */
  lemma SectionPlace(s: Section, s': Section, version: nat, rc: nat, asked: nat)
    requires ValidElem(s.elem) && SectionFault(s, version) == NoError && LaidOut(s, s', rc) && Asked(s, asked)
    ensures s'.align > 0 && rc <= s'.offset < rc + s'.align && s'.offset % s'.align == 0
    ensures s.content.Raw? ==> s'.align == asked && s'.size == s.size && s'.entsize == s.entsize
    ensures s.content.Described? ==>
              && asked <= s'.align && (forall i :: 0 <= i < |s.content.data| ==> s.content.data[i].align <= s'.align)
              && (s'.align == asked
                  || exists i :: 0 <= i < |s.content.data| && s'.align == s.content.data[i].align)
              && s'.entsize == if s.entsize != 0 then s.entsize
                               else if s.elem.fileSize == 1 then 0
                               else s.elem.fileSize
  {
    RoundUpLeast(rc, FinalAlign(s));
    if s.content.Described? { LargestAlignIsOne(s.content.data, |s.content.data|); }
  }

  /** Where what lies before descriptor `i` ends in the section. */
  function EndBefore(data: seq<Data>, i: nat): nat
    requires i <= |data|
  {
    if i == 0 then 0
    else
      var d := data[i - 1];
      d.off + d.size / Max(d.elem.memSize, 1) * d.elem.fileSize
  }

  /** Each descriptor goes to the next multiple of its alignment behind the one before, and the section
      ends with the last. */
  lemma DescriptorPlace(s: Section, s': Section, version: nat, rc: nat, i: nat)
    requires ValidElem(s.elem) && SectionFault(s, version) == NoError && LaidOut(s, s', rc)
    requires s.content.Described? && i < |s.content.data|
    ensures s'.content.Described? && |s'.content.data| == |s.content.data|
    ensures var d' := s'.content.data;
            && d'[i] == s.content.data[i].(off := d'[i].off) && d'[i].align > 0 && d'[i].off % d'[i].align == 0
            && EndBefore(d', i) <= d'[i].off < EndBefore(d', i) + d'[i].align
            && s'.size == EndBefore(d', |d'|)
  {
    hide PowerOfTwo, RoundUp;
    var d, d' := s.content.data, s'.content.data;
    NoFaultMeansSound(d, version, 0);
    assert DataFault(d[i], version) == NoError;
    RoundUpLeast(SizeAfter(d, i), d[i].align);
    PlacedEnd(d, d', version, i);
    PlacedEnd(d, d', version, |d|);
  }

  lemma PlacedEnd(d: seq<Data>, d': seq<Data>, version: nat, i: nat)
    requires Placed(d, d') && Sound(d, version) && i <= |d|
    ensures EndBefore(d', i) == SizeAfter(d, i)
  {
    if i > 0 { assert DataFault(d[i - 1], version) == NoError; }
  }

  /** A section whose header asks for no alignment starts at a multiple of its type's, if that is a power of two. */
  lemma MissingAlign(s: Section, s': Section, version: nat, rc: nat)
    requires ValidElem(s.elem) && SectionFault(s, version) == NoError && LaidOut(s, s', rc)
    requires s.align == 0 && PowerOfTwo(s.elem.fileAlign)
    ensures s'.offset % s.elem.fileAlign == 0 && (s.content.Raw? ==> s'.align == s.elem.fileAlign)
  {
    hide PowerOfTwo, RoundUp;
    SectionPlace(s, s', version, rc, s.elem.fileAlign);
    if s.content.Described? && s'.align != s.elem.fileAlign {
      NoFaultMeansSound(s.content.data, version, 0);
      var i :| 0 <= i < |s.content.data| && s'.align == s.content.data[i].align;
      assert DataFault(s.content.data[i], version) == NoError;
      PowersDivide(s.elem.fileAlign, s'.align);
      DivisorOfMultiple(s'.offset, s'.align, s.elem.fileAlign);
    }
  }

  // ----- all sections -----

  predicate InFile(s: Section) { s.occupies && s.size > 0 }

  /** Behind section `i`, up to section `j`, nothing else is in the file. */
  predicate LastBefore(ss: seq<Section>, i: int, j: nat)
    requires j < |ss|
  {
    -1 <= i < j && (i >= 0 ==> InFile(ss[i])) && forall k :: i < k < j ==> !InFile(ss[k])
  }

  /** Each section starts at the first multiple of its alignment behind the section before, or behind what is before
      all sections. */
  lemma SectionsFollow(ss: seq<Section>, ss': seq<Section>, version: nat, rc: nat, i: int, j: nat)
    requires AllLaidOut(ss, ss', rc, |ss|) && j < |ss| && ss[j].occupies && LastBefore(ss', i, j)
    requires ValidElem(ss[j].elem) && SectionFault(ss[j], version) == NoError
    ensures var before := if i < 0 then rc else ss'[i].offset + ss'[i].size;
            ss'[j].align > 0 && before <= ss'[j].offset < before + ss'[j].align
            && ss'[j].offset % ss'[j].align == 0
  {
    hide RoundUp;
    EndBeforeSection(ss, ss', rc, i, j);
    var asked := if ss[j].align == 0 then ss[j].elem.fileAlign else ss[j].align;
    SectionPlace(ss[j], ss'[j], version, AfterSections(ss, rc, j), asked);
  }

  lemma {:induction false} EndBeforeSection(ss: seq<Section>, ss': seq<Section>, rc: nat, i: int, j: nat)
    requires AllLaidOut(ss, ss', rc, |ss|) && j < |ss| && LastBefore(ss', i, j)
    ensures AfterSections(ss, rc, j) == if i < 0 then rc else ss'[i].offset + ss'[i].size
  {
    hide RoundUp, FinalAlign, FinalSize;
    if i < j - 1 { EndBeforeSection(ss, ss', rc, i, j - 1); }
  }
}
