/** Writing out a laid out ELF object (_libelf_write_scn and _libelf_write_elf,
    src/libelf/elf_update.c). Every write starts where the bytes defined so far end, so that each
    byte of the file is defined exactly once. */
module ElfWriter {
  import opened Bytes
  import opened ElfLayout
  import opened ElfExtents
  import opened ElfPlacement

  /** The memory that the file is put together in; the first `defined` bytes have been written. */
  class NewFile {
    const bytes: array<byte>
    const fillChar: byte
    ghost var defined: nat

    ghost predicate Valid()
      reads this
    {
      defined <= bytes.Length
    }

    constructor (size: nat, fillChar: byte)
      ensures Valid() && defined == 0 && bytes.Length == size && this.fillChar == fillChar && fresh(bytes)
    {
      bytes := new byte[size];
      this.fillChar := fillChar;
      defined := 0;
    }

    /** Stores `data` right behind what is defined. */
    method Store(at: nat, data: seq<byte>)
      requires Valid() && at == defined && at + |data| <= bytes.Length
      modifies this`defined, bytes
      ensures Valid() && defined == at + |data| && bytes[..defined] == old(bytes[..defined]) + data
    {
      for i := 0 to |data|
        invariant bytes[..at] == old(bytes[..defined]) && bytes[at..at + i] == data[..i]
      {
        bytes[at + i] := data[i];
      }
      defined := at + |data|;
      assert bytes[..defined] == bytes[..at] + bytes[at..at + |data|] && data[..|data|] == data;
    }

    /** Fills a gap with the fill character. */
    method Fill(at: nat, n: nat)
      requires Valid() && at == defined && at + n <= bytes.Length
      modifies this`defined, bytes
      ensures Valid() && defined == at + n && bytes[..defined] == old(bytes[..defined]) + Filler(fillChar, n)
    {
      Store(at, Filler(fillChar, n));
    }
  }

  function Filler(c: byte, n: nat): seq<byte> { seq(n, _ => c) }

  /** The contents of the first `i` descriptors of a section, with the holes between them. */
  function DataBytes(data: seq<Data>, c: byte, i: nat): seq<byte>
    requires i <= |data|
  {
    if i == 0 then []
    else
      var before := DataBytes(data, c, i - 1);
      var gap := if data[i - 1].off > |before| then data[i - 1].off - |before| else 0;
      before + Filler(c, gap) + data[i - 1].image
  }

  function SectionBytes(s: Section, c: byte): seq<byte> {
    if s.content.Raw? then s.content.bytes else DataBytes(s.content.data, c, |s.content.data|)
  }

  /** Every descriptor has the offset and the length that the layout computes for it. */
  predicate AtOffsets(data: seq<Data>) {
    forall k :: 0 <= k < |data| ==>
          data[k].off == OffsetOf(data, k) && data[k].align > 0 && |data[k].image| == FileLength(data[k])
  }

  /** A section as the layout leaves it: its descriptors have their offsets and its size is theirs. */
  predicate Laid(s: Section) {
    && ValidSection(s)
    && (s.content.Described? ==>
          AtOffsets(s.content.data) && s.size == SizeAfter(s.content.data, |s.content.data|))
  }

  /** The contents of a laid out section are as long as its header says. */
  lemma {:induction false} DataLength(data: seq<Data>, c: byte, i: nat)
    requires i <= |data| && AtOffsets(data)
    ensures |DataBytes(data, c, i)| == SizeAfter(data, i)
    ensures i < |data| ==> SizeAfter(data, i) <= data[i].off
  {
    hide RoundUp, FileLength;
    if i > 0 { DataLength(data, c, i - 1); }
    if i < |data| { RoundUpLeast(SizeAfter(data, i), data[i].align); }
  }

  lemma LaidLength(s: Section, c: byte)
    requires Laid(s)
    ensures |SectionBytes(s, c)| == s.size
  {
    if s.content.Described? { DataLength(s.content.data, c, |s.content.data|); }
  }

  /** Laying out a section makes it one that can be written. */
  lemma LaidOutIsLaid(s: Section, s': Section, version: nat, rc: nat)
    requires ValidSection(s) && SectionFault(s, version) == NoError && LaidOut(s, s', rc)
    ensures Laid(s')
  {
    LaidOutIsValid(s, s', version, rc);
    if s.content.Described? {
      var d, d' := s.content.data, s'.content.data;
      NoFaultMeansSound(d, version, 0);
      forall i | 0 <= i < |d'| ensures d'[i].off == OffsetOf(d', i) && d'[i].align > 0 {
        SameOffsets(d, d', i);
        assert DataFault(d[i], version) == NoError;
      }
      if |d| > 0 { SameOffsets(d, d', |d| - 1); }
    }
  }

  /** Byte `b` of a section is a descriptor's, at its place in it, or else the fill character. */
  lemma {:induction false} ByteOfData(data: seq<Data>, c: byte, i: nat, b: nat)
    requires i <= |data| && AtOffsets(data) && b < SizeAfter(data, i)
    ensures |DataBytes(data, c, i)| == SizeAfter(data, i)
    ensures forall k :: 0 <= k < i && data[k].off <= b < data[k].off + |data[k].image| ==>
                          DataBytes(data, c, i)[b] == data[k].image[b - data[k].off]
    ensures (forall k :: 0 <= k < i ==> !(data[k].off <= b < data[k].off + |data[k].image|)) ==>
              DataBytes(data, c, i)[b] == c
  {
    hide RoundUp, FileLength;
    DataLength(data, c, i);
    DataLength(data, c, i - 1);
    var before := SizeAfter(data, i - 1);
    if b < before { ByteOfData(data, c, i - 1, b); }
    forall k | 0 <= k < i - 1 ensures data[k].off + |data[k].image| <= before {
      DataFits(data, c, k);
      SizesGrow(data, k + 1, i - 1);
    }
  }

  /** Offsets do not depend on the offsets stored before. */
  lemma {:induction false} SameOffsets(d: seq<Data>, d': seq<Data>, i: nat)
    requires Placed(d, d') && i < |d|
    ensures OffsetOf(d', i) == OffsetOf(d, i) && FileLength(d'[i]) == FileLength(d[i])
  {
    hide RoundUp;
    if i > 0 { SameOffsets(d, d', i - 1); }
  }

  /** Each of the first `n` descriptors has a buffer. */
  predicate Buffered(data: seq<Data>, n: nat)
    requires n <= |data|
  {
    forall k :: 0 <= k < n ==> data[k].hasBuffer
  }

  predicate HasBuffers(s: Section) { s.content.Described? ==> Buffered(s.content.data, |s.content.data|) }

  /** What the writer asserts of a section: it starts at a multiple of its type's alignment, and its descriptors have
      buffers. */
  predicate Passes(s: Section) { s.elem.fileAlign > 0 && s.offset % s.elem.fileAlign == 0 && HasBuffers(s) }

  /** Writes one section, unless an assertion fails; the result is where it ends. */
  method WriteSection(s: Section, start: nat, file: NewFile) returns (ok: bool, rc: nat)
    requires file.Valid() && Laid(s) && s.size > 0 && s.offset == start == file.defined
             && start + s.size <= file.bytes.Length
    modifies file`defined, file.bytes
    ensures file.Valid() && ok == Passes(s)
    ensures ok ==> rc == start + s.size == file.defined
    ensures ok ==> file.bytes[..file.defined] == old(file.bytes[..file.defined]) + SectionBytes(s, file.fillChar)
  {
    ok, rc := s.offset % s.elem.fileAlign == 0, start;
    if !ok {
      return;
    }
    if s.content.Raw? {
      file.Store(rc, s.content.bytes);
      rc := rc + |s.content.bytes|;
    } else {
      ok, rc := WriteData(s.content.data, start, s.size, file);
    }
  }

  method WriteData(data: seq<Data>, start: nat, size: nat, file: NewFile) returns (ok: bool, rc: nat)
    requires file.Valid() && start == file.defined && start + size <= file.bytes.Length
             && size == SizeAfter(data, |data|)
    requires AtOffsets(data)
    modifies file`defined, file.bytes
    ensures file.Valid() && ok == Buffered(data, |data|)
    ensures ok ==> rc == start + size == file.defined
    ensures ok ==>
              file.bytes[..file.defined] == old(file.bytes[..file.defined]) + DataBytes(data, file.fillChar, |data|)
  {
    hide AtOffsets, SizeAfter, FileLength, DataBytes;
    ok, rc := true, start;
    NothingYet(data, file.fillChar, file.bytes[..file.defined]);
    for i := 0 to |data|
      invariant ok && Buffered(data, i)
      invariant file.Valid() && rc == file.defined == start + SizeAfter(data, i)
      invariant file.bytes[..file.defined] == old(file.bytes[..file.defined]) + DataBytes(data, file.fillChar, i)
    {
      DataFits(data, file.fillChar, i);
      ok, rc := WriteDescriptor(data[i], start, rc, file);
      if !ok {
        return;
      }
      DataStep(data, file.fillChar, i, old(file.bytes[..file.defined]));
    }
  }

  lemma NothingYet(data: seq<Data>, c: byte, before: seq<byte>)
    ensures SizeAfter(data, 0) == 0 && before + DataBytes(data, c, 0) == before
  {
  }

  lemma DataStep(data: seq<Data>, c: byte, i: nat, before: seq<byte>)
    requires i < |data| && |DataBytes(data, c, i)| <= data[i].off
    ensures before + DataBytes(data, c, i) + (Filler(c, data[i].off - |DataBytes(data, c, i)|) + data[i].image)
         == before + DataBytes(data, c, i + 1)
  {
  }

  /** One descriptor, with the hole before it. */
  method WriteDescriptor(d: Data, start: nat, rc: nat, file: NewFile) returns (ok: bool, rc': nat)
    requires file.Valid() && rc == file.defined <= start + d.off && start + d.off + |d.image| <= file.bytes.Length
    modifies file`defined, file.bytes
    ensures file.Valid() && ok == d.hasBuffer
    ensures ok ==> rc' == start + d.off + |d.image| == file.defined
    ensures ok ==>
              file.bytes[..file.defined]
              == old(file.bytes[..file.defined]) + (Filler(file.fillChar, start + d.off - rc) + d.image)
  {
    if rc < start + d.off {
      file.Fill(rc, start + d.off - rc);
    }
    ok, rc' := d.hasBuffer, start + d.off;
    if !ok {
      return;
    }
    file.Store(rc', d.image);
    rc' := rc' + |d.image|;
  }

  /** The next descriptor starts behind the ones before it and ends inside the section. */
  lemma DataFits(data: seq<Data>, c: byte, i: nat)
    requires i < |data|
    requires AtOffsets(data)
    ensures |DataBytes(data, c, i)| == SizeAfter(data, i) <= data[i].off
    ensures data[i].off + |data[i].image| == SizeAfter(data, i + 1) <= SizeAfter(data, |data|)
  {
    hide RoundUp, FileLength, DataBytes;
    DataLength(data, c, i);
    SizesGrow(data, i + 1, |data|);
  }

  lemma {:induction false} SizesGrow(data: seq<Data>, i: nat, j: nat)
    requires i <= j <= |data| && AtOffsets(data)
    ensures SizeAfter(data, i) <= SizeAfter(data, j)
    decreases j
  {
    hide RoundUp, FileLength;
    if i < j {
      SizesGrow(data, i, j - 1);
      RoundUpLeast(SizeAfter(data, j - 1), data[j - 1].align);
    }
  }

  // ----- the file -----

  /** The bytes of an extent: the tables' come from their translation. */
  function ExtentBytes(e: Extent, sections: seq<Section>, tables: Kind -> seq<byte>, c: byte): seq<byte> {
    if e.kind.SectionData? && e.kind.index < |sections| then SectionBytes(sections[e.kind.index], c) else tables(e.kind)
  }

  /** The file up to the end of the `i`-th extent: gaps are filled. */
  function FileBytes(x: seq<Extent>, sections: seq<Section>, tables: Kind -> seq<byte>, c: byte, i: nat): seq<byte>
    requires i <= |x|
  {
    if i == 0 then []
    else
      var before := FileBytes(x, sections, tables, c, i - 1);
      var gap := if x[i - 1].start > |before| then x[i - 1].start - |before| else 0;
      before + Filler(c, gap) + ExtentBytes(x[i - 1], sections, tables, c)
  }

  /** What the extents of a laid out object are like. */
  predicate Writable(x: seq<Extent>, sections: seq<Section>, tables: Kind -> seq<byte>) {
    && Ascending(x)
    && forall i :: 0 <= i < |x| ==> ExtentReady(x[i], sections, tables)
  }

  lemma {:induction false} FileLengthIs(x: seq<Extent>, sections: seq<Section>, tables: Kind -> seq<byte>, c: byte,
                                        i: nat)
    requires Writable(x, sections, tables) && i <= |x|
    ensures |FileBytes(x, sections, tables, c, i)| == if i == 0 then 0 else End(x[i - 1])
  {
    if i > 0 {
      FileLengthIs(x, sections, tables, c, i - 1);
      if x[i - 1].kind.SectionData? { LaidLength(sections[x[i - 1].kind.index], c); }
    }
  }

  /** Byte `b` of the file is an extent's, at its place in it, or else the fill character. */
  lemma {:induction false} ByteOfFile(x: seq<Extent>, sections: seq<Section>, tables: Kind -> seq<byte>, c: byte,
                                      i: nat, b: nat)
    requires Writable(x, sections, tables) && 0 < i <= |x| && b < End(x[i - 1])
    ensures |FileBytes(x, sections, tables, c, i)| == End(x[i - 1])
    ensures forall k :: 0 <= k < i ==> |ExtentBytes(x[k], sections, tables, c)| == x[k].size
    ensures forall k :: 0 <= k < i && x[k].start <= b < x[k].start + x[k].size ==>
                          FileBytes(x, sections, tables, c, i)[b]
                          == ExtentBytes(x[k], sections, tables, c)[b - x[k].start]
    ensures (forall k :: 0 <= k < i ==> !(x[k].start <= b < x[k].start + x[k].size)) ==>
              FileBytes(x, sections, tables, c, i)[b] == c
  {
    hide ExtentBytes, Laid;
    FileLengthIs(x, sections, tables, c, i);
    FileLengthIs(x, sections, tables, c, i - 1);
    forall k | 0 <= k < i ensures |ExtentBytes(x[k], sections, tables, c)| == x[k].size {
      ExtentLength(x[k], sections, tables, c);
    }
    if i > 1 && b < End(x[i - 2]) { ByteOfFile(x, sections, tables, c, i - 1, b); }
  }

  lemma ExtentLength(e: Extent, sections: seq<Section>, tables: Kind -> seq<byte>, c: byte)
    requires ExtentReady(e, sections, tables)
    ensures |ExtentBytes(e, sections, tables, c)| == e.size
  {
    if e.kind.SectionData? { LaidLength(sections[e.kind.index], c); }
  }

  /** All sections that are written pass the writer's assertions. */
  predicate AllPass(x: seq<Extent>, sections: seq<Section>, n: nat)
    requires n <= |x|
  {
    forall i :: 0 <= i < n && x[i].kind.SectionData? && x[i].kind.index < |sections| ==>
      Passes(sections[x[i].kind.index])
  }

  /** Writes all extents. The file is exactly what the extents and the gaps between them make, each
      write starts where the one before ended, and the three checks of the writer hold; it is not
      finished exactly if some section does not pass its assertions. */
  method WriteElf(x: seq<Extent>, sections: seq<Section>, tables: Kind -> seq<byte>, newSize: nat, fillChar: byte)
    returns (ok: bool, file: NewFile, rc: nat)
    requires Writable(x, sections, tables) && newSize == EndOf(x)
    ensures ok == AllPass(x, sections, |x|)
    ensures ok ==>
              fresh(file) && fresh(file.bytes) && file.Valid() && rc == newSize == file.defined == file.bytes.Length
    ensures ok ==> file.bytes[..] == FileBytes(x, sections, tables, fillChar, |x|)
  {
    hide FileBytes, Passes, Writable, ExtentBytes, Ascending, Laid;
    file := new NewFile(newSize, fillChar);
    ok, rc := true, 0;
    NoExtentYet(x, sections, tables, fillChar);
    for i := 0 to |x|
      invariant file.Valid() && file.fillChar == fillChar && file.bytes.Length == newSize
      invariant fresh(file) && fresh(file.bytes) && ok && AllPass(x, sections, i)
      invariant rc == file.defined == if i == 0 then 0 else End(x[i - 1])
      invariant file.bytes[..file.defined] == FileBytes(x, sections, tables, fillChar, i)
    {
      FileLengthIs(x, sections, tables, fillChar, i);
      ExtentFits(x, sections, tables, i);
      var nrc;
      ok, nrc := WriteExtent(x[i], rc, sections, tables, file);
      if !ok {
        return;
      }
      ExtentStep(x, sections, tables, fillChar, i);
      assert x[i].start + x[i].size == nrc;
      assert rc < nrc;
      rc := nrc;
    }
    assert rc == newSize;
    assert file.bytes[..] == file.bytes[..file.defined];
  }

  lemma NoExtentYet(x: seq<Extent>, sections: seq<Section>, tables: Kind -> seq<byte>, c: byte)
    ensures FileBytes(x, sections, tables, c, 0) == []
  {
  }

  lemma ExtentStep(x: seq<Extent>, sections: seq<Section>, tables: Kind -> seq<byte>, c: byte, i: nat)
    requires i < |x| && |FileBytes(x, sections, tables, c, i)| <= x[i].start
    ensures FileBytes(x, sections, tables, c, i)
            + (Filler(c, x[i].start - |FileBytes(x, sections, tables, c, i)|) + ExtentBytes(x[i], sections, tables, c))
         == FileBytes(x, sections, tables, c, i + 1)
  {
  }

  /** What is written for an extent is as long as the extent. */
  predicate ExtentReady(e: Extent, sections: seq<Section>, tables: Kind -> seq<byte>) {
    if e.kind.SectionData? then
      e.kind.index < |sections| && Laid(sections[e.kind.index])
      && sections[e.kind.index].offset == e.start && sections[e.kind.index].size == e.size
    else |tables(e.kind)| == e.size
  }

  /** One extent, with the gap before it; the result is where it ends. */
  method WriteExtent(e: Extent, rc: nat, sections: seq<Section>, tables: Kind -> seq<byte>, file: NewFile)
    returns (ok: bool, nrc: nat)
    requires file.Valid() && rc == file.defined <= e.start && End(e) <= file.bytes.Length && e.size > 0
    requires ExtentReady(e, sections, tables)
    modifies file`defined, file.bytes
    ensures file.Valid() && ok == (e.kind.SectionData? ==> Passes(sections[e.kind.index]))
    ensures ok ==> nrc == e.start + e.size == file.defined
    ensures ok ==>
              file.bytes[..file.defined]
              == old(file.bytes[..file.defined])
                 + (Filler(file.fillChar, e.start - rc) + ExtentBytes(e, sections, tables, file.fillChar))
  {
    hide Laid, SectionBytes, Passes;
    ok := true;
    if e.start > rc {
      file.Fill(rc, e.start - rc);
    }
    if e.kind.SectionData? {
      ok, nrc := WriteSection(sections[e.kind.index], e.start, file);
    } else {
      file.Store(e.start, tables(e.kind));
      nrc := e.start + |tables(e.kind)|;
    }
  }

  lemma ExtentFits(x: seq<Extent>, sections: seq<Section>, tables: Kind -> seq<byte>, i: nat)
    requires Writable(x, sections, tables) && i < |x|
    ensures ExtentReady(x[i], sections, tables)
    ensures x[i].size > 0 && (i > 0 ==> End(x[i - 1]) <= x[i].start) && End(x[i]) <= EndOf(x)
  {
    if i < |x| - 1 { assert End(x[i]) <= x[|x| - 1].start; }
  }

  /** What the layout pass yields can be written. */
  lemma LayoutIsWritable(ss: seq<Section>, ss': seq<Section>, version: nat, x: seq<Extent>, front: seq<Extent>,
                         back: seq<Extent>,
                         tables: Kind -> seq<byte>)
    requires AllFaultless(ss, version, |ss|) && AllLaidOut(ss, ss', EndOf(front), |ss|)
    requires forall i :: 0 <= i < |ss| ==> ValidSection(ss[i])
    requires x == front + SectionExtents(ss, EndOf(front), |ss|) + back && Ascending(x)
    requires forall i :: 0 <= i < |front| ==> !front[i].kind.SectionData? && |tables(front[i].kind)| == front[i].size
    requires forall i :: 0 <= i < |back| ==> !back[i].kind.SectionData? && |tables(back[i].kind)| == back[i].size
    ensures Writable(x, ss', tables)
  {
    var rc, mid := EndOf(front), SectionExtents(ss, EndOf(front), |ss|);
    forall i | 0 <= i < |mid|
      ensures mid[i].kind.SectionData? && mid[i].kind.index < |ss'| && Laid(ss'[mid[i].kind.index])
              && ss'[mid[i].kind.index].offset == mid[i].start && ss'[mid[i].kind.index].size == mid[i].size
    {
      ExtentOfSection(ss, rc, |ss|, i);
      var k := mid[i].kind.index;
      LaidOutIsLaid(ss[k], ss'[k], version, AfterSections(ss, rc, k));
    }
  }

  lemma {:induction false} ExtentOfSection(ss: seq<Section>, rc: nat, n: nat, i: nat)
    requires n <= |ss| && i < |SectionExtents(ss, rc, n)|
    ensures var e := SectionExtents(ss, rc, n)[i];
            && e.kind.SectionData? && e.kind.index < n && TakesSpace(ss[e.kind.index])
            && e.start == RoundUp(AfterSections(ss, rc, e.kind.index), FinalAlign(ss[e.kind.index]))
            && e.size == FinalSize(ss[e.kind.index])
  {
    hide FinalAlign, FinalSize, RoundUp;
    if i < |SectionExtents(ss, rc, n - 1)| { ExtentOfSection(ss, rc, n - 1, i); }
  }

  /** The tables' images have the sizes that the layout reserves for them. */
  predicate TablesFit(elf: Object, tables: Kind -> seq<byte>)
    reads elf, elf.sections
  {
    && |tables(Header)| == elf.headerSize && |tables(ProgramHeaders)| == elf.phCount * elf.phSize
    && |tables(SectionHeaders)| == elf.sections.Length * elf.shSize
  }

  /** The `i`-th section stops the writer: behind the sections before it it is placed at no multiple of its type's
      alignment, or one of its descriptors has no buffer. */
  predicate StopsWriter(ss: seq<Section>, rc: nat, i: nat)
    requires i < |ss|
  {
    && TakesSpace(ss[i]) && ss[i].elem.fileAlign > 0
    && (RoundUp(AfterSections(ss, rc, i), FinalAlign(ss[i])) % ss[i].elem.fileAlign != 0 || !HasBuffers(ss[i]))
  }

  lemma {:induction false} SectionHasExtent(ss: seq<Section>, rc: nat, n: nat, k: nat) returns (i: nat)
    requires k < n <= |ss| && TakesSpace(ss[k])
    ensures i < |SectionExtents(ss, rc, n)| && SectionExtents(ss, rc, n)[i].kind == SectionData(k)
  {
    hide FinalAlign, FinalSize, RoundUp, TakesSpace;
    if k < n - 1 {
      i := SectionHasExtent(ss, rc, n - 1, k);
    } else {
      i := |SectionExtents(ss, rc, k)|;
    }
  }

  lemma PassesIff(ss: seq<Section>, ss': seq<Section>, rc: nat, k: nat)
    requires k < |ss| && AllLaidOut(ss, ss', rc, |ss|) && ValidSection(ss[k]) && TakesSpace(ss[k])
    ensures Passes(ss'[k]) <==> !StopsWriter(ss, rc, k)
  {
    hide FinalAlign, FinalSize, RoundUp;
    if ss[k].content.Described? {
      var d, d' := ss[k].content.data, ss'[k].content.data;
      assert forall i :: 0 <= i < |d| ==> d'[i].hasBuffer == d[i].hasBuffer;
    }
  }

  /** The sections of a laid out object pass the assertions exactly if, before the layout, none stops the writer. */
  lemma AllPassIff(ss: seq<Section>, ss': seq<Section>, x: seq<Extent>, front: seq<Extent>, back: seq<Extent>)
    requires AllLaidOut(ss, ss', EndOf(front), |ss|)
    requires forall i :: 0 <= i < |ss| ==> ValidSection(ss[i])
    requires x == front + SectionExtents(ss, EndOf(front), |ss|) + back
    requires forall i :: 0 <= i < |front| ==> !front[i].kind.SectionData?
    requires forall i :: 0 <= i < |back| ==> !back[i].kind.SectionData?
    ensures AllPass(x, ss', |x|) <==> forall k :: 0 <= k < |ss| ==> !StopsWriter(ss, EndOf(front), k)
  {
    hide AllLaidOut, Passes, StopsWriter, TakesSpace, FinalAlign, FinalSize, RoundUp;
    var rc, mid := EndOf(front), SectionExtents(ss, EndOf(front), |ss|);
    SameCount(ss, ss', rc);
    forall i | 0 <= i < |mid|
      ensures mid[i].kind.SectionData? && mid[i].kind.index < |ss|
              && (Passes(ss'[mid[i].kind.index]) <==> !StopsWriter(ss, rc, mid[i].kind.index))
    {
      ExtentOfSection(ss, rc, |ss|, i);
      PassesIff(ss, ss', rc, mid[i].kind.index);
    }
    forall k | 0 <= k < |ss| && AllPass(x, ss', |x|) ensures !StopsWriter(ss, rc, k) {
      if TakesSpace(ss[k]) {
        var i := SectionHasExtent(ss, rc, |ss|, k);
        assert x[|front| + i] == mid[i];
      } else {
        NoSpaceNoStop(ss, rc, k);
      }
    }
  }

  lemma SameCount(ss: seq<Section>, ss': seq<Section>, rc: nat)
    requires AllLaidOut(ss, ss', rc, |ss|)
    ensures |ss'| == |ss|
  {
  }

  lemma NoSpaceNoStop(ss: seq<Section>, rc: nat, k: nat)
    requires k < |ss| && !TakesSpace(ss[k])
    ensures !StopsWriter(ss, rc, k)
  {
  }

  /** Whatever comes before it, a section does not stop the writer if its alignment is a multiple of its type's and its
      descriptors have buffers. */
  lemma CoveredIsWritten(ss: seq<Section>, rc: nat, k: nat)
    requires k < |ss| && ss[k].elem.fileAlign > 0 && HasBuffers(ss[k])
    requires FinalAlign(ss[k]) > 0 && FinalAlign(ss[k]) % ss[k].elem.fileAlign == 0
    ensures !StopsWriter(ss, rc, k)
  {
    hide RoundUp, FinalAlign;
    RoundUpLeast(AfterSections(ss, rc, k), FinalAlign(ss[k]));
    DivisorOfMultiple(RoundUp(AfterSections(ss, rc, k), FinalAlign(ss[k])), FinalAlign(ss[k]), ss[k].elem.fileAlign);
  }

  /** Whatever comes before it, a faultless section with buffers does not stop the writer if its header asks for no
      alignment and its type's is a power of two. */
  lemma MissingAlignIsWritten(ss: seq<Section>, rc: nat, k: nat, version: nat)
    requires k < |ss| && ValidElem(ss[k].elem) && SectionFault(ss[k], version) == NoError
    requires ss[k].align == 0 && PowerOfTwo(ss[k].elem.fileAlign) && HasBuffers(ss[k])
    ensures !StopsWriter(ss, rc, k)
  {
    var s, at := ss[k], AfterSections(ss, rc, k);
    if s.content.Raw? {
      MissingAlign(s, s.(align := FinalAlign(s), size := FinalSize(s), offset := RoundUp(at, FinalAlign(s)),
                         entsize := FinalEntrySize(s)), version, at);
    } else {
      var d := s.content.data;
      var placed := seq(|d|, i requires 0 <= i < |d| => d[i].(off := OffsetOf(d, i)));
      MissingAlign(s, s.(align := FinalAlign(s), size := FinalSize(s), offset := RoundUp(at, FinalAlign(s)),
                         entsize := FinalEntrySize(s), content := Described(placed)), version, at);
    }
  }

  /** What the writer asserts fails of some section that is in the file. */
  predicate SomeFails(ss: seq<Section>) { exists i :: 0 <= i < |ss| && InFile(ss[i]) && !Passes(ss[i]) }

  lemma FailsIff(ss: seq<Section>, ss': seq<Section>, rc: nat)
    requires AllLaidOut(ss, ss', rc, |ss|) && forall i :: 0 <= i < |ss| ==> ValidSection(ss[i])
    ensures SomeFails(ss') <==> exists k :: 0 <= k < |ss| && StopsWriter(ss, rc, k)
  {
    hide StopsWriter, Passes, ValidSection, AllLaidOut;
    SameCount(ss, ss', rc);
    forall k | 0 <= k < |ss|
      ensures StopsWriter(ss, rc, k) <==> InFile(ss'[k]) && !Passes(ss'[k])
    {
      SameSpace(ss, ss', rc, k);
      if TakesSpace(ss[k]) { PassesIff(ss, ss', rc, k); } else { NoSpaceNoStop(ss, rc, k); }
    }
  }

  lemma SameSpace(ss: seq<Section>, ss': seq<Section>, rc: nat, k: nat)
    requires AllLaidOut(ss, ss', rc, |ss|) && k < |ss|
    ensures InFile(ss'[k]) <==> TakesSpace(ss[k])
  {
    hide FinalAlign, FinalEntrySize;
  }

  /** Each section that asks for no alignment is aligned to its type's. */
  predicate MissingAligned(ss: seq<Section>, ss': seq<Section>) {
    && |ss'| == |ss|
    && forall i :: 0 <= i < |ss| && ss[i].occupies && ss[i].align == 0 && PowerOfTwo(ss[i].elem.fileAlign) ==>
         ss'[i].offset % ss[i].elem.fileAlign == 0
  }

  lemma AllMissingAligned(ss: seq<Section>, ss': seq<Section>, version: nat, rc: nat)
    requires AllLaidOut(ss, ss', rc, |ss|) && AllFaultless(ss, version, |ss|)
    requires forall i :: 0 <= i < |ss| ==> ValidSection(ss[i])
    ensures MissingAligned(ss, ss')
  {
    hide LaidOut, SectionFault, PowerOfTwo;
    forall i | 0 <= i < |ss| && ss[i].occupies && ss[i].align == 0 && PowerOfTwo(ss[i].elem.fileAlign)
      ensures ss'[i].offset % ss[i].elem.fileAlign == 0
    {
      MissingAlign(ss[i], ss'[i], version, AfterSections(ss, rc, i));
    }
  }

  /** Layout and writing together: with faultless sections the file is laid out as header, program headers, the sections
      one behind the other and section headers, is as long as that, and consists of these extents and the
      filled gaps between them; it is not written exactly if a section stops the writer. */
  method Update(elf: Object, tables: Kind -> seq<byte>, fillChar: byte)
    returns (error: LayoutError, aborted: bool, size: nat, file: NewFile?)
    requires elf.Valid() && elf.extents == [] && TablesFit(elf, tables)
    modifies elf`extents, elf`phOffset, elf`shOffset, elf.sections
    ensures error == NoError <==> AllFaultless(old(elf.sections[..]), elf.version, elf.sections.Length)
    ensures error != LayoutConflict
    ensures error == NoError ==>
              && Ascending(elf.extents) && Writable(elf.extents, elf.sections[..], tables) && size == EndOf(elf.extents)
              && elf.extents == elf.Front()
                 + SectionExtents(old(elf.sections[..]), EndOf(elf.Front()), elf.sections.Length)
                                + elf.Back(elf.shOffset)
              && AllLaidOut(old(elf.sections[..]), elf.sections[..], EndOf(elf.Front()), elf.sections.Length)
              && (elf.sections.Length > 0 ==>
                    elf.shOffset == RoundUp(AfterSections(old(elf.sections[..]), EndOf(elf.Front()),
                        elf.sections.Length),
                                            elf.shAlign))
    ensures aborted <==>
              && error == NoError
              && exists i :: 0 <= i < elf.sections.Length && StopsWriter(old(elf.sections[..]), EndOf(elf.Front()), i)
    ensures aborted <==> error == NoError && SomeFails(elf.sections[..])
    ensures error == NoError ==> MissingAligned(old(elf.sections[..]), elf.sections[..])
    ensures error == NoError && !aborted ==>
              && file != null && file.bytes.Length == size == file.defined
              && file.bytes[..] == FileBytes(elf.extents, elf.sections[..], tables, fillChar, |elf.extents|)
  {
    hide Writable, AllFaultless, AllLaidOut, Ascending, FileBytes, AllPass, StopsWriter, RoundUp, SomeFails,
         MissingAligned;
    ghost var ss := elf.sections[..];
    ObjectSections(elf);
    file, aborted := null, false;
    error, size := elf.ResyncElf();
    if error == NoError {
      LayoutIsWritable(ss, elf.sections[..], elf.version, elf.extents, elf.Front(), elf.Back(elf.shOffset), tables);
      AllPassIff(ss, elf.sections[..], elf.extents, elf.Front(), elf.Back(elf.shOffset));
      FailsIff(ss, elf.sections[..], EndOf(elf.Front()));
      AllMissingAligned(ss, elf.sections[..], elf.version, EndOf(elf.Front()));
      var ok, rc;
      ok, file, rc := WriteElf(elf.extents, elf.sections[..], tables, size, fillChar);
      aborted := !ok;
    }
  }

  lemma ObjectSections(elf: Object)
    requires elf.Valid()
    ensures forall i :: 0 <= i < |elf.sections[..]| ==> ValidSection(elf.sections[..][i])
  {
  }

  // ----- objects that are not written -----

  /** A section with one descriptor of `n` bytes. */
  function Sample(elem: ElemType, n: nat, hasBuffer: bool): Section {
    Section(true, true, elem, 1, 0, 0, 0, Described([Data(true, elem, 1, 1, n, 0, hasBuffer, seq(n, _ => 0))]))
  }

  const BYTE_TYPE: ElemType := ElemType(1, 1, 1)
  const SYMBOL_TYPE: ElemType := ElemType(16, 16, 4)

  /** One byte, and behind it a symbol table that asks for no alignment; or one byte without a buffer. */
  function SampleSections(misaligned: bool): seq<Section> {
    if misaligned then [Sample(BYTE_TYPE, 1, true), Sample(SYMBOL_TYPE, 16, true)] else [Sample(BYTE_TYPE, 1, false)]
  }

  lemma SamplesStop(misaligned: bool)
    ensures var ss := SampleSections(misaligned);
            && |ss| > 0 && AllFaultless(ss, 1, |ss|) && (forall i :: 0 <= i < |ss| ==> ValidSection(ss[i]))
            && StopsWriter(ss, 52, |ss| - 1)
  {
    var ss := SampleSections(misaligned);
    var d, b := Sample(SYMBOL_TYPE, 16, true).content.data, Sample(BYTE_TYPE, 1, misaligned).content.data;
    assert SizeAfter(b, 1) == 1 && LargestAlign(b, 1) == 1;
    assert SizeAfter(d, 1) == 16 && LargestAlign(d, 1) == 1;
    assert AfterSections(ss, 52, 0) == 52 && AfterSections(ss, 52, 1) == 53;
    assert DataFault(b[0], 1) == NoError && DataFault(d[0], 1) == NoError;
    NoFaultMeansSound(b, 1, 0);
    NoFaultMeansSound(d, 1, 0);
  }

  /** There are faultless objects that are not written, for either reason: a 32-bit object with these sections. */
  method UpdateAborts(misaligned: bool) returns (error: LayoutError, aborted: bool)
    ensures error == NoError && aborted
  {
    hide StopsWriter, AllFaultless, ValidSection, SampleSections;
    var ss := SampleSections(misaligned);
    SamplesStop(misaligned);
    var sections := new Section[|ss|](i requires 0 <= i < |ss| => ss[i]);
    assert sections[..] == ss;
    var elf := new Object(1, 52, 0, 32, 4, 40, 4, sections);
    var size, file;
    assert EndOf(elf.Front()) == 52 && StopsWriter(ss, EndOf(elf.Front()), |ss| - 1);
    error, aborted, size, file := Update(elf, SampleTables(|ss|), 0);
  }

  // ----- an object that is written -----

  /** One byte, and behind it a symbol table whose header does not say how it is to be aligned. */
  function ByteAndSymbols(): seq<Section> { [Sample(BYTE_TYPE, 1, true), Sample(SYMBOL_TYPE, 16, true).(align := 0)] }

  lemma SymbolsAfterByte()
    ensures var ss := ByteAndSymbols();
            && |ss| == 2 && AllFaultless(ss, 1, 2) && (forall i :: 0 <= i < 2 ==> ValidSection(ss[i]))
            && RoundUp(AfterSections(ss, 52, 1), FinalAlign(ss[1])) == 56 && AfterSections(ss, 52, 2) == 72
            && TakesSpace(ss[1]) && forall i :: 0 <= i < 2 ==> !StopsWriter(ss, 52, i)
  {
    var ss := ByteAndSymbols();
    var d, b := Sample(SYMBOL_TYPE, 16, true).content.data, Sample(BYTE_TYPE, 1, true).content.data;
    assert SizeAfter(b, 1) == 1 && LargestAlign(b, 1) == 1;
    assert SizeAfter(d, 1) == 16 && LargestAlign(d, 1) == 1;
    assert AfterSections(ss, 52, 0) == 52 && AfterSections(ss, 52, 1) == 53;
    assert DataFault(b[0], 1) == NoError && DataFault(d[0], 1) == NoError;
    NoFaultMeansSound(b, 1, 0);
    NoFaultMeansSound(d, 1, 0);
  }

  /** A 32-bit object with these sections is written: the symbol table goes to offset 56, and the file
      ends with the two section headers behind it. */
  method SymbolTableIsWritten() returns (error: LayoutError, aborted: bool, size: nat, offset: nat)
    ensures error == NoError && !aborted && offset == 56 && size == 152
  {
    hide StopsWriter, AllFaultless, ValidSection, ByteAndSymbols, AfterSections, FinalAlign, TakesSpace, FileBytes,
         Writable, SomeFails, MissingAligned;
    var ss := ByteAndSymbols();
    SymbolsAfterByte();
    var sections := new Section[|ss|](i requires 0 <= i < |ss| => ss[i]);
    assert sections[..] == ss;
    var elf := new Object(1, 52, 0, 32, 4, 40, 4, sections);
    var file;
    assert EndOf(elf.Front()) == 52;
    error, aborted, size, file := Update(elf, SampleTables(|ss|), 0);
    assert LaidOut(ss[1], elf.sections[..][1], AfterSections(ss, 52, 1));
    offset := elf.sections[1].offset;
  }

  /** The tables of such an object, with room for the section headers. */
  function SampleTables(n: nat): Kind -> seq<byte> {
    (k: Kind) => match k
      case Header => seq(52, _ => 0)
      case SectionHeaders => seq(n * 40, _ => 0)
      case _ => []
  }
}
