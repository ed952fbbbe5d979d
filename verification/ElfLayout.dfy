/** Laying out an ELF object: section contents, extents and the file's size, for objects whose layout
    the library controls (src/libelf/elf_update.c; "Sections" in chapter 4 of the System V ABI). */
module ElfLayout {
  import opened Arith
  import opened Bytes

  /** The least multiple of `y` that is at least `x`. */
  function RoundUp(x: nat, y: nat): nat { if y == 0 then x else (x + (y - 1)) / y * y }

  lemma RoundUpLeast(x: nat, y: nat)
    requires y > 0
    ensures x <= RoundUp(x, y) < x + y && RoundUp(x, y) % y == 0
    ensures forall k: nat :: x <= k * y ==> RoundUp(x, y) <= k * y
  {
    var q, r := (x + (y - 1)) / y, (x + (y - 1)) % y;
    assert x + (y - 1) == q * y + r;
    MultipleMod(q, y);
    forall k: nat | x <= k * y ensures q * y <= k * y {
      NoSmaller(x, y, q, r, k);
    }
  }

  lemma NoSmaller(x: nat, y: nat, q: int, r: nat, k: nat)
    requires y > 0 && x + (y - 1) == q * y + r && r < y && x <= k * y
    ensures q * y <= k * y
  {
    if k < q { MulMonotone(k, q, y); } else { MulMonotone(q, k, y); }
  }

  /** A power of two: what `n & (n - 1) == 0` tests for a non-zero `n`. */
  predicate PowerOfTwo(n: nat) { n == 1 || (n > 0 && n % 2 == 0 && PowerOfTwo(n / 2)) }

  /** Of two powers of two the smaller divides the larger. */
  lemma {:induction false} PowersDivide(a: nat, b: nat)
    requires PowerOfTwo(a) && PowerOfTwo(b) && a <= b
    ensures a > 0 && b % a == 0
  {
    if a == 1 {
    } else if b == 1 {
    } else {
      PowersDivide(a / 2, b / 2);
      var q := b / 2 / (a / 2);
      assert b / 2 == q * (a / 2);
      assert b == q * a by { assert q * a == q * (a / 2) + q * (a / 2) by { Distribute(a / 2, a / 2, q); } }
      MultipleMod(q, a);
    }
  }

  lemma DivisorOfMultiple(m: nat, b: nat, a: nat)
    requires a > 0 && b > 0 && m % b == 0 && b % a == 0
    ensures m % a == 0
  {
    var p, q := m / b, b / a;
    assert m == p * b && b == q * a;
    assert m == p * q * a;
    MultipleMod(p * q, a);
  }

  lemma SumOfMultiples(m: nat, n: nat, a: nat)
    requires a > 0 && m % a == 0 && n % a == 0
    ensures (m + n) % a == 0
  {
    var p, q := m / a, n / a;
    assert m == p * a && n == q * a;
    Distribute(p, q, a);
    MultipleMod(p + q, a);
  }

  /** The sizes of one element of a data type in memory and in the file, and its alignment there. */
  datatype ElemType = ElemType(memSize: nat, fileSize: nat, fileAlign: nat)

  /** A data descriptor. `image` is what the translation of its buffer, if it has one, to file form stores. */
  datatype Data = Data(
    known: bool,
    elem: ElemType,
    version: nat,
    align: nat,
    size: nat,
    off: nat,
    hasBuffer: bool,
    image: seq<byte>)

  /** A section's content is what the file holds already or a list of data descriptors. */
  datatype Content = Raw(bytes: seq<byte>) | Described(data: seq<Data>)

  /** `occupies` is false for SHT_NULL and SHT_NOBITS. `align` is sh_addralign, and `elem` belongs to
      the section's type. */
  datatype Section = Section(
    occupies: bool,
    known: bool,
    elem: ElemType,
    align: nat,
    entsize: nat,
    offset: nat,
    size: nat,
    content: Content)

  datatype LayoutError = NoError | SectionError | DataError | VersionError | LayoutConflict

  predicate ValidElem(t: ElemType) { t.memSize > 0 && t.fileSize > 0 && t.fileAlign > 0 }

  /** The bytes a descriptor takes in the file. */
  function FileLength(d: Data): nat { if d.elem.memSize == 0 then 0 else d.size / d.elem.memSize * d.elem.fileSize }

  /** What is wrong with a descriptor, if anything. */
  function DataFault(d: Data, version: nat): LayoutError {
    if !d.known then DataError
    else if d.version != version then VersionError
    else if d.align == 0 || !PowerOfTwo(d.align) then DataError
    else if d.elem.memSize == 0 || d.size % d.elem.memSize != 0 then DataError
    else NoError
  }

  predicate Sound(data: seq<Data>, version: nat) {
    forall i :: 0 <= i < |data| ==> DataFault(data[i], version) == NoError
  }

  /** The section's size with its first `i` descriptors laid out, and where the next one goes. */
  function SizeAfter(data: seq<Data>, i: nat): nat
    requires i <= |data|
    decreases i, 0
  {
    if i == 0 then 0 else OffsetOf(data, i - 1) + FileLength(data[i - 1])
  }

  function OffsetOf(data: seq<Data>, i: nat): nat
    requires i < |data|
    decreases i, 1
  {
    RoundUp(SizeAfter(data, i), data[i].align)
  }

  /** Descriptors do not overlap, each is aligned, and all lie inside the section. */
  lemma {:induction false} DescriptorsApart(data: seq<Data>, version: nat, i: nat, j: nat)
    requires Sound(data, version) && i < j <= |data|
    ensures data[i].align > 0 && OffsetOf(data, i) % data[i].align == 0
    ensures OffsetOf(data, i) + FileLength(data[i]) <= SizeAfter(data, j)
    ensures j < |data| ==> OffsetOf(data, i) + FileLength(data[i]) <= OffsetOf(data, j)
    decreases j
  {
    hide RoundUp;
    DescriptorAligned(data, version, i);
    if i + 1 < j {
      DescriptorsApart(data, version, i, j - 1);
      DescriptorAligned(data, version, j - 1);
    }
    if j < |data| { DescriptorAligned(data, version, j); }
  }

  lemma DescriptorAligned(data: seq<Data>, version: nat, i: nat)
    requires Sound(data, version) && i < |data|
    ensures data[i].align > 0 && OffsetOf(data, i) % data[i].align == 0 && SizeAfter(data, i) <= OffsetOf(data, i)
  {
    assert DataFault(data[i], version) == NoError;
    RoundUpLeast(SizeAfter(data, i), data[i].align);
  }

  function Max(a: nat, b: nat): nat { if a > b then a else b }

  /** The largest alignment among the first `i` descriptors. */
  function LargestAlign(data: seq<Data>, i: nat): nat
    requires i <= |data|
  {
    if i == 0 then 0 else Max(data[i - 1].align, LargestAlign(data, i - 1))
  }

  lemma {:induction false} LargestAlignIsOne(data: seq<Data>, i: nat)
    requires i <= |data|
    ensures forall k :: 0 <= k < i ==> data[k].align <= LargestAlign(data, i)
    ensures LargestAlign(data, i) == 0 || exists k :: 0 <= k < i && data[k].align == LargestAlign(data, i)
  {
    if i > 0 { LargestAlignIsOne(data, i - 1); }
  }

  predicate ValidSection(s: Section) {
    && ValidElem(s.elem)
    && (s.content.Raw? ==> |s.content.bytes| == s.size)
    && (s.content.Described? ==>
          forall i :: 0 <= i < |s.content.data| ==>
            ValidElem(s.content.data[i].elem) && |s.content.data[i].image| == FileLength(s.content.data[i]))
  }

  /** What is wrong with a section. */
  function SectionFault(s: Section, version: nat): LayoutError {
    if !s.known then SectionError
    else if s.content.Raw? then NoError
    else FirstFault(s.content.data, version, 0)
  }

  function FirstFault(data: seq<Data>, version: nat, i: nat): LayoutError
    requires i <= |data|
    decreases |data| - i
  {
    if i == |data| then NoError
    else if DataFault(data[i], version) != NoError then DataFault(data[i], version)
    else FirstFault(data, version, i + 1)
  }

  lemma {:induction false} FaultOfData(data: seq<Data>, version: nat, i: nat)
    requires i <= |data|
    ensures FirstFault(data, version, i) != LayoutConflict
    decreases |data| - i
  {
    if i < |data| { FaultOfData(data, version, i + 1); }
  }

  lemma {:induction false} NoFaultMeansSound(data: seq<Data>, version: nat, i: nat)
    requires i <= |data|
    ensures FirstFault(data, version, i) == NoError <==>
              forall k :: i <= k < |data| ==> DataFault(data[k], version) == NoError
    decreases |data| - i
  {
    hide DataFault;
    if i < |data| { NoFaultMeansSound(data, version, i + 1); }
  }

  function BaseAlign(s: Section): nat { if s.align == 0 then s.elem.fileAlign else s.align }

  /** The section's alignment: at least that of each of its descriptors. */
  function FinalAlign(s: Section): nat {
    if s.content.Raw? then BaseAlign(s) else Max(BaseAlign(s), LargestAlign(s.content.data, |s.content.data|))
  }

  function FinalSize(s: Section): nat {
    if s.content.Raw? then s.size else SizeAfter(s.content.data, |s.content.data|)
  }

  /** A missing entry size is that of the section's type, except for byte data. */
  function FinalEntrySize(s: Section): nat {
    if s.content.Raw? || s.entsize != 0 then s.entsize else if s.elem.fileSize == 1 then 0 else s.elem.fileSize
  }

  /** The descriptors of a laid out section have the offsets computed for them. */
  predicate Placed(data: seq<Data>, data': seq<Data>) {
    |data'| == |data| && forall i :: 0 <= i < |data| ==> data'[i] == data[i].(off := OffsetOf(data, i))
  }

  /** A section laid out behind the first `rc` bytes of the file. */
  predicate LaidOut(s: Section, s': Section, rc: nat) {
    && s'.align == FinalAlign(s) && s'.size == FinalSize(s) && s'.offset == RoundUp(rc, FinalAlign(s))
    && s'.occupies == s.occupies && s'.known == s.known && s'.elem == s.elem && s'.entsize == FinalEntrySize(s)
    && (s.content.Raw? ==> s'.content == s.content)
    && (s.content.Described? ==> s'.content.Described? && Placed(s.content.data, s'.content.data))
  }

  /** Lays out one section at the first suitable place at or behind `rc`. */
  method ComputeSectionExtents(s: Section, version: nat, rc: nat) returns (error: LayoutError, s': Section)
    requires ValidElem(s.elem)
    ensures error == SectionFault(s, version) != LayoutConflict
    ensures error == NoError ==> LaidOut(s, s', rc)
    ensures error != NoError ==> s' == s
  {
    s' := s;
    if !s.known {
      return SectionError, s';
    }
    var align := if s.align == 0 then s.elem.fileAlign else s.align;
    if s.content.Described? {
      FaultOfData(s.content.data, version, 0);
      var data, size, largest;
      error, data, size, largest := PlaceData(s.content.data, version);
      if error != NoError {
        return;
      }
      if largest > align {
        align := largest;
      }
      var entsize := if s.entsize == 0 then (if s.elem.fileSize == 1 then 0 else s.elem.fileSize) else s.entsize;
      s' := s.(content := Described(data), size := size, entsize := entsize);
    }
    error := NoError;
    s' := s'.(align := align, offset := RoundUp(rc, align));
  }

  /** Gives each descriptor its offset in the section. */
  method PlaceData(data: seq<Data>, version: nat)
    returns (error: LayoutError, data': seq<Data>, size: nat, largest: nat)
    ensures error == FirstFault(data, version, 0)
    ensures error == NoError ==>
              Placed(data, data') && size == SizeAfter(data, |data|) && largest == LargestAlign(data, |data|)
  {
    hide RoundUp, FileLength, PowerOfTwo, DataFault;
    error, data', size, largest := NoError, data, 0, 0;
    var i := 0;
    while i < |data|
      invariant error == NoError && i <= |data| == |data'|
      invariant FirstFault(data, version, 0) == FirstFault(data, version, i)
      invariant size == SizeAfter(data, i) && largest == LargestAlign(data, i)
      invariant forall k :: 0 <= k < i ==> data'[k] == data[k].(off := OffsetOf(data, k))
    {
      var d := data[i];
      error := CheckData(d, version);
      if error != NoError {
        return;
      }
      size := RoundUp(size, d.align);
      data' := data'[i := d.(off := size)];
      size := size + FileLength(d);
      if d.align > largest {
        largest := d.align;
      }
      i := i + 1;
    }
  }

  method CheckData(d: Data, version: nat) returns (error: LayoutError)
    ensures error == DataFault(d, version)
  {
    if !d.known {
      return DataError;
    }
    if d.version != version {
      return VersionError;
    }
    if d.align == 0 || !PowerOfTwo(d.align) {
      return DataError;
    }
    if d.elem.memSize == 0 || d.size % d.elem.memSize != 0 {
      return DataError;
    }
    error := NoError;
  }

  /** With power-of-two section alignments every descriptor is aligned in the file, too. */
  lemma DescriptorsAlignedInFile(s: Section, s': Section, version: nat, rc: nat, i: nat)
    requires ValidElem(s.elem) && SectionFault(s, version) == NoError && LaidOut(s, s', rc)
    requires s.content.Described? && i < |s.content.data| && PowerOfTwo(BaseAlign(s))
    ensures s.content.data[i].align > 0
    ensures (s'.offset + s'.content.data[i].off) % s.content.data[i].align == 0
  {
    var data, a := s.content.data, s.content.data[i].align;
    NoFaultMeansSound(data, version, 0);
    LargestAlignIsOne(data, |data|);
    assert DataFault(data[i], version) == NoError;
    DescriptorAligned(data, version, i);
    AlignIsPower(s, version);
    PowersDivide(a, FinalAlign(s));
    RoundUpLeast(rc, FinalAlign(s));
    DivisorOfMultiple(s'.offset, FinalAlign(s), a);
    SumOfMultiples(s'.offset, s'.content.data[i].off, a);
  }

  lemma AlignIsPower(s: Section, version: nat)
    requires SectionFault(s, version) == NoError && s.content.Described? && PowerOfTwo(BaseAlign(s))
    ensures PowerOfTwo(FinalAlign(s))
  {
    var data := s.content.data;
    NoFaultMeansSound(data, version, 0);
    LargestAlignIsOne(data, |data|);
    var a := LargestAlign(data, |data|);
    if a > BaseAlign(s) {
      var k :| 0 <= k < |data| && data[k].align == a;
      assert DataFault(data[k], version) == NoError;
    }
  }

  /** Every offset behind a header of `headerSize` bytes that alignment to `a` can yield is a multiple of `f`
      exactly if `a` is one. */
  lemma TypeAlignedIff(headerSize: nat, a: nat, f: nat)
    requires a > 0 && f > 0
    ensures (forall rc: nat :: rc >= headerSize ==> RoundUp(rc, a) % f == 0) <==> a % f == 0
  {
    hide RoundUp;
    if a % f == 0 {
      forall rc: nat ensures RoundUp(rc, a) % f == 0 {
        RoundUpLeast(rc, a);
        DivisorOfMultiple(RoundUp(rc, a), a, f);
      }
    } else {
      NextMultiples(headerSize, a);
      if RoundUp(headerSize * a, a) % f == 0 && RoundUp(headerSize * a + 1, a) % f == 0 {
        DifferenceOfMultiples(headerSize * a + a, headerSize * a, f);
        assert false;
      }
    }
  }

  /** Two places behind the header, and the neighbouring multiples that they are rounded to. */
  lemma NextMultiples(h: nat, a: nat)
    requires a > 0
    ensures h * a >= h && RoundUp(h * a, a) == h * a && RoundUp(h * a + 1, a) == h * a + a
  {
    MulMonotone(1, a, h);
    DivModUnique(h * a + (a - 1), a, h, a - 1);
    Distribute(h, 1, a);
    DivModUnique(h * a + 1 + (a - 1), a, h + 1, 0);
  }

  lemma DifferenceOfMultiples(m: nat, n: nat, f: nat)
    requires f > 0 && n <= m && m % f == 0 && n % f == 0
    ensures (m - n) % f == 0
  {
    var p, q := m / f, n / f;
    assert m == p * f && n == q * f;
    Distribute(p - q, q, f);
    MultipleMod(p - q, f);
  }
}
