/** Finding a string in a section by its offset (elf_strptr, src/libelf/elf_strptr.c): the search
    counts the bytes of the descriptors again instead of using the offsets that the layout
    stored, and passes over descriptors without bytes. */
module ElfStrptr {
  import opened Bytes
  import opened ElfLayout

  /** A data descriptor as the search sees it. */
  datatype Descriptor = Descriptor(data: Data, isByte: bool)

  /** The place of an offset, an offset in no descriptor, or a descriptor that cannot be searched. */
  datatype Found = InData(index: nat, offset: nat) | BadOffset | BadData

  /** A descriptor that is not passed over. */
  predicate Counted(d: Descriptor) { d.data.hasBuffer && d.data.size > 0 }

  predicate Faulty(d: Descriptor) { Counted(d) && (!d.isByte || (d.data.align > 1 && !PowerOfTwo(d.data.align))) }

  /** The first faulty descriptor from the `i`-th on, or their number. */
  function FirstFaulty(ds: seq<Descriptor>, i: nat): (f: nat)
    requires i <= |ds|
    ensures i <= f <= |ds| && (forall k :: i <= k < f ==> !Faulty(ds[k])) && (f < |ds| ==> Faulty(ds[f]))
    decreases |ds| - i
  {
    if i == |ds| || Faulty(ds[i]) then i else FirstFaulty(ds, i + 1)
  }

  /** The running count before descriptor `i`. */
  function Seen(ds: seq<Descriptor>, i: nat): nat
    requires i <= |ds|
    decreases i, 0
  {
    if i == 0 then 0
    else if !Counted(ds[i - 1]) then Seen(ds, i - 1)
    else SeenAt(ds, i - 1) + ds[i - 1].data.size
  }

  /** Where the search takes descriptor `i` to start. */
  function SeenAt(ds: seq<Descriptor>, i: nat): nat
    requires i < |ds|
    decreases i, 1
  {
    RoundUp(Seen(ds, i), ds[i].data.align)
  }

  predicate SeenInside(ds: seq<Descriptor>, i: nat, offset: nat)
    requires i < |ds|
  {
    Counted(ds[i]) && SeenAt(ds, i) <= offset < SeenAt(ds, i) + ds[i].data.size
  }

  /** The search of a string section of the given size: it finds the descriptor before the first faulty one
      that has the offset by its own count. Else it fails, because of the faulty one if it got there. */
  method Search(ds: seq<Descriptor>, size: nat, offset: nat) returns (found: Found)
    ensures found.InData? ==>
              && offset < size && found.index < FirstFaulty(ds, 0) && SeenInside(ds, found.index, offset)
              && found.offset == offset - SeenAt(ds, found.index)
    ensures !found.InData? && offset < size ==> forall i :: 0 <= i < FirstFaulty(ds, 0) ==> !SeenInside(ds, i, offset)
    ensures found.BadData? <==>
              && offset < size && FirstFaulty(ds, 0) < |ds| && Seen(ds, FirstFaulty(ds, 0)) <= offset
              && forall i :: 0 <= i < FirstFaulty(ds, 0) ==> !SeenInside(ds, i, offset)
  {
    hide RoundUp, PowerOfTwo;
    if offset >= size {
      return BadOffset;
    }
    var i, count := 0, 0;
    while i < |ds| && count <= offset
      invariant i <= FirstFaulty(ds, 0) && FirstFaulty(ds, 0) == FirstFaulty(ds, i) && count == Seen(ds, i)
      invariant forall k :: 0 <= k < i ==> !SeenInside(ds, k, offset)
    {
      var d := ds[i];
      if d.data.hasBuffer && d.data.size != 0 {
        if !d.isByte {
          return BadData;
        }
        NoRounding(count, d.data.align);
        if d.data.align > 1 {
          if !PowerOfTwo(d.data.align) {
            return BadData;
          }
          count := RoundUp(count, d.data.align);
        }
        if offset < count {
          BehindOffset(ds, i, offset);
          return BadOffset;
        }
        if offset < count + d.data.size {
          SeenOnce(ds, i, offset);
          return InData(i, offset - count);
        }
        count := count + d.data.size;
      }
      i := i + 1;
    }
    if i < |ds| { CountPast(ds, i, offset); }
    found := BadOffset;
  }

  lemma NoRounding(count: nat, align: nat)
    ensures align <= 1 ==> RoundUp(count, align) == count
  {
  }

  lemma NotBefore(x: nat, y: nat)
    ensures x <= RoundUp(x, y)
  {
    if y > 0 { RoundUpLeast(x, y); }
  }

  lemma {:induction false} LaterStarts(ds: seq<Descriptor>, i: nat, j: nat)
    requires i <= j <= |ds|
    ensures Seen(ds, i) <= Seen(ds, j) && (j < |ds| ==> Seen(ds, j) <= SeenAt(ds, j))
    ensures i < j && Counted(ds[i]) ==> SeenAt(ds, i) + ds[i].data.size <= Seen(ds, j)
    decreases j
  {
    hide RoundUp;
    if j < |ds| { NotBefore(Seen(ds, j), ds[j].data.align); }
    if i < j { LaterStarts(ds, i, j - 1); }
  }

  /** Behind a hole that the offset lies in, no descriptor starts before it. */
  lemma BehindOffset(ds: seq<Descriptor>, i: nat, offset: nat)
    requires i < |ds| && Counted(ds[i]) && offset < SeenAt(ds, i)
    ensures forall k :: i <= k < |ds| ==> !SeenInside(ds, k, offset)
    ensures forall k :: i < k <= |ds| ==> offset < Seen(ds, k)
  {
    hide RoundUp;
    forall k | i < k <= |ds|
      ensures offset < Seen(ds, k) && (k < |ds| ==> !SeenInside(ds, k, offset))
    {
      LaterStarts(ds, i, k);
    }
  }

  /** No two descriptors have the same offset. */
  lemma SeenOnce(ds: seq<Descriptor>, i: nat, offset: nat)
    requires i < |ds| && SeenInside(ds, i, offset)
    ensures forall k :: i < k <= |ds| ==> offset < Seen(ds, k)
    ensures forall k :: 0 <= k < |ds| && SeenInside(ds, k, offset) ==> k == i
  {
    hide RoundUp;
    forall k | i < k <= |ds|
      ensures offset < Seen(ds, k) && (k < |ds| ==> !SeenInside(ds, k, offset))
    {
      LaterStarts(ds, i, k);
    }
    forall k | 0 <= k < i ensures !SeenInside(ds, k, offset) { LaterStarts(ds, k, i); }
  }

  lemma CountPast(ds: seq<Descriptor>, i: nat, offset: nat)
    requires i < |ds| && offset < Seen(ds, i)
    ensures forall k :: i <= k < |ds| ==> !SeenInside(ds, k, offset)
    ensures forall k :: i <= k <= |ds| ==> offset < Seen(ds, k)
  {
    hide RoundUp;
    forall k | i <= k <= |ds|
      ensures offset < Seen(ds, k) && (k < |ds| ==> !SeenInside(ds, k, offset))
    {
      LaterStarts(ds, i, k);
    }
  }

  // ----- the search and the layout -----

  function DataOf(ds: seq<Descriptor>): (data: seq<Data>)
    ensures |data| == |ds| && forall i :: 0 <= i < |ds| ==> data[i] == ds[i].data
  {
    seq(|ds|, i requires 0 <= i < |ds| => ds[i].data)
  }

  /** Byte data with alignments that the layout accepts. */
  predicate Strings(ds: seq<Descriptor>) {
    forall i :: 0 <= i < |ds| ==>
      && ds[i].isByte && (ds[i].data.size > 0 ==> ds[i].data.hasBuffer)
      && FileLength(ds[i].data) == ds[i].data.size && PowerOfTwo(ds[i].data.align)
  }

  /** The search takes descriptor `i` to start where the layout put it. */
  predicate SamePlace(ds: seq<Descriptor>, i: nat)
    requires i < |ds|
  {
    SeenAt(ds, i) == OffsetOf(DataOf(ds), i)
  }

  /** The largest alignment of descriptor `i` and the empty ones directly before it. */
  function Widest(ds: seq<Descriptor>, i: nat): nat
    requires i < |ds|
  {
    if i > 0 && ds[i - 1].data.size == 0 then Max(ds[i].data.align, Widest(ds, i - 1)) else ds[i].data.align
  }

  /** The empty descriptors before descriptor `i` do not move it. */
  predicate NotMoved(ds: seq<Descriptor>, i: nat)
    requires i < |ds|
  {
    RoundUp(Seen(ds, i), Widest(ds, i)) == RoundUp(Seen(ds, i), ds[i].data.align)
  }

  /** The section's size behind the last descriptor before `i` that is not empty. */
  function SizeBefore(ds: seq<Descriptor>, i: nat): nat
    requires i <= |ds|
  {
    if i == 0 then 0
    else if ds[i - 1].data.size == 0 then SizeBefore(ds, i - 1)
    else SizeAfter(DataOf(ds), i)
  }

  lemma {:induction false} WidestIsPower(ds: seq<Descriptor>, i: nat)
    requires Strings(ds) && i < |ds|
    ensures PowerOfTwo(Widest(ds, i))
  {
    hide PowerOfTwo;
    if i > 0 { WidestIsPower(ds, i - 1); }
  }

  /** Rounding up to two powers of two, one after the other, is rounding up to the larger. */
  lemma RoundUpTwice(x: nat, a: nat, b: nat)
    requires PowerOfTwo(a) && PowerOfTwo(b)
    ensures RoundUp(RoundUp(x, a), b) == RoundUp(x, Max(b, a))
  {
    hide RoundUp, PowerOfTwo;
    PowerIsPositive(a);
    PowerIsPositive(b);
    var y := RoundUp(x, a);
    RoundUpLeast(x, a);
    RoundUpLeast(y, b);
    if a <= b {
      PowersDivide(a, b);
      RoundUpLeast(x, b);
      LargerCovers(x, a, b);
    } else {
      PowersDivide(b, a);
      DivisorOfMultiple(y, a, b);
      AlreadyRound(y, b);
    }
  }

  lemma PowerIsPositive(a: nat)
    requires PowerOfTwo(a)
    ensures a > 0
  {
  }

  lemma AlreadyRound(y: nat, b: nat)
    requires b > 0 && y % b == 0
    ensures RoundUp(y, b) == y
  {
    hide RoundUp;
    RoundUpLeast(y, b);
    assert y == y / b * b;
  }

  /** A multiple that is not smaller is not below the rounded number. */
  lemma MultipleCovers(x: nat, y: nat, m: nat)
    requires y > 0 && x <= m && m % y == 0
    ensures x <= RoundUp(x, y) <= m && RoundUp(x, y) % y == 0
  {
    hide RoundUp;
    RoundUpLeast(x, y);
    assert x <= m / y * y;
  }

  lemma LargerCovers(x: nat, a: nat, b: nat)
    requires a > 0 && b > 0 && b % a == 0
    ensures RoundUp(RoundUp(x, a), b) == RoundUp(x, b)
  {
    hide RoundUp;
    var y, z := RoundUp(x, a), RoundUp(x, b);
    RoundedOnce(x, b);
    DivisorOfMultiple(z, b, a);
    MultipleCovers(x, a, z);
    MultipleCovers(y, b, z);
    MultipleCovers(x, b, RoundUp(y, b));
  }

  lemma RoundedOnce(x: nat, y: nat)
    requires y > 0
    ensures x <= RoundUp(x, y) && RoundUp(x, y) % y == 0
  {
    RoundUpLeast(x, y);
  }

  /** Where the layout puts a descriptor, seen from the last one that is not empty. */
  lemma {:induction false} OffsetIs(ds: seq<Descriptor>, i: nat)
    requires Strings(ds) && i < |ds|
    ensures OffsetOf(DataOf(ds), i) == RoundUp(SizeBefore(ds, i), Widest(ds, i))
  {
    hide RoundUp, PowerOfTwo, FileLength;
    if i > 0 && ds[i - 1].data.size == 0 {
      OffsetIs(ds, i - 1);
      WidestIsPower(ds, i - 1);
      RoundUpTwice(SizeBefore(ds, i - 1), Widest(ds, i - 1), ds[i].data.align);
    }
  }

  /** As long as all places are the same the count is the size of what was laid out. */
  lemma {:induction false} SeenIsSize(ds: seq<Descriptor>, i: nat)
    requires Strings(ds) && i <= |ds| && forall k :: 0 <= k < i && ds[k].data.size > 0 ==> SamePlace(ds, k)
    ensures Seen(ds, i) == SizeBefore(ds, i)
  {
    hide RoundUp, PowerOfTwo, FileLength;
    if i > 0 { SeenIsSize(ds, i - 1); }
  }

  lemma {:induction false} SameIfNotMoved(ds: seq<Descriptor>, i: nat)
    requires Strings(ds) && i <= |ds| && forall k :: 0 <= k < i && ds[k].data.size > 0 ==> NotMoved(ds, k)
    ensures forall k :: 0 <= k < i && ds[k].data.size > 0 ==> SamePlace(ds, k)
  {
    hide SamePlace, NotMoved, Strings;
    if i > 0 {
      SameIfNotMoved(ds, i - 1);
      if ds[i - 1].data.size > 0 { SameNext(ds, i - 1); }
    }
  }

  lemma SameNext(ds: seq<Descriptor>, i: nat)
    requires Strings(ds) && i < |ds| && NotMoved(ds, i) && forall k :: 0 <= k < i && ds[k].data.size > 0 ==>
               SamePlace(ds, k)
    ensures SamePlace(ds, i)
  {
    hide RoundUp, PowerOfTwo, Strings;
    SeenIsSize(ds, i);
    OffsetIs(ds, i);
  }

  /** For byte data the search and the layout agree on where every descriptor with bytes starts, exactly if no
      empty descriptor moves the next one. */
  lemma SearchAgreesIffNotMoved(ds: seq<Descriptor>)
    requires Strings(ds)
    ensures (forall i :: 0 <= i < |ds| && ds[i].data.size > 0 ==> SamePlace(ds, i))
       <==> (forall i :: 0 <= i < |ds| && ds[i].data.size > 0 ==> NotMoved(ds, i))
  {
    hide RoundUp, PowerOfTwo, SamePlace, NotMoved, Strings;
    if forall i :: 0 <= i < |ds| && ds[i].data.size > 0 ==> SamePlace(ds, i) {
      forall i: nat | i < |ds| && ds[i].data.size > 0 ensures NotMoved(ds, i) { NotMovedIfSame(ds, i); }
    }
    if forall i :: 0 <= i < |ds| && ds[i].data.size > 0 ==> NotMoved(ds, i) {
      SameIfNotMoved(ds, |ds|);
    }
  }

  lemma NotMovedIfSame(ds: seq<Descriptor>, i: nat)
    requires Strings(ds) && i < |ds| && forall k :: 0 <= k <= i && ds[k].data.size > 0 ==> SamePlace(ds, k)
    ensures ds[i].data.size > 0 ==> NotMoved(ds, i)
  {
    hide RoundUp, PowerOfTwo;
    SeenIsSize(ds, i);
    OffsetIs(ds, i);
  }

  /** Where the layout put descriptor `i`. */
  predicate Inside(data: seq<Data>, i: nat, offset: nat)
    requires i < |data|
  {
    OffsetOf(data, i) <= offset < OffsetOf(data, i) + FileLength(data[i])
  }

  /** Then they agree on every offset, so that exactly the offsets in holes or past the data are
      refused. */
  lemma SearchAgreesWithLayout(ds: seq<Descriptor>, i: nat, offset: nat)
    requires Strings(ds) && i < |ds|
    requires forall k :: 0 <= k < |ds| && ds[k].data.size > 0 ==> NotMoved(ds, k)
    ensures SeenInside(ds, i, offset) <==> Inside(DataOf(ds), i, offset)
  {
    hide RoundUp, PowerOfTwo;
    SameIfNotMoved(ds, |ds|);
  }

  /** Without empty descriptors that is always so. */
  lemma SearchAgreesWithoutEmpty(ds: seq<Descriptor>, i: nat, offset: nat)
    requires Strings(ds) && i < |ds| && forall k :: 0 <= k < |ds| ==> ds[k].data.size > 0
    ensures SeenInside(ds, i, offset) <==> Inside(DataOf(ds), i, offset)
  {
    hide SeenInside, Inside, Strings;
    forall k: nat | k < |ds| ensures NotMoved(ds, k) { NoneEmptyNotMoved(ds, k); }
    SearchAgreesWithLayout(ds, i, offset);
  }

  lemma NoneEmptyNotMoved(ds: seq<Descriptor>, i: nat)
    requires i < |ds| && forall k :: 0 <= k < i ==> ds[k].data.size > 0
    ensures NotMoved(ds, i)
  {
  }

  function ByteData(align: nat, bytes: seq<byte>): Descriptor {
    Descriptor(Data(true, ElemType(1, 1, 1), 1, align, |bytes|, 0, true, bytes), true)
  }

  /** An empty descriptor with a larger alignment moves what follows it in the layout, but not in the
      search: the byte that the layout put at offset 4 is found at offset 1. */
  lemma EmptyDescriptorDisagrees()
    ensures var ds := [ByteData(1, [7]), ByteData(4, []), ByteData(1, [9])];
            && Strings(ds) && Sound(DataOf(ds), 1)
            && Inside(DataOf(ds), 2, 4) && !SeenInside(ds, 2, 4)
            && SeenInside(ds, 2, 1) && !Inside(DataOf(ds), 2, 1)
  {
    var ds := [ByteData(1, [7]), ByteData(4, []), ByteData(1, [9])];
    var data := DataOf(ds);
    assert PowerOfTwo(4) by { assert PowerOfTwo(2) by { assert PowerOfTwo(1); } }
    assert OffsetOf(data, 0) == 0 && SizeAfter(data, 1) == 1;
    assert OffsetOf(data, 1) == 4 && SizeAfter(data, 2) == 4 && OffsetOf(data, 2) == 4;
    assert SeenAt(ds, 0) == 0 && Seen(ds, 1) == 1 && Seen(ds, 2) == 1 && SeenAt(ds, 2) == 1;
  }
}
