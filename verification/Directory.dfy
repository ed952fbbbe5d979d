/** Directories on the partition: finding a gap, adding and removing entries, and scanning
    (_FAT_directory_findEntryGap, _FAT_directory_addEntry, _FAT_directory_removeEntry and
    _FAT_directory_getNextEntry, modules/libfat/directory.c). Slots are read and written through the cache, and
    clusters are added to the directory's chain. `others` are all other chains of the partition. */
module Directory {
  import opened Arith
  import opened Bytes
  import opened CachePages
  import opened CacheRecency
  import opened FatTable
  import opened DataRegion
  import opened WriteModel
  import opened FileSpec
  import opened LongNames
  import opened DirectoryScan
  import opened DirectorySlots
  import opened DirectoryPosition
  import P = Partition

  /** The slots that a directory has or can have when it takes all free clusters. */
  ghost function SlotRoomOf(g: Geometry, v: seq<byte>, ch: seq<nat>): nat {
    ProductNonNegative(FreeCount(g, v), BytesPerCluster(g) / SLOT_SIZE);
    |SlotsIn(g, v, ch)| + if ch == [] then 0 else FreeCount(g, v) * (BytesPerCluster(g) / SLOT_SIZE)
  }

  /** The result of a scan, with the positions of the entry's first and last slot. */
  datatype Result = Nothing | Found(start: DirPosition, end: DirPosition, name: EntryName, data: Slot) | OutsideBuffer

  class Directory {
    const part: P.Partition
    const start: nat
    ghost var chain: seq<nat>

    ghost predicate Valid(others: set<seq<nat>>)
      reads this, part, part.cache, part.cache.entries, part.cache.disc
    {
      part.Valid() && DirHeld(part.geometry, part.cache.view, others, start, chain)
    }

    ghost function Slots(): seq<Slot>
      reads this, part, part.cache
    {
      SlotsIn(part.geometry, part.cache.view, chain)
    }

    ghost function SlotRoom(): nat
      reads this, part, part.cache
    {
      SlotRoomOf(part.geometry, part.cache.view, chain)
    }

    ghost predicate CanAllocate()
      reads part, part.cache`view
    {
      Searchable(part.geometry, part.cache.view, part.firstFree)
    }

    /** Slot `i` is at this position. */
    ghost predicate Holds(pos: DirPosition, i: int)
      reads this, part
    {
      PlacedAt(part.geometry, chain, pos, i)
    }

    constructor (part: P.Partition, start: nat, ghost chain: seq<nat>, ghost others: set<seq<nat>>)
      requires part.Valid() && DirHeld(part.geometry, part.cache.view, others, start, chain)
      ensures this.part == part && this.start == start && this.chain == chain && Valid(others)
    {
      this.part, this.start, this.chain := part, start, chain;
    }

    /** On to the next slot. PlacedAt the end the directory grows if it is allowed to and can. */
    method Increment(pos: DirPosition, extend: bool, ghost others: set<seq<nat>>, ghost i: int)
      returns (ok: bool, next: DirPosition)
      requires Valid(others) && Holds(pos, i) && i >= -1 && (extend ==> CanAllocate())
      modifies this`chain, part, part.cache, part.cache.entries, part.cache.disc
      ensures Valid(others) && OthersKept(part.geometry, old(part.cache.view), part.cache.view, others)
      ensures old(chain) <= chain && (old(chain) == [] ==> chain == [])
      ensures Grown(old(Slots()), Slots()) && SlotRoom() == old(SlotRoom()) >= |Slots()|
      ensures ok == (i + 1 < if extend then old(SlotRoom()) else |old(Slots())|)
      ensures if ok then Holds(next, i + 1) && i + 1 < |Slots()| else next == pos && i + 1 == |Slots()|
      ensures !extend || i + 1 < |old(Slots())| || !ok ==> Slots() == old(Slots()) && chain == old(chain)
      ensures i + 1 == |old(Slots())| && ok ==> Slots() != old(Slots())
      ensures ok && extend ==> CanAllocate()
    {
      hide DirHeld, PlacedAt, SlotsIn, Searchable, OthersKept, Extended, SlotRoomOf, Coherent, Recent, ValidGeometry,
        IsImage, Grown;
      ghost var v := part.cache.view;
      HeldKept(part, others, start, chain);
      if i >= 0 { AtInside(part, others, start, chain, pos, i); }
      ghost var ch;
      ok, next, ch := Step(part, pos, extend, others, start, chain, i);
      Stepped(part, v, others, start, chain, ch, next, i, ok, extend);
      chain := ch;
    }

    method Read(pos: DirPosition, ghost others: set<seq<nat>>, ghost i: nat) returns (s: Slot)
      requires Valid(others) && Holds(pos, i)
      modifies part.cache`accessCounter, part.cache`ticks, part.cache`touched, part.cache.entries, part.cache.disc
      ensures Valid(others) && i < |Slots()| && s == Slots()[i]
    {
      hide DirHeld, PlacedAt, SlotsIn, Coherent, Recent, ValidGeometry, IsImage;
      s := ReadSlot(part, pos, others, start, chain, i);
    }

    method Write(pos: DirPosition, s: Slot, ghost others: set<seq<nat>>, ghost i: nat)
      requires Valid(others) && Holds(pos, i)
      modifies part.cache, part.cache.entries, part.cache.disc
      ensures Valid(others) && OthersKept(part.geometry, old(part.cache.view), part.cache.view, others)
      ensures i < |old(Slots())| && Slots() == old(Slots())[i := s] && SlotRoom() == old(SlotRoom())
      ensures old(CanAllocate()) ==> CanAllocate()
    {
      hide DirHeld, PlacedAt, SlotsIn, Searchable, OthersKept, SlotRoomOf, Coherent, Recent, ValidGeometry, IsImage;
      ghost var v := part.cache.view;
      WriteSlot(part, pos, s, others, start, chain, i);
      TableKept(part.geometry, v, part.cache.view, others, chain, part.firstFree);
      SameRoom(part.geometry, v, part.cache.view, chain);
    }

    /** The scan for a gap. It ends at an end marker or after enough freed slots in a row. */
    method FindFree(size: nat, ghost others: set<seq<nat>>)
      returns (valid: bool, gapStart: DirPosition, position: DirPosition, atEnd: bool, remain: nat, ghost s: nat,
          ghost p: nat)
      requires Valid(others) && CanAllocate() && size > 0
      modifies this`chain, part, part.cache, part.cache.entries, part.cache.disc
      ensures Valid(others) && OthersKept(part.geometry, old(part.cache.view), part.cache.view, others)
      ensures Grown(old(Slots()), Slots()) && SlotRoom() == old(SlotRoom())
      ensures valid ==> CanAllocate() && p < |Slots()| && remain <= size && Holds(gapStart, s) && Holds(position, p)
      ensures valid && atEnd ==>
                && p == s == UsedSlots(old(Slots())) && IsLast(Slots()[p]) && NoGap(old(Slots()), size, p)
                && remain == size - FreeBefore(old(Slots()), p) - 1
      ensures valid && !atEnd ==>
                && remain == 0 && Slots() == old(Slots()) && s + size - 1 == p < UsedSlots(Slots())
                && (forall i :: s <= i <= p ==> Free(Slots()[i])) && NoGap(Slots(), size, p)
      ensures !valid ==>
                && |Slots()| == SlotRoom() && Slots() == old(Slots()) && UsedSlots(Slots()) == |Slots()|
                   && NoGap(Slots(), size, |Slots()|)
    {
      hide DirHeld, PlacedAt, SlotsIn, Searchable, OthersKept, SlotRoomOf, Coherent, Recent, ValidGeometry, IsImage,
        FreeBefore, UsedSlots, Free, IsLast, NoGap, Scanning;
      HeldKept(part, others, start, chain);
      position := DirPosition(start, 0, 0);
      gapStart, valid, atEnd, remain, s, p := position, true, false, size, 0, 0;
      ScanningStarts(Slots(), size);
      while valid && !atEnd && remain > 0
        invariant Valid(others) && p < |Slots()| && Holds(position, p) && Holds(gapStart, s)
        invariant OthersKept(part.geometry, old(part.cache.view), part.cache.view, others)
        invariant Grown(old(Slots()), Slots()) && remain <= size && SlotRoom() == old(SlotRoom()) >= |Slots()|
        invariant Scanning(old(Slots()), Slots(), size, s, p, remain, valid, atEnd)
        invariant valid ==> CanAllocate()
        invariant !valid ==> |Slots()| == SlotRoom()
        decreases !atEnd, valid, SlotRoom() - p, remain
      {
        var data := Read(position, others, p);
        ghost var before, v, ch, s0 := Slots(), part.cache.view, chain, s;
        ScanningHere(old(Slots()), before, size, s, p, remain);
        ghost var p0, remain0 := p, remain;
        gapStart, remain, atEnd, s := ExamineSlot(size, data, position, gapStart, remain, before, p, s);
        if !atEnd && remain > 0 {
          valid, position := Increment(position, true, others, p);
          AtGrows(part.geometry, ch, chain, gapStart, s);
          OthersKeptThen(part.geometry, old(part.cache.view), v, part.cache.view, others);
          if valid { p := p + 1; }
        }
        ScannedOne(old(Slots()), before, Slots(), size, s0, p0, remain0, s, p, remain, valid, atEnd);
      }
      ScanFound(old(Slots()), Slots(), size, s, p, remain, valid, atEnd);
    }

    /** One slot of the scan for a gap: an end marker ends it, a freed slot counts, any other starts over. */
    method ExamineSlot(size: nat, data: Slot, position: DirPosition, gapStart: DirPosition, remain: nat,
                       ghost slots: seq<Slot>, ghost p: nat, ghost s: nat)
      returns (gapStart': DirPosition, remain': nat, atEnd: bool, ghost s': nat)
      requires p < |slots| && data == slots[p] && Holds(position, p) && Holds(gapStart, s)
      requires 0 < remain == size - FreeBefore(slots, p) && (remain < size ==> s == p - (size - remain))
      ensures Holds(gapStart', s') && Examined(slots, size, p, remain, s', remain', atEnd)
    {
      hide PlacedAt;
      gapStart', remain', atEnd, s' := gapStart, remain, false, s;
      if data[0] == DIR_ENTRY_LAST {
        gapStart', remain', atEnd, s' := position, remain - 1, true, p;
      } else if data[0] == DIR_ENTRY_FREE {
        if remain == size {
          gapStart', s' := position, p;
        }
        remain' := remain - 1;
      } else {
        remain' := size;
      }
    }

    /** Blank slots behind the end marker: as many as asked for, and the position of the last but one. */
    method BlankBehind(position: DirPosition, count: nat, ghost others: set<seq<nat>>, ghost p: nat)
      returns (ok: bool, end: DirPosition, ghost e: nat)
      requires Valid(others) && CanAllocate() && Holds(position, p) && p < |Slots()| && IsLast(Slots()[p]) && count > 0
      modifies this`chain, part, part.cache, part.cache.entries, part.cache.disc
      ensures Valid(others) && OthersKept(part.geometry, old(part.cache.view), part.cache.view, others)
      ensures old(chain) <= chain && (old(chain) == [] ==> chain == [])
      ensures p < |old(Slots())| <= |Slots()| && Slots()[..p] == old(Slots())[..p] && SlotRoom() == old(SlotRoom())
      ensures ok == (p + count < old(SlotRoom()))
      ensures ok ==>
                Holds(end, e) && e == p + count - 1 && e + 1 < |Slots()| && forall i :: p < i <= e + 1 ==>
                  Slots()[i] == BLANK
    {
      hide DirHeld, PlacedAt, SlotsIn, Searchable, OthersKept, SlotRoomOf, Coherent, Recent, ValidGeometry, IsImage,
        IsLast;
      HeldKept(part, others, start, chain);
      var gapEnd, left := position, count;
      ghost var q := p;
      ok, end, e := true, position, p;
      AtInside(part, others, start, chain, position, p);
      while left > 0 && ok
        invariant Valid(others) && left <= count && p <= q < |Slots()| && Holds(gapEnd, q) && Holds(end, e)
        invariant OthersKept(part.geometry, old(part.cache.view), part.cache.view, others)
        invariant old(chain) <= chain && (old(chain) == [] ==> chain == [])
        invariant p < |old(Slots())| <= |Slots()| <= SlotRoom() == old(SlotRoom())
        invariant forall i :: 0 <= i < p ==> Slots()[i] == old(Slots())[i]
        invariant ok ==> CanAllocate() && q == p + (count - left) && forall i :: p < i <= q ==> Slots()[i] == BLANK
        invariant ok && left < count ==> e + 1 == q
        invariant !ok ==> p + count >= SlotRoom()
        decreases ok, left
      {
        end, e := gapEnd, q;
        ghost var v, ch := part.cache.view, chain;
        ok, gapEnd := Increment(gapEnd, true, others, q);
        left := left - 1;
        if ok { q := q + 1; }
        AtGrows(part.geometry, ch, chain, end, e);
        if !ok { AtGrows(part.geometry, ch, chain, gapEnd, q); }
        OthersKeptThen(part.geometry, old(part.cache.view), v, part.cache.view, others);
        v := part.cache.view;
        Write(gapEnd, BLANK, others, q);
        OthersKeptThen(part.geometry, old(part.cache.view), v, part.cache.view, others);
      }
    }

    /** The search for a gap of `size` slots. It succeeds exactly if there are so many freed slots in a row or the
        directory has or can have room for the entry, less the freed slots before the end marker, and a new marker. */
    method FindEntryGap(size: nat, ghost others: set<seq<nat>>)
      returns (ok: bool, gapStart: DirPosition, end: DirPosition, ghost s: nat, ghost e: nat)
      requires Valid(others) && CanAllocate() && size > 0
      modifies this`chain, part, part.cache, part.cache.entries, part.cache.disc
      ensures Valid(others) && OthersKept(part.geometry, old(part.cache.view), part.cache.view, others)
      ensures |old(Slots())| <= |Slots()| && SlotRoom() == old(SlotRoom())
      ensures Slots()[..UsedSlots(old(Slots()))] == old(Slots())[..UsedSlots(old(Slots()))]
      ensures ok == GapPossible(old(Slots()), size, old(SlotRoom()))
      ensures ok ==> GapFound(old(Slots()), Slots(), size, s, e) && Holds(gapStart, s) && Holds(end, e)
    {
      hide DirHeld, PlacedAt, SlotsIn, Searchable, OthersKept, SlotRoomOf, Coherent, Recent, ValidGeometry, IsImage,
        FreeBefore, UsedSlots, Free, IsLast;
      var position, atEnd, remain;
      ghost var p;
      ok, gapStart, position, atEnd, remain, s, p := FindFree(size, others);
      end, e := position, p;
      if !ok {
        return;
      }
      if atEnd {
        ghost var v, ch := part.cache.view, chain;
        ok, end, e := BlankBehind(position, remain + 1, others, p);
        AtGrows(part.geometry, ch, chain, gapStart, s);
        OthersKeptThen(part.geometry, old(part.cache.view), v, part.cache.view, others);
      } else {
        RunIsGap(Slots(), size, s, p);
      }
    }

    /** Writes an entry's slots, the last part of the name first, until the directory ends. */
    method WriteEntry(name: seq<unit>, size: nat, entry: Slot, position: DirPosition, ghost others: set<seq<nat>>,
                      ghost s: nat)
      requires Valid(others) && Holds(position, s) && (size == 1 || (LongName(name) && size == SlotsFor(|name|) + 1))
      modifies this`chain, part, part.cache, part.cache.entries, part.cache.disc
      ensures Valid(others) && OthersKept(part.geometry, old(part.cache.view), part.cache.view, others)
      ensures chain == old(chain) && |Slots()| == |old(Slots())| && SlotRoom() == old(SlotRoom())
      ensures forall i :: 0 <= i < |Slots()| && !(s <= i < s + size) ==> Slots()[i] == old(Slots())[i]
      ensures forall i :: s <= i < s + size && i < |Slots()| ==>
                SlotOfEntry(Slots()[i], name, size, entry, s + size - i)
    {
      hide DirHeld, PlacedAt, SlotsIn, Searchable, OthersKept, SlotRoomOf, Coherent, Recent, ValidGeometry, IsImage,
        SlotOfEntry, LongNames.Packed, Grown;
      HeldKept(part, others, start, chain);
      AtInside(part, others, start, chain, position, s);
      var pos, i: nat, valid := position, size, true;
      ghost var p := s;
      var sum := Checksum(entry[..11]);
      while valid && i > 0
        invariant Valid(others) && chain == old(chain) && |Slots()| == |old(Slots())| && SlotRoom() == old(SlotRoom())
        invariant OthersKept(part.geometry, old(part.cache.view), part.cache.view, others)
        invariant p < |Slots()| && Holds(pos, p) && i <= size
        invariant if valid then p == s + size - i || i == 0 else s + size - i >= |Slots()|
        invariant forall k :: 0 <= k < |Slots()| && !(s <= k < s + size - i) ==> Slots()[k] == old(Slots())[k]
        invariant forall k :: s <= k < s + size - i && k < |Slots()| ==>
                    SlotOfEntry(Slots()[k], name, size, entry, s + size - k)
        decreases i
      {
        var data := entry;
        if i > 1 {
          data := PackSlot(name, i - 1, size - 1, sum);
        }
        IsSlotOfEntry(data, name, size, entry, i);
        ghost var v := part.cache.view;
        Write(pos, data, others, p);
        OthersKeptThen(part.geometry, old(part.cache.view), v, part.cache.view, others);
        v := part.cache.view;
        valid, pos := Increment(pos, false, others, p);
        OthersKeptThen(part.geometry, old(part.cache.view), v, part.cache.view, others);
        i := i - 1;
        if valid { p := p + 1; }
      }
    }

    /** Adds an entry: its slots go into the gap that is found for them. */
    method AddEntry(name: seq<unit>, isLong: bool, entry: Slot, ghost others: set<seq<nat>>)
      returns (ok: bool, position: DirPosition, ghost s: nat)
      requires Valid(others) && CanAllocate() && (isLong ==> LongName(name)) && IsEntry(entry)
      modifies this`chain, part, part.cache, part.cache.entries, part.cache.disc
      ensures Valid(others) && OthersKept(part.geometry, old(part.cache.view), part.cache.view, others)
      ensures ok == GapPossible(old(Slots()), if isLong then SlotsFor(|name|) + 1 else 1, old(SlotRoom()))
      ensures |old(Slots())| <= |Slots()| && SlotRoom() == old(SlotRoom())
      ensures !ok ==> Slots()[..UsedSlots(old(Slots()))] == old(Slots())[..UsedSlots(old(Slots()))]
      ensures ok ==>
                Holds(position, s)
                && Added(old(Slots()), Slots(), name, if isLong then SlotsFor(|name|) + 1 else 1, entry, s)
    {
      hide DirHeld, PlacedAt, SlotsIn, Searchable, OthersKept, SlotRoomOf, Coherent, Recent, ValidGeometry, IsImage,
        SlotOfEntry, Added, GapFound, GapPossible, UsedSlots;
      var size := if isLong then SlotsFor(|name|) + 1 else 1;
      var end;
      ghost var e, before := 0, Slots();
      ok, position, end, s, e := FindEntryGap(size, others);
      if ok {
        ghost var gap, v := Slots(), part.cache.view;
        WriteEntry(name, size, entry, position, others, s);
        OthersKeptThen(part.geometry, old(part.cache.view), v, part.cache.view, others);
        AddedIs(before, gap, Slots(), name, size, entry, s, e);
      }
    }

    /** Marks the slots of an entry as free. The result is false, though the slots are freed, for an
        entry in the very last slot of the directory. */
    method RemoveEntry(first: DirPosition, last: DirPosition, ghost others: set<seq<nat>>, ghost s: nat, ghost e: nat)
      returns (ok: bool)
      requires Valid(others) && Holds(first, s) && Holds(last, e) && s <= e
      modifies this`chain, part, part.cache, part.cache.entries, part.cache.disc
      ensures Valid(others) && OthersKept(part.geometry, old(part.cache.view), part.cache.view, others)
      ensures chain == old(chain) && ok == (e + 1 < |old(Slots())|) && Removed(old(Slots()), Slots(), s, e)
    {
      hide DirHeld, PlacedAt, SlotsIn, Searchable, OthersKept, SlotRoomOf, Coherent, Recent, ValidGeometry, IsImage,
        Grown;
      HeldKept(part, others, start, chain);
      AtInside(part, others, start, chain, first, s);
      AtInside(part, others, start, chain, last, e);
      var pos, finished := first, false;
      ghost var p := s;
      ok := true;
      while ok && !finished
        invariant Valid(others) && chain == old(chain) && |Slots()| == |old(Slots())| && p < |Slots()| && Holds(pos, p)
        invariant OthersKept(part.geometry, old(part.cache.view), part.cache.view, others)
        invariant !finished ==> ok && s <= p <= e
        invariant finished ==> ok == (e + 1 < |Slots()|)
        invariant forall i :: 0 <= i < |Slots()| ==>
                    Slots()[i] == if s <= i <= e && (finished || i < p) then old(Slots())[i][0 := DIR_ENTRY_FREE]
                        else old(Slots())[i]
        decreases !finished, e - p
      {
        ghost var v := part.cache.view;
        var data := Read(pos, others, p);
        Write(pos, data[0 := DIR_ENTRY_FREE], others, p);
        OthersKeptThen(part.geometry, old(part.cache.view), v, part.cache.view, others);
        HeldOnce(part, others, start, chain, pos, p, last, e);
        if pos == last {
          finished := true;
        }
        v := part.cache.view;
        ok, pos := Increment(pos, false, others, p);
        OthersKeptThen(part.geometry, old(part.cache.view), v, part.cache.view, others);
        if ok { p := p + 1; }
      }
    }

    /** The scan loop, from the slot behind `after`. At the end of the directory the last slot is looked at
        once more, to no effect. */
    method GetNextEntry(after: DirPosition, lfn: Buffer, ghost others: set<seq<nat>>, ghost i: int)
      returns (r: Result, ghost s: nat, ghost e: nat)
      requires Valid(others) && Holds(after, i) && i >= -1
      modifies this`chain, part, part.cache, part.cache.entries, part.cache.disc
      ensures Valid(others) && chain == old(chain) && Slots() == old(Slots())
      ensures OthersKept(part.geometry, old(part.cache.view), part.cache.view, others)
      ensures match NextEntry(old(Slots()), i + 1, Carry(0, false, lfn, 0))
              case NoEntry => r.Nothing?
              case Overrun => r.OutsideBuffer?
              case Entry(first, last, name, data) =>
                r.Found? && r.name == name && r.data == data && first == s && last == e && Holds(r.start, s)
                    && Holds(r.end, e)
    {
      hide DirHeld, PlacedAt, SlotsIn, Searchable, OthersKept, SlotRoomOf, Coherent, Recent, ValidGeometry, IsImage,
        Grown, Begun, AfterLfnSlot, LeavesBuffer, NameIn, Checksum;
      HeldKept(part, others, start, chain);
      ghost var slots, p: int := Slots(), i;
      if i >= 0 { AtInside(part, others, start, chain, after, i); }
      var entryStart, entryEnd, notFound := after, after, false;
      var lfnExists, buffer, sum: byte := false, lfn, 0;
      s, e, r := 0, 0, Nothing;
      while !notFound
        invariant Valid(others) && chain == old(chain) && Slots() == slots && Holds(entryEnd, p) && -1 <= p < |slots|
        invariant OthersKept(part.geometry, old(part.cache.view), part.cache.view, others)
        invariant lfnExists ==> Holds(entryStart, s)
        invariant r == Nothing && NextEntry(slots, i + 1, Carry(0, false, lfn, 0))
                               == if notFound then NoEntry
                                  else NextEntry(slots, p + 1, Carry(s, lfnExists, buffer, sum))
        decreases !notFound, |slots| - p
      {
        var ok;
        ghost var v := part.cache.view;
        ok, entryEnd := Increment(entryEnd, false, others, p);
        OthersKeptThen(part.geometry, old(part.cache.view), v, part.cache.view, others);
        if ok { p := p + 1; } else { notFound := true; }
        var data := Read(entryEnd, others, p);
        if !notFound && IsLfnSlot(data) {
          var begins, outside;
          ghost var c := Carry(s, lfnExists, buffer, sum);
          begins, lfnExists, buffer, sum, outside := TakeLfnSlot(data, lfnExists, buffer, sum, c, p);
          if outside {
            return OutsideBuffer, s, e;
          }
          if begins { entryStart, s := entryEnd, p; }
        } else if !notFound && !IsVolume(data) {
          if data[0] == DIR_ENTRY_LAST {
            notFound := true;
          } else if data[0] != DIR_ENTRY_FREE && data[0] > 0x20 {
            if lfnExists && Checksum(data[..11]) != sum {
              lfnExists := false;
            }
            if !lfnExists {
              entryStart, s := entryEnd, p;
            }
            return Found(entryStart, entryEnd, if lfnExists then Long(NameIn(buffer)) else Short(data[..11]), data), s,
                p;
          }
        }
      }
    }
  }

  /** Takes in one slot of a long name; `begins` says that it is the last part, which comes first. */
  method TakeLfnSlot(data: Slot, lfnExists: bool, lfn: Buffer, sum: byte, ghost c: Carry, ghost at: nat)
    returns (begins: bool, lfnExists': bool, lfn': Buffer, sum': byte, outside: bool)
    requires c.lfnExists == lfnExists && c.lfn == lfn && c.sum == sum
    ensures outside == LeavesBuffer(Begun(c, data, at), data) && (lfnExists' ==> begins || lfnExists)
    ensures !outside ==> AfterLfnSlot(c, data, at) == Carry(if begins then at else c.start, lfnExists', lfn', sum')
  {
    begins, lfnExists', lfn', sum', outside := false, lfnExists, lfn, sum, false;
    var ordinal := data[0];
    if Bit(ordinal, LFN_DEL) {
      lfnExists' := false;
    } else if Bit(ordinal, LFN_END) {
      begins, lfnExists' := true, true;
      var end := OrdinalPart(ordinal) * LFN_ENTRY_LENGTH;
      if end > MAX_LFN_LENGTH - 1 {
        end := MAX_LFN_LENGTH - 1;
      }
      lfn' := lfn'[end := 0];
      sum' := data[OFFSET_CHECKSUM];
    }
    if sum' != data[OFFSET_CHECKSUM] {
      lfnExists' := false;
    }
    if lfnExists' {
      var n := OrdinalPart(ordinal);
      if n < 1 || n > MOST_PARTS {
        outside := true;
      } else {
        lfn' := StoreUnits(lfn', data, (n - 1) * LFN_ENTRY_LENGTH);
      }
    }
  }

  /** Stores the units of a slot in the buffer. */
  method StoreUnits(lfn: Buffer, data: Slot, at: nat) returns (lfn': Buffer)
    requires at + LFN_ENTRY_LENGTH <= MAX_LFN_LENGTH
    ensures lfn' == WithUnits(lfn, data, at)
  {
    hide UnitOf;
    lfn' := lfn;
    for i := 0 to LFN_ENTRY_LENGTH
      invariant forall k :: 0 <= k < MAX_LFN_LENGTH ==>
                  lfn'[k] == if at <= k < at + i then UnitOf(data, k - at) else lfn[k]
    {
      lfn' := lfn'[at + i := UnitOf(data, i)];
    }
  }

  // ----- what the steps mean -----

  lemma HeldOnce(part: P.Partition, others: set<seq<nat>>, start: nat, ch: seq<nat>, pos: DirPosition, i: nat,
                 pos': DirPosition, j: nat)
    requires part.Valid() && DirHeld(part.geometry, part.cache.view, others, start, ch)
    requires PlacedAt(part.geometry, ch, pos, i) && PlacedAt(part.geometry, ch, pos', j)
    ensures pos == pos' <==> i == j
  {
    hide DirHeld, PlacedAt;
    HeldImage(part.geometry, part.cache.view, others, start, ch);
    OnePosition(part.geometry, ch, pos, i, pos', j);
  }

  lemma HeldKept(part: P.Partition, others: set<seq<nat>>, start: nat, ch: seq<nat>)
    requires part.Valid() && DirHeld(part.geometry, part.cache.view, others, start, ch)
    ensures OthersKept(part.geometry, part.cache.view, part.cache.view, others)
    ensures |SlotsIn(part.geometry, part.cache.view, ch)| > 0
    ensures PlacedAt(part.geometry, ch, DirPosition(start, 0, 0), 0)
    ensures |SlotsIn(part.geometry, part.cache.view, ch)| <= SlotRoomOf(part.geometry, part.cache.view, ch)
  {
    hide DirHeld, SlotsIn, FreeCount;
    OthersSame(part.geometry, part.cache.view, others);
    SlotCountIs(part.geometry, part.cache.view, others, start, ch);
    AtFirst(part.geometry, part.cache.view, others, start, ch);
    RoomIsMore(part.geometry, part.cache.view, ch);
  }

  lemma RoomIsMore(g: Geometry, v: seq<byte>, ch: seq<nat>)
    ensures |SlotsIn(g, v, ch)| <= SlotRoomOf(g, v, ch)
  {
    hide SlotsIn, FreeCount;
    ProductNonNegative(FreeCount(g, v), BytesPerCluster(g) / SLOT_SIZE);
  }

  lemma AtInside(part: P.Partition, others: set<seq<nat>>, start: nat, ch: seq<nat>, pos: DirPosition, i: nat)
    requires part.Valid() && DirHeld(part.geometry, part.cache.view, others, start, ch)
             && PlacedAt(part.geometry, ch, pos, i)
    ensures i < |SlotsIn(part.geometry, part.cache.view, ch)| <= SlotRoomOf(part.geometry, part.cache.view, ch)
  {
    hide DirHeld, PlacedAt, SlotsIn;
    SlotPlace(part.geometry, part.cache.view, others, start, ch, pos, i);
    RoomIsMore(part.geometry, part.cache.view, ch);
  }

  lemma SameRoom(g: Geometry, v: seq<byte>, v': seq<byte>, ch: seq<nat>)
    requires SameTable(g, v, v') && |SlotsIn(g, v', ch)| == |SlotsIn(g, v, ch)|
    ensures SlotRoomOf(g, v', ch) == SlotRoomOf(g, v, ch)
  {
    hide SlotsIn;
  }

  lemma Stepped(part: P.Partition, v: seq<byte>, others: set<seq<nat>>, start: nat, ch: seq<nat>, ch': seq<nat>,
                next: DirPosition, i: int, ok: bool, extend: bool)
    requires part.Valid() && DirHeld(part.geometry, v, others, start, ch)
             && DirHeld(part.geometry, part.cache.view, others, start, ch') && i >= -1
    requires i < |SlotsIn(part.geometry, v, ch)|
    requires ok == (i + 1 < |SlotsIn(part.geometry, v, ch)| || (extend && ch != [] && FreeCount(part.geometry, v) > 0))
    requires ok ==> PlacedAt(part.geometry, ch', next, i + 1)
    requires ch' == ch ==> part.cache.view == v
    requires ch' != ch ==>
               ok && extend && i + 1 == |SlotsIn(part.geometry, v, ch)|
                   && Extended(part.geometry, v, ch, part.cache.view, ch', others)
    ensures OthersKept(part.geometry, v, part.cache.view, others) && ch <= ch' && (ch == [] ==> ch' == [])
    ensures Grown(SlotsIn(part.geometry, v, ch), SlotsIn(part.geometry, part.cache.view, ch'))
    ensures SlotRoomOf(part.geometry, part.cache.view, ch') == SlotRoomOf(part.geometry, v, ch)
    ensures |SlotsIn(part.geometry, part.cache.view, ch')| <= SlotRoomOf(part.geometry, part.cache.view, ch')
    ensures ok == (i + 1 < if extend then SlotRoomOf(part.geometry, v, ch) else |SlotsIn(part.geometry, v, ch)|)
    ensures ok ==> i + 1 < |SlotsIn(part.geometry, part.cache.view, ch')|
    ensures ch' != ch ==> SlotsIn(part.geometry, part.cache.view, ch') != SlotsIn(part.geometry, v, ch)
    ensures i + 1 == |SlotsIn(part.geometry, v, ch)| && ok ==> ch' != ch
  {
    hide DirHeld, SlotsIn, FreeCount, PlacedAt, BytesPerCluster, OthersKept, Coherent, Recent;
    var g := part.geometry;
    HeldKept(part, others, start, ch');
    HeldImage(g, v, others, start, ch);
    SlotsPerCluster(g);
    RoomIsMore(g, v, ch);
    var n := BytesPerCluster(g) / SLOT_SIZE;
    if ok { SlotPlace(g, part.cache.view, others, start, ch', next, i + 1); }
    if FreeCount(g, v) > 0 { MulMonotone(1, FreeCount(g, v), n); Distribute(FreeCount(g, v) - 1, 1, n); }
  }

  lemma SlotsPerCluster(g: Geometry)
    requires ValidGeometry(g)
    ensures BytesPerCluster(g) / SLOT_SIZE > 0
  {
    ClusterSizes(g);
  }
}
