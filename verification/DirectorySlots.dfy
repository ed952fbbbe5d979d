/** What adding an entry to a directory and removing one mean for its slots and for scans of them
    (modules/libfat/directory.c). */
module DirectorySlots {
  import opened LongNames
  import opened DirectoryScan

  predicate IsLast(s: Slot) { s[0] == DIR_ENTRY_LAST }
  predicate Free(s: Slot) { s[0] == DIR_ENTRY_FREE }

  /** How many freed slots lie directly before slot `i`. */
  function FreeBefore(slots: seq<Slot>, i: nat): (n: nat)
    requires i <= |slots|
    ensures n <= i && (forall k :: i - n <= k < i ==> Free(slots[k])) && (n < i ==> !Free(slots[i - n - 1]))
  {
    if i > 0 && Free(slots[i - 1]) then 1 + FreeBefore(slots, i - 1) else 0
  }

  /** The number of slots before the first end marker. */
  function UsedSlots(slots: seq<Slot>): (n: nat)
    ensures n <= |slots| && (forall i :: 0 <= i < n ==> !IsLast(slots[i])) && (n < |slots| ==> IsLast(slots[n]))
  {
    if slots == [] || IsLast(slots[0]) then 0 else 1 + UsedSlots(slots[1..])
  }

  lemma {:induction false} UsedSlotsIs(slots: seq<Slot>, n: nat)
    requires n <= |slots| && (forall i :: 0 <= i < n ==> !IsLast(slots[i])) && (n < |slots| ==> IsLast(slots[n]))
    ensures UsedSlots(slots) == n
  {
    if n > 0 {
      assert forall i :: 0 <= i < n - 1 ==> slots[1..][i] == slots[i + 1];
      UsedSlotsIs(slots[1..], n - 1);
    }
  }

  /** The slots with blank ones behind them, as a directory grows. */
  predicate Grown(slots: seq<Slot>, slots': seq<Slot>) {
    slots <= slots' && forall i :: |slots| <= i < |slots'| ==> slots'[i] == BLANK
  }

  /** Nowhere among the first `n` slots are `size` freed ones in a row. */
  predicate NoGap(slots: seq<Slot>, size: nat, n: nat)
    requires n <= |slots|
  {
    forall i :: 0 <= i <= n ==> FreeBefore(slots, i) < size
  }

  /** A gap for `size` slots: the first one that consists of freed slots, or else one that starts at the
      end marker. The latter is short by the freed slots before the marker, and a new marker is behind it. */
  predicate GapFound(slots: seq<Slot>, slots': seq<Slot>, size: nat, start: nat, end: nat) {
    var used := UsedSlots(slots);
    if start < used then
      && slots' == slots && end < used && end == start + size - 1 && (forall i :: start <= i <= end ==> Free(slots[i]))
      && NoGap(slots, size, end)
    else
      && start == used && NoGap(slots, size, used) && end == used + size - 1 - FreeBefore(slots, used)
      && end + 1 < |slots'| && slots'[..used] == slots[..used]
      && (forall i :: used < i <= end + 1 ==> slots'[i] == BLANK)
  }

  /** The slot that is the `i`-th from the end of an entry of `size` slots. */
  predicate SlotOfEntry(s: Slot, name: seq<unit>, size: nat, entry: Slot, i: nat) {
    if i > 1 && size > 1 then Packed(s, name, i - 1, size - 1, Checksum(entry[..11])) else s == entry
  }

  lemma IsSlotOfEntry(s: Slot, name: seq<unit>, size: nat, entry: Slot, i: nat)
    requires if i > 1 then size > 1 && Packed(s, name, i - 1, size - 1, Checksum(entry[..11])) else s == entry
    ensures SlotOfEntry(s, name, size, entry, i)
  {
  }

  /** What adding an entry does. Behind a gap of freed slots nothing changes. At the end of the
      directory the new end marker is kept exactly if no freed slots were directly before the old one. */
  predicate Added(slots: seq<Slot>, slots': seq<Slot>, name: seq<unit>, size: nat, entry: Slot, start: nat) {
    && start <= UsedSlots(slots) && size > 0 && |slots| <= |slots'|
    && (forall i :: 0 <= i < start ==> slots'[i] == slots[i])
    && (forall i :: start <= i < start + size && i < |slots'| ==>
         SlotOfEntry(slots'[i], name, size, entry, start + size - i))
    && (start < UsedSlots(slots) ==> IntoFreed(slots, slots', size, start))
    && (start == UsedSlots(slots) ==>
         MarkerKeptIff(slots, slots', start + size - FreeBefore(slots, start), FreeBefore(slots, start) == 0))
  }

  predicate IntoFreed(slots: seq<Slot>, slots': seq<Slot>, size: nat, start: nat) {
    && start + size <= |slots| == |slots'| && (forall i :: start <= i < start + size ==> Free(slots[i]))
    && forall i :: start + size <= i < |slots| ==> slots'[i] == slots[i]
  }

  predicate MarkerKeptIff(slots: seq<Slot>, slots': seq<Slot>, marker: int, kept: bool) {
    UsedSlots(slots) < marker < |slots'| && (slots'[marker] == BLANK <==> kept)
  }

  lemma AddedIs(slots: seq<Slot>, gap: seq<Slot>, slots': seq<Slot>, name: seq<unit>, size: nat, entry: Slot,
                start: nat, end: nat)
    requires GapFound(slots, gap, size, start, end) && |slots| <= |gap| == |slots'| && size > 0 && IsEntry(entry)
    requires gap[..UsedSlots(slots)] == slots[..UsedSlots(slots)]
    requires forall i :: 0 <= i < |gap| && !(start <= i < start + size) ==> slots'[i] == gap[i]
    requires forall i :: start <= i < start + size && i < |gap| ==>
               SlotOfEntry(slots'[i], name, size, entry, start + size - i)
    ensures Added(slots, slots', name, size, entry, start)
  {
    hide GapFound, NoGap, UsedSlots, SlotOfEntry, FreeBefore, IsEntry, IntoFreed, MarkerKeptIff;
    AddedBefore(slots, gap, slots', size, start, end);
    if start < UsedSlots(slots) {
      AddedIntoFreed(slots, gap, slots', size, start, end);
    } else {
      AddedAtEnd(slots, gap, slots', name, size, entry, start, end);
    }
  }

  lemma AddedBefore(slots: seq<Slot>, gap: seq<Slot>, slots': seq<Slot>, size: nat, start: nat, end: nat)
    requires GapFound(slots, gap, size, start, end) && |slots| <= |gap| == |slots'| && size > 0
    requires gap[..UsedSlots(slots)] == slots[..UsedSlots(slots)]
    requires forall i :: 0 <= i < |gap| && !(start <= i < start + size) ==> slots'[i] == gap[i]
    ensures start <= UsedSlots(slots) && forall i :: 0 <= i < start ==> slots'[i] == slots[i]
  {
    hide UsedSlots, FreeBefore;
    forall i | 0 <= i < start ensures slots'[i] == slots[i] {
      assert gap[i] == gap[..UsedSlots(slots)][i] == slots[..UsedSlots(slots)][i];
    }
  }

  lemma AddedIntoFreed(slots: seq<Slot>, gap: seq<Slot>, slots': seq<Slot>, size: nat, start: nat, end: nat)
    requires GapFound(slots, gap, size, start, end) && |gap| == |slots'| && size > 0 && start < UsedSlots(slots)
    requires forall i :: 0 <= i < |gap| && !(start <= i < start + size) ==> slots'[i] == gap[i]
    ensures IntoFreed(slots, slots', size, start)
  {
    hide UsedSlots, FreeBefore;
  }

  lemma AddedAtEnd(slots: seq<Slot>, gap: seq<Slot>, slots': seq<Slot>, name: seq<unit>, size: nat, entry: Slot,
                   start: nat, end: nat)
    requires GapFound(slots, gap, size, start, end) && |gap| == |slots'| && size > 0 && IsEntry(entry)
             && start == UsedSlots(slots)
    requires forall i :: 0 <= i < |gap| && !(start <= i < start + size) ==> slots'[i] == gap[i]
    requires forall i :: start <= i < start + size && i < |gap| ==>
               SlotOfEntry(slots'[i], name, size, entry, start + size - i)
    ensures MarkerKeptIff(slots, slots', start + size - FreeBefore(slots, start), FreeBefore(slots, start) == 0)
  {
    hide UsedSlots, SlotOfEntry, FreeBefore, IsEntry;
    var marker: nat := start + size - FreeBefore(slots, start);
    if FreeBefore(slots, start) > 0 {
      EntrySlotInUse(slots'[marker], name, size, entry, start + size - marker);
    }
  }

  lemma EntrySlotInUse(s: Slot, name: seq<unit>, size: nat, entry: Slot, i: nat)
    requires SlotOfEntry(s, name, size, entry, i) && IsEntry(entry)
    ensures s != BLANK
  {
  }

  /** Growing does not change the freed slots before a place in the old part. */
  lemma {:induction false} SameFreeBefore(slots: seq<Slot>, slots': seq<Slot>, i: nat)
    requires slots <= slots' && i <= |slots|
    ensures FreeBefore(slots', i) == FreeBefore(slots, i)
  {
    if i > 0 { SameFreeBefore(slots, slots', i - 1); }
  }

  lemma SameGaps(slots: seq<Slot>, slots': seq<Slot>, n: nat)
    requires slots <= slots' && n <= |slots|
    ensures forall i :: 0 <= i <= n ==> FreeBefore(slots', i) == FreeBefore(slots, i)
  {
    forall i | 0 <= i <= n ensures FreeBefore(slots', i) == FreeBefore(slots, i) { SameFreeBefore(slots, slots', i); }
  }

  lemma BlankIsLast(slots: seq<Slot>, n: nat)
    ensures n < |slots| && slots[n] == BLANK ==> IsLast(slots[n])
  {
  }

  /** What the scan for a gap makes of slot `p`: the end marker, a freed slot that counts, or a slot in use. */
  predicate Examined(slots: seq<Slot>, size: nat, p: nat, remain: nat, s': nat, remain': nat, atEnd: bool)
    requires p < |slots|
  {
    && atEnd == IsLast(slots[p])
    && (atEnd ==> s' == p && remain' == remain - 1)
    && (!atEnd ==> remain' == size - FreeBefore(slots, p + 1) && (remain' < size ==> s' == p + 1 - (size - remain')))
  }

  /** The state of that scan at slot `p`, with the gap that starts at `s` still `remain` slots short. */
  predicate Scanning(slots0: seq<Slot>, slots: seq<Slot>, size: nat, s: nat, p: nat, remain: nat, valid: bool,
                     atEnd: bool)
    requires p < |slots|
  {
    && (slots == slots0 || (p == |slots0| && IsLast(slots[p])))
    && NoGap(slots, size, p) && (forall i :: 0 <= i < p ==> !IsLast(slots[i]))
    && (valid && !atEnd && remain > 0 ==>
         remain == size - FreeBefore(slots, p) && (remain < size ==> s == p - (size - remain)))
    && (valid && !atEnd && remain == 0 ==> !IsLast(slots[p]) && size == FreeBefore(slots, p + 1) && s == p + 1 - size)
    && (atEnd ==> valid && p == s && IsLast(slots[p]) && remain == size - FreeBefore(slots, p) - 1)
    && (!valid ==> slots == slots0 && p == |slots| - 1 && !IsLast(slots[p]) && NoGap(slots, size, |slots|))
  }

  lemma ScanningStarts(slots: seq<Slot>, size: nat)
    requires slots != [] && size > 0
    ensures Scanning(slots, slots, size, 0, 0, size, true, false)
  {
    assert FreeBefore(slots, 0) == 0;
  }

  lemma ScanningHere(slots0: seq<Slot>, slots: seq<Slot>, size: nat, s: nat, p: nat, remain: nat)
    requires p < |slots| && Scanning(slots0, slots, size, s, p, remain, true, false) && remain > 0
    ensures remain == size - FreeBefore(slots, p) && (remain < size ==> s == p - (size - remain))
  {
  }

  /** One round of the scan. */
  lemma ScannedOne(slots0: seq<Slot>, before: seq<Slot>, slots: seq<Slot>, size: nat, s0: nat, p0: nat, remain0: nat,
                   s: nat, p: nat, remain: nat, valid: bool, atEnd: bool)
    requires p0 < |before| && p < |slots| && remain0 > 0 && size > 0
    requires Scanning(slots0, before, size, s0, p0, remain0, true, false)
             && Examined(before, size, p0, remain0, s, remain, atEnd)
    requires if atEnd || remain == 0 then slots == before && valid && p == p0
             else if valid then Grown(before, slots) && p == p0 + 1 && (p < |before| ==> slots == before)
             else slots == before && p == p0 && p0 + 1 == |before|
    ensures Scanning(slots0, slots, size, s, p, remain, valid, atEnd)
  {
    hide FreeBefore;
    BlankIsLast(slots, |before|);
    if !atEnd && remain > 0 { SameGaps(before, slots, p0 + 1); }
  }

  lemma ScanFound(slots0: seq<Slot>, slots: seq<Slot>, size: nat, s: nat, p: nat, remain: nat, valid: bool, atEnd: bool)
    requires p < |slots| && Scanning(slots0, slots, size, s, p, remain, valid, atEnd) && Grown(slots0, slots)
    requires !(valid && !atEnd && remain > 0) && size > 0
    ensures valid && atEnd ==>
              && p == s == UsedSlots(slots0) && IsLast(slots[p]) && NoGap(slots0, size, p)
                 && remain == size - FreeBefore(slots0, p) - 1
    ensures valid && !atEnd ==>
              && remain == 0 && slots == slots0 && s + size - 1 == p < UsedSlots(slots)
              && (forall i :: s <= i <= p ==> Free(slots[i])) && NoGap(slots, size, p)
    ensures !valid ==> slots == slots0 && UsedSlots(slots) == |slots| && NoGap(slots, size, |slots|)
  {
    hide FreeBefore, UsedSlots;
    FoundOrNot(slots0, slots, size, valid, p, atEnd, remain);
  }

  /** A gap for `size` slots can be found: there are so many freed slots in a row, or the directory has or
      can have slots for the entry and a new end marker, less the freed slots before the old marker. */
  predicate GapPossible(slots: seq<Slot>, size: nat, room: nat) {
    var used := UsedSlots(slots);
    !NoGap(slots, size, used) || used + size - FreeBefore(slots, used) < room
  }

  lemma RunIsGap(slots: seq<Slot>, size: nat, s: nat, p: nat)
    requires p < UsedSlots(slots) && s + size == p + 1 && forall i :: s <= i <= p ==> Free(slots[i])
    ensures !NoGap(slots, size, UsedSlots(slots))
  {
    hide UsedSlots;
    RunCounted(slots, s, p + 1);
  }

  lemma {:induction false} RunCounted(slots: seq<Slot>, s: nat, n: nat)
    requires s <= n <= |slots| && forall i :: s <= i < n ==> Free(slots[i])
    ensures FreeBefore(slots, n) >= n - s
    decreases n
  {
    if s < n { RunCounted(slots, s, n - 1); }
  }

  lemma FoundOrNot(slots: seq<Slot>, slots': seq<Slot>, size: nat, valid: bool, position: nat, atEnd: bool, remain: nat)
    requires Grown(slots, slots') && position < |slots'| && (slots' == slots || position == |slots|)
    requires NoGap(slots', size, position) && forall i :: 0 <= i < position ==> !IsLast(slots'[i])
    requires atEnd ==> valid && IsLast(slots'[position])
    requires valid && !atEnd ==> !IsLast(slots'[position]) && size == FreeBefore(slots', position + 1)
    requires !valid ==> slots' == slots && position == |slots| - 1 && !IsLast(slots'[position])
    ensures atEnd ==>
              position == UsedSlots(slots) && NoGap(slots, size, position)
              && FreeBefore(slots', position) == FreeBefore(slots, position)
    ensures valid && !atEnd ==>
              slots' == slots && position < UsedSlots(slots) && forall i :: position + 1 - size <= i <= position ==>
                Free(slots'[i])
    ensures !valid ==> UsedSlots(slots) == |slots|
  {
    BlankIsLast(slots', |slots|);
    if atEnd {
      FoundWhere(slots, slots', position, atEnd);
      SameGaps(slots, slots', position);
    } else if valid {
      FoundWhere(slots, slots', position, atEnd);
    } else {
      UsedSlotsIs(slots, |slots|);
    }
  }

  lemma FoundWhere(slots: seq<Slot>, slots': seq<Slot>, position: nat, atEnd: bool)
    requires Grown(slots, slots') && position < |slots'| && forall i :: 0 <= i < position ==> !IsLast(slots'[i])
    requires atEnd == IsLast(slots'[position])
    ensures atEnd ==> position == UsedSlots(slots) && FreeBefore(slots', position) == FreeBefore(slots, position)
    ensures !atEnd ==> position < UsedSlots(slots)
  {
    if |slots| < |slots'| { assert IsLast(slots'[|slots|]); }
    assert position <= |slots|;
    if atEnd {
      UsedSlotsIs(slots, position);
      SameFreeBefore(slots, slots', position);
    } else {
      assert position < |slots|;
    }
  }

  // ----- what a scan makes of it -----

  /** A long-named entry that was added is read back with its name and its slots, whatever the scan
      has seen before; every entry before it scans as before; behind a gap of freed slots every
      scan goes on as before, and at the end of the directory the scan ends behind it. */
  lemma AddedReadsBack(slots: seq<Slot>, slots': seq<Slot>, name: seq<unit>, entry: Slot, start: nat, at: nat, c: Carry)
    requires LongName(name) && IsEntry(entry) && Added(slots, slots', name, SlotsFor(|name|) + 1, entry, start)
    requires start == UsedSlots(slots) ==> FreeBefore(slots, start) == 0
    ensures NextEntry(slots', start, c) == Entry(start, start + SlotsFor(|name|), Long(name), entry)
    ensures NextEntry(slots, at, c).Entry? && NextEntry(slots, at, c).end < start ==>
              NextEntry(slots', at, c) == NextEntry(slots, at, c)
    ensures start < UsedSlots(slots) && start + SlotsFor(|name|) < at <= |slots| ==>
              NextEntry(slots', at, c) == NextEntry(slots, at, c)
    ensures start == UsedSlots(slots) ==> NextEntry(slots', start + SlotsFor(|name|) + 1, c) == NoEntry
  {
    hide UsedSlots, FreeBefore, Packed, IsEntry, AfterLfnSlot, EntryAt;
    var total := SlotsFor(|name|);
    SlotCount(name);
    WrittenEntry(slots, slots', name, entry, start);
    ScanReadsBack(slots', start, name, entry, c);
    if NextEntry(slots, at, c).Entry? && NextEntry(slots, at, c).end < start {
      assert slots[..start] == slots'[..start];
      ScanFrame(slots, slots', at, c, start);
    }
    if start < UsedSlots(slots) && start + total < at <= |slots| {
      assert slots[at..] == slots'[at..];
      ScanTail(slots, slots', at, c);
    }
    if start == UsedSlots(slots) { BlankEndsScan(slots', start + total + 1, c); }
  }

  lemma WrittenEntry(slots: seq<Slot>, slots': seq<Slot>, name: seq<unit>, entry: Slot, start: nat)
    requires LongName(name) && Added(slots, slots', name, SlotsFor(|name|) + 1, entry, start)
    requires start == UsedSlots(slots) ==> FreeBefore(slots, start) == 0
    ensures EntrySlots(slots', start, name, entry)
  {
    hide UsedSlots, FreeBefore, Packed, Checksum;
    SlotCount(name);
    var total := SlotsFor(|name|);
    assert SlotOfEntry(slots'[start + total], name, total + 1, entry, 1);
    forall i | start <= i < start + total
      ensures Packed(slots'[i], name, start + total - i, total, Checksum(entry[..11]))
    {
      assert SlotOfEntry(slots'[i], name, total + 1, entry, start + (total + 1) - i);
    }
  }

  lemma BlankEndsScan(slots: seq<Slot>, at: nat, c: Carry)
    requires at < |slots| && slots[at] == BLANK
    ensures NextEntry(slots, at, c) == NoEntry
  {
  }

  /** The slots of a removed entry. */
  predicate Removed(slots: seq<Slot>, slots': seq<Slot>, start: nat, end: nat) {
    && start <= end < |slots| == |slots'|
    && forall i :: 0 <= i < |slots| ==>
         slots'[i] == if start <= i <= end then slots[i][0 := DIR_ENTRY_FREE] else slots[i]
  }

  /** A scan passes over a removed entry, with no name begun. */
  lemma RemovedIsSkipped(slots: seq<Slot>, slots': seq<Slot>, name: seq<unit>, entry: Slot, a: nat, c: Carry)
    returns (c': Carry)
    requires EntrySlots(slots, a, name, entry) && IsEntry(entry) && Removed(slots, slots', a, a + SlotsFor(|name|))
    ensures !c'.lfnExists && NextEntry(slots', a, c) == NextEntry(slots', a + SlotsFor(|name|) + 1, c')
  {
    SlotCount(name);
    var total := SlotsFor(|name|);
    c' := SkipParts(slots, slots', name, entry, a, a, c);
    assert slots'[a + total] == entry[0 := DIR_ENTRY_FREE];
    PassedOver(slots', a + total, entry, c');
  }

  lemma PassedOver(slots: seq<Slot>, at: nat, entry: Slot, c: Carry)
    requires at < |slots| && IsEntry(entry) && slots[at] == entry[0 := DIR_ENTRY_FREE]
    ensures NextEntry(slots, at, c) == NextEntry(slots, at + 1, c)
  {
  }

  lemma {:induction false} SkipParts(slots: seq<Slot>, slots': seq<Slot>, name: seq<unit>, entry: Slot, a: nat, i: nat,
                                     c: Carry)
    returns (c': Carry)
    requires EntrySlots(slots, a, name, entry) && Removed(slots, slots', a, a + SlotsFor(|name|))
    requires a <= i <= a + SlotsFor(|name|) && (i > a ==> !c.lfnExists)
    ensures NextEntry(slots', i, c) == NextEntry(slots', a + SlotsFor(|name|), c')
    ensures !c'.lfnExists
    decreases a + SlotsFor(|name|) - i
  {
    hide Checksum, IsEntry, EntryAt;
    SlotCount(name);
    var total := SlotsFor(|name|);
    if i == a + total {
      c' := c;
    } else {
      assert Packed(slots[i], name, a + total - i, total, Checksum(entry[..11]));
      DeletedPart(c, slots'[i], i);
      c' := SkipParts(slots, slots', name, entry, a, i + 1, AfterLfnSlot(c, slots'[i], i));
    }
  }

  lemma DeletedPart(c: Carry, s: Slot, at: nat)
    requires s[0] == DIR_ENTRY_FREE
    ensures !AfterLfnSlot(c, s, at).lfnExists
  {
  }
}
