/** Scanning a directory's slots for its entries (_FAT_directory_getNextEntry,
    modules/libfat/directory.c). */
module DirectoryScan {
  import opened Bytes
  import opened LongNames

  function Bit(x: nat, weight: nat): bool
    requires weight > 0
  {
    x / weight % 2 == 1
  }

  predicate IsVolume(s: Slot) { Bit(s[OFFSET_ATTRIBUTES], 0x08) }

  /** An entry's own slot: its alias and file data. */
  predicate IsEntry(s: Slot) {
    !IsLfnSlot(s) && !IsVolume(s) && s[0] != DIR_ENTRY_LAST && s[0] != DIR_ENTRY_FREE && s[0] > 0x20
  }

  predicate EndsScan(s: Slot) { !IsLfnSlot(s) && !IsVolume(s) && s[0] == DIR_ENTRY_LAST }

  /** What a scan remembers: where the entry it is in started, whether a long name is being collected,
      the collected units, and the checksum they came with. */
  datatype Carry = Carry(start: nat, lfnExists: bool, lfn: Buffer, sum: byte)

  datatype EntryName = Long(units: seq<unit>) | Short(alias: seq<byte>)

  /** A scan ends without an entry, with one, or by storing units outside its buffer. */
  datatype Scanned = NoEntry | Entry(start: nat, end: nat, name: EntryName, data: Slot) | Overrun

  function OrdinalPart(o: nat): nat { if Bit(o, LFN_END) then o - LFN_END else o }

  /** What a long-name slot begins or ends, before its units are taken in. */
  function Begun(c: Carry, s: Slot, at: nat): Carry {
    var o := s[0] as nat;
    var c' :=
      if Bit(o, LFN_DEL) then c.(lfnExists := false)
      else if Bit(o, LFN_END) then
        var end := OrdinalPart(o) * LFN_ENTRY_LENGTH;
        Carry(at, true, c.lfn[if end > MAX_LFN_LENGTH - 1 then MAX_LFN_LENGTH - 1 else end := 0], s[OFFSET_CHECKSUM])
      else c;
    if c'.sum != s[OFFSET_CHECKSUM] then c'.(lfnExists := false) else c'
  }

  /** The units of part 0, or of a part after the nineteenth, would go outside the buffer. */
  predicate LeavesBuffer(c: Carry, s: Slot) { c.lfnExists && !(1 <= OrdinalPart(s[0]) <= MOST_PARTS) }

  /** The effect of a long-name slot. */
  function AfterLfnSlot(c: Carry, s: Slot, at: nat): Carry {
    var c' := Begun(c, s, at);
    if c'.lfnExists && !LeavesBuffer(c', s) then
      c'.(lfn := WithUnits(c'.lfn, s, (OrdinalPart(s[0]) - 1) * LFN_ENTRY_LENGTH))
    else c'
  }

  /** The entry that ends in slot `at`. */
  function EntryAt(c: Carry, s: Slot, at: nat): Scanned {
    if c.lfnExists && Checksum(s[..11]) == c.sum then Entry(c.start, at, Long(NameIn(c.lfn)), s)
    else Entry(at, at, Short(s[..11]), s)
  }

  /** The next entry from slot `at` on. */
  function NextEntry(slots: seq<Slot>, at: nat, c: Carry): Scanned
    decreases |slots| - at
  {
    if at >= |slots| then NoEntry
    else if IsLfnSlot(slots[at]) then
      (if LeavesBuffer(Begun(c, slots[at], at), slots[at]) then Overrun
       else NextEntry(slots, at + 1, AfterLfnSlot(c, slots[at], at)))
    else if EndsScan(slots[at]) then NoEntry
    else if IsEntry(slots[at]) then EntryAt(c, slots[at], at)
    else NextEntry(slots, at + 1, c)
  }

  /** A slot that names nothing: a volume label, a deleted entry or part of a long name, or an entry that starts
      with a control code or a blank. */
  predicate NamesNothing(s: Slot) {
    if s[0x0B] == 0x0F then s[0] as int >= 0x80
    else s[0x0B] as int / 8 % 2 == 1 || s[0] == 0xE5 || 0 < s[0] as int <= 0x20
  }

  /** Without a long name begun, a scan passes over slots that name nothing. A zero byte ends it, and any other slot
      that holds no part of a long name is an entry with its first eleven bytes as its name. */
  lemma {:induction false} PlainScan(slots: seq<Slot>, at: nat, e: nat, c: Carry)
    requires at <= e <= |slots| && !c.lfnExists && forall k :: at <= k < e ==> NamesNothing(slots[k])
    ensures e == |slots| ==> NextEntry(slots, at, c) == NoEntry
    ensures e < |slots| && slots[e][0x0B] != 0x0F && !NamesNothing(slots[e]) ==>
              NextEntry(slots, at, c) == if slots[e][0] == 0 then NoEntry
                                         else Entry(e, e, Short(slots[e][..11]), slots[e])
    decreases e - at
  {
    if at < e {
      assert NamesNothing(slots[at]);
      if slots[at][0x0B] == 0x0F {
        PlainScan(slots, at + 1, e, AfterLfnSlot(c, slots[at], at));
      } else {
        PlainScan(slots, at + 1, e, c);
      }
    }
  }

  // ----- what a scan depends on -----

  /** A scan that ends before slot `n` sees nothing of the slots from `n` on. */
  lemma {:induction false} ScanFrame(slots: seq<Slot>, slots': seq<Slot>, at: nat, c: Carry, n: nat)
    requires n <= |slots| && n <= |slots'| && slots[..n] == slots'[..n]
    requires NextEntry(slots, at, c).Entry? && NextEntry(slots, at, c).end < n
    ensures NextEntry(slots', at, c) == NextEntry(slots, at, c)
    decreases |slots| - at
  {
    hide AfterLfnSlot, EntryAt, Begun;
    EntryNotBefore(slots, at, c);
    assert slots[at] == slots[..n][at] == slots'[at];
    if IsLfnSlot(slots[at]) && !LeavesBuffer(Begun(c, slots[at], at), slots[at]) {
      ScanFrame(slots, slots', at + 1, AfterLfnSlot(c, slots[at], at), n);
    } else if !IsLfnSlot(slots[at]) && !EndsScan(slots[at]) && !IsEntry(slots[at]) {
      ScanFrame(slots, slots', at + 1, c, n);
    }
  }

  lemma {:induction false} EntryNotBefore(slots: seq<Slot>, at: nat, c: Carry)
    requires NextEntry(slots, at, c).Entry?
    ensures at < |slots| && at <= NextEntry(slots, at, c).end < |slots|
    decreases |slots| - at
  {
    hide AfterLfnSlot, Begun;
    if IsLfnSlot(slots[at]) {
      EntryNotBefore(slots, at + 1, AfterLfnSlot(c, slots[at], at));
    } else if !EndsScan(slots[at]) && !IsEntry(slots[at]) {
      EntryNotBefore(slots, at + 1, c);
    }
  }

  /** From slot `at` on, what comes before does not matter. */
  lemma {:induction false} ScanTail(slots: seq<Slot>, slots': seq<Slot>, at: nat, c: Carry)
    requires |slots'| == |slots| && at <= |slots| && slots[at..] == slots'[at..]
    ensures NextEntry(slots', at, c) == NextEntry(slots, at, c)
    decreases |slots| - at
  {
    hide AfterLfnSlot, EntryAt, Begun;
    if at < |slots| {
      assert slots[at] == slots[at..][0] && slots'[at] == slots'[at..][0];
      assert slots[at + 1..] == slots[at..][1..] && slots'[at + 1..] == slots'[at..][1..];
      if IsLfnSlot(slots[at]) && !LeavesBuffer(Begun(c, slots[at], at), slots[at]) {
        ScanTail(slots, slots', at + 1, AfterLfnSlot(c, slots[at], at));
      } else if !IsLfnSlot(slots[at]) && !EndsScan(slots[at]) && !IsEntry(slots[at]) {
        ScanTail(slots, slots', at + 1, c);
      }
    }
  }

  // ----- reading back a written entry -----

  /** The slots of an entry with a long name: the parts from the last to the first, then the alias. */
  predicate EntrySlots(slots: seq<Slot>, a: nat, name: seq<unit>, entry: Slot) {
    var total := SlotsFor(|name|);
    && LongName(name) && a + total < |slots|
    && (forall i :: a <= i < a + total ==> Packed(slots[i], name, a + total - i, total, Checksum(entry[..11])))
    && slots[a + total] == entry
  }

  /** The state of a scan that has taken in the parts from `n` on. */
  predicate Collecting(c: Carry, a: nat, name: seq<unit>, entry: Slot, n: nat) {
    c.lfnExists && c.start == a && c.sum == Checksum(entry[..11]) && Collected(c.lfn, name, n)
  }

  /** The last part, which comes first, starts the name afresh. */
  lemma FirstSlotStarts(c: Carry, s: Slot, name: seq<unit>, entry: Slot, a: nat)
    requires LongName(name) && Packed(s, name, SlotsFor(|name|), SlotsFor(|name|), Checksum(entry[..11]))
    ensures !LeavesBuffer(Begun(c, s, a), s) && Collecting(AfterLfnSlot(c, s, a), a, name, entry, SlotsFor(|name|))
  {
    hide Checksum, WithUnits, StoredUnit;
    SlotCount(name);
    var total := SlotsFor(|name|);
    OrdinalBits(total, total);
    var end := total * LFN_ENTRY_LENGTH;
    var b: Buffer := c.lfn[if end > MAX_LFN_LENGTH - 1 then MAX_LFN_LENGTH - 1 else end := 0];
    CollectsMore(b, s, name, total, total, Checksum(entry[..11]));
  }

  lemma OrdinalBits(n: nat, total: nat)
    requires 1 <= n <= total <= MOST_PARTS
    ensures var o := Ordinal(n, total); !Bit(o, LFN_DEL) && (Bit(o, LFN_END) <==> n == total) && OrdinalPart(o) == n
  {
  }

  lemma NextSlotCollects(c: Carry, s: Slot, name: seq<unit>, entry: Slot, a: nat, at: nat, n: nat)
    requires LongName(name) && 1 <= n < SlotsFor(|name|) && Packed(s, name, n, SlotsFor(|name|), Checksum(entry[..11]))
    requires Collecting(c, a, name, entry, n + 1)
    ensures !LeavesBuffer(Begun(c, s, at), s) && Collecting(AfterLfnSlot(c, s, at), a, name, entry, n)
  {
    hide Checksum, WithUnits, StoredUnit;
    SlotCount(name);
    OrdinalBits(n, SlotsFor(|name|));
    CollectsMore(c.lfn, s, name, n, SlotsFor(|name|), Checksum(entry[..11]));
  }

  lemma {:induction false} ScanCollects(slots: seq<Slot>, a: nat, name: seq<unit>, entry: Slot, c: Carry, n: nat)
    requires EntrySlots(slots, a, name, entry) && IsEntry(entry) && n < SlotsFor(|name|)
    requires Collecting(c, a, name, entry, n + 1)
    ensures NextEntry(slots, a + SlotsFor(|name|) - n, c) == Entry(a, a + SlotsFor(|name|), Long(name), entry)
    decreases n
  {
    hide AfterLfnSlot, Begun, LeavesBuffer, Collected, Checksum;
    var total := SlotsFor(|name|);
    var at := a + total - n;
    if n == 0 {
      CollectedName(c.lfn, name);
    } else {
      assert Packed(slots[at], name, n, total, Checksum(entry[..11]));
      NextSlotCollects(c, slots[at], name, entry, a, at, n);
      ScanCollects(slots, a, name, entry, AfterLfnSlot(c, slots[at], at), n - 1);
    }
  }

  /** A scan that comes to the first slot of a long-named entry, whatever it has seen before, returns
      the name and where its slots start and end. */
  lemma ScanReadsBack(slots: seq<Slot>, a: nat, name: seq<unit>, entry: Slot, c: Carry)
    requires EntrySlots(slots, a, name, entry) && IsEntry(entry)
    ensures NextEntry(slots, a, c) == Entry(a, a + SlotsFor(|name|), Long(name), entry)
  {
    hide AfterLfnSlot, Begun, LeavesBuffer, Collected, Checksum;
    SlotCount(name);
    var total := SlotsFor(|name|);
    assert Packed(slots[a], name, total, total, Checksum(entry[..11]));
    FirstSlotStarts(c, slots[a], name, entry, a);
    ScanCollects(slots, a, name, entry, AfterLfnSlot(c, slots[a], a), total - 1);
  }
}
