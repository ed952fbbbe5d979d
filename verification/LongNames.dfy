/** Directory slots and the long names packed into them (modules/libfat/directory.c; "FAT Long
    Directory Entries" in the Microsoft FAT32 File System Specification 1.03). */
module LongNames {
  import opened Bytes

  const SLOT_SIZE: nat := 32
  const LFN_ENTRY_LENGTH: nat := 13
  const MAX_LFN_LENGTH: nat := 256
  const MOST_PARTS: nat := 19
  const LONGEST_NAME: nat := 247
  const LFN_END: nat := 0x40
  const LFN_DEL: nat := 0x80
  const ATTRIB_LFN: nat := 0x0F
  const DIR_ENTRY_LAST: nat := 0
  const DIR_ENTRY_FREE: nat := 0xE5

  /** Where the 13 units of a slot are. */
  const UNIT_OFFSETS: seq<nat> := [0x01, 0x03, 0x05, 0x07, 0x09, 0x0E, 0x10, 0x12, 0x14, 0x16, 0x18, 0x1C, 0x1E]
  const OFFSET_ATTRIBUTES: nat := 0x0B
  const OFFSET_CHECKSUM: nat := 0x0D

  type Slot = s: seq<byte> | |s| == SLOT_SIZE witness Zeros(SLOT_SIZE)

  const BLANK: Slot := Zeros(SLOT_SIZE)

  /** A UCS-2 unit. */
  type unit = x: int | 0 <= x < 0x1_0000 witness 0

  /** A name as the slots can hold it: not empty, no null unit, at most 247 units. */
  predicate LongName(name: seq<unit>) { 1 <= |name| <= LONGEST_NAME && forall i :: 0 <= i < |name| ==> name[i] != 0 }

  function SlotsFor(n: nat): nat { (n + LFN_ENTRY_LENGTH - 1) / LFN_ENTRY_LENGTH }

  lemma SlotCount(name: seq<unit>)
    requires LongName(name)
    ensures 1 <= SlotsFor(|name|) <= MOST_PARTS
    ensures (SlotsFor(|name|) - 1) * LFN_ENTRY_LENGTH < |name| <= SlotsFor(|name|) * LFN_ENTRY_LENGTH
  {
  }

  /** The name buffer: the name and null units behind it. */
  function UnitAt(name: seq<unit>, k: nat): unit { if k < |name| then name[k] else 0 }

  /** What slot `n` stores as its `j`-th unit: the name's, a null unit behind it, and padding. */
  function StoredUnit(name: seq<unit>, n: nat, j: nat): unit
    requires n >= 1 && j < LFN_ENTRY_LENGTH
  {
    var k := (n - 1) * LFN_ENTRY_LENGTH + j;
    if UnitAt(name, k) == 0 then
      if j > 1 && UnitAt(name, k - 1) == 0 then 0xFFFF else 0
    else UnitAt(name, k)
  }

  function Ordinal(n: nat, total: nat): nat { if n == total then n + LFN_END else n }

  /** The slot's units as it stores them. */
  function UnitOf(s: Slot, j: nat): unit
    requires j < LFN_ENTRY_LENGTH
  {
    s[UNIT_OFFSETS[j]] as int + 0x100 * (s[UNIT_OFFSETS[j] + 1] as int)
  }

  predicate IsLfnSlot(s: Slot) { s[OFFSET_ATTRIBUTES] == ATTRIB_LFN }

  /** A slot that holds part `n` of `total` of a name. */
  predicate Packed(s: Slot, name: seq<unit>, n: nat, total: nat, sum: byte) {
    && 1 <= n <= total && s[0] == Ordinal(n, total) && IsLfnSlot(s) && s[OFFSET_CHECKSUM] == sum
    && s[0x0C] == 0 && s[0x1A] == 0 && s[0x1B] == 0
    && forall j :: 0 <= j < LFN_ENTRY_LENGTH ==> UnitOf(s, j) == StoredUnit(name, n, j)
  }

  /** Fills a slot with part `n` of a name. */
  method PackSlot(name: seq<unit>, n: nat, total: nat, sum: byte) returns (s: Slot)
    requires LongName(name) && 1 <= n <= total == SlotsFor(|name|)
    ensures Packed(s, name, n, total, sum)
  {
    SlotCount(name);
    s := Zeros(SLOT_SIZE);
    s := s[0 := if n == total then n + LFN_END else n];
    var j := 0;
    while j < LFN_ENTRY_LENGTH
      invariant j <= LFN_ENTRY_LENGTH && s[0] == Ordinal(n, total)
      invariant s[0x1A] == 0 && s[0x1B] == 0
      invariant forall k :: 0 <= k < j ==> UnitOf(s, k) == StoredUnit(name, n, k)
    {
      var k := (n - 1) * LFN_ENTRY_LENGTH + j;
      var u: unit;
      if UnitAt(name, k) == 0 {
        u := if j > 1 && UnitAt(name, k - 1) == 0 then 0xFFFF else 0;
      } else {
        u := UnitAt(name, k);
      }
      s := PutUnit(s, j, u);
      j := j + 1;
    }
    s := s[OFFSET_CHECKSUM := sum][OFFSET_ATTRIBUTES := ATTRIB_LFN][0x0C := 0][0x1A := 0][0x1B := 0];
  }

  /** Stores one unit; the others, and everything that is not a unit, stay. */
  function PutUnit(s: Slot, j: nat, u: unit): (s': Slot)
    requires j < LFN_ENTRY_LENGTH
    ensures UnitOf(s', j) == u
    ensures forall k :: 0 <= k < LFN_ENTRY_LENGTH && k != j ==> UnitOf(s', k) == UnitOf(s, k)
    ensures s'[0] == s[0] && s'[0x1A] == s[0x1A] && s'[0x1B] == s[0x1B]
  {
    var s' := s[UNIT_OFFSETS[j] := u % 0x100][UNIT_OFFSETS[j] + 1 := u / 0x100];
    s'
  }

  /** The checksum of an alias: rotate right and add, in eight bits. */
  function Checksum(alias: seq<byte>): byte {
    if alias == [] then 0
    else
      var c := Checksum(alias[..|alias| - 1]);
      ((if c % 2 == 1 then 0x80 else 0) + c / 2 + alias[|alias| - 1]) % 0x100
  }

  /** The byte `r` is `c` rotated right by one bit. */
  predicate RotatedRight(c: byte, r: byte) { r as int % 0x80 == c as int / 2 && r as int / 0x80 == c as int % 2 }

  /** The checksum of no bytes, and of one byte more. */
  lemma ChecksumRotates(a: seq<byte>, x: byte)
    ensures Checksum([]) == 0
    ensures exists r: byte :: RotatedRight(Checksum(a), r) && Checksum(a + [x]) as int == (r as int + x as int) % 0x100
  {
    assert (a + [x])[..|a|] == a;
    var c := Checksum(a);
    assert RotatedRight(c, (if c % 2 == 1 then 0x80 else 0) + c / 2);
  }

  /** Where unit `j` of a slot is. */
  function UnitByte(j: nat): nat { if j < 5 then 2 * j + 1 else if j < 11 then 2 * j + 4 else 2 * j + 6 }

  /** The bytes of part `n` of a name: its ordinal, the attributes, the checksum, three zeros, and its units,
      each with the low byte first, with one null unit behind the name and 0xFFFF from there on. */
  lemma PackedBytes(s: Slot, name: seq<unit>, n: nat, total: nat, sum: byte, j: nat)
    requires LongName(name) && total == SlotsFor(|name|) && Packed(s, name, n, total, sum) && j < 13
    ensures 13 * (total - 1) < |name| <= 13 * total
    ensures s[0] as int == if n == total then 0x40 + n else n
    ensures s[0x0B] == 0x0F && s[0x0C] == 0 && s[0x0D] == sum && s[0x1A] == 0 && s[0x1B] == 0
    ensures s[UnitByte(j)] as int + 0x100 * (s[UnitByte(j) + 1] as int)
            == var k := 13 * (n - 1) + j; if k < |name| then name[k] else if k == |name| then 0 else 0xFFFF
  {
    SlotCount(name);
    assert UnitOf(s, j) == StoredUnit(name, n, j);
  }

  // ----- reading a name back -----

  /** The buffer that a scan collects a name in. */
  type Buffer = b: seq<unit> | |b| == MAX_LFN_LENGTH witness seq(MAX_LFN_LENGTH, _ => 0)

  /** The name in the buffer: its units up to the first null unit. */
  function NameIn(b: seq<unit>): seq<unit> {
    if b == [] || b[0] == 0 then [] else [b[0]] + NameIn(b[1..])
  }

  lemma {:induction false} NameInIs(b: seq<unit>, name: seq<unit>)
    requires |name| < |b| && b[..|name|] == name && b[|name|] == 0 && forall i :: 0 <= i < |name| ==> name[i] != 0
    ensures NameIn(b) == name
  {
    if name != [] {
      assert b[0] == name[0];
      assert b[1..][..|name| - 1] == name[1..];
      NameInIs(b[1..], name[1..]);
    }
  }

  /** A buffer with the units of one slot stored from position `at` on. */
  function WithUnits(b: Buffer, s: Slot, at: nat): Buffer
    requires at + LFN_ENTRY_LENGTH <= MAX_LFN_LENGTH
  {
    seq(MAX_LFN_LENGTH, (k: nat) requires k < MAX_LFN_LENGTH => NewUnit(b, s, at, k))
  }

  function NewUnit(b: Buffer, s: Slot, at: nat, k: nat): unit
    requires k < MAX_LFN_LENGTH
  {
    if at <= k < at + LFN_ENTRY_LENGTH then UnitOf(s, k - at) else b[k]
  }

  /** The parts from `n` to the last are in the buffer, and so is the null unit behind the name. */
  predicate Collected(b: Buffer, name: seq<unit>, n: nat) {
    && n >= 1 && |name| < MAX_LFN_LENGTH && b[|name|] == 0
    && forall k :: (n - 1) * LFN_ENTRY_LENGTH <= k < |name| ==> b[k] == name[k]
  }

  /** Taking in the next lower part. */
  lemma CollectsMore(b: Buffer, s: Slot, name: seq<unit>, n: nat, total: nat, sum: byte)
    requires LongName(name) && total == SlotsFor(|name|) && Packed(s, name, n, total, sum)
    requires Collected(b, name, n + 1)
             || (n == total && b[if total * LFN_ENTRY_LENGTH < MAX_LFN_LENGTH then total * LFN_ENTRY_LENGTH else 255]
                == 0)
    ensures n <= MOST_PARTS && Collected(WithUnits(b, s, (n - 1) * LFN_ENTRY_LENGTH), name, n)
  {
    SlotCount(name);
    var at, b' := (n - 1) * LFN_ENTRY_LENGTH, WithUnits(b, s, (n - 1) * LFN_ENTRY_LENGTH);
    forall k | at <= k < |name| ensures b'[k] == name[k] {
      if k < at + LFN_ENTRY_LENGTH { assert UnitOf(s, k - at) == StoredUnit(name, n, k - at); }
    }
    if |name| < at + LFN_ENTRY_LENGTH {
      assert UnitOf(s, |name| - at) == StoredUnit(name, n, |name| - at);
    }
  }

  /** With all parts taken in, the buffer holds the name. */
  lemma CollectedName(b: Buffer, name: seq<unit>)
    requires LongName(name) && Collected(b, name, 1)
    ensures NameIn(b) == name
  {
    assert b[..|name|] == name;
    NameInIs(b, name);
  }
}
