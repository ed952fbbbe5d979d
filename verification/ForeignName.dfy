/** A long-named entry as other systems write it, byte by byte, and what a scan makes of it
    (modules/libfat/directory.c). */
module ForeignName {
  import opened Bytes
  import opened LongNames
  import opened DirectoryScan

  /** "long filename.txt" */
  const NAME: seq<unit> := [
    0x6C, 0x6F, 0x6E, 0x67, 0x20, 0x66, 0x69, 0x6C, 0x65, 0x6E, 0x61, 0x6D, 0x65, 0x2E, 0x74, 0x78, 0x74
  ]

  /** The second part of the name, which comes first: four units, the null unit and padding. */
  const SECOND_PART: Slot := [
    0x42, 0x2E, 0x00, 0x74, 0x00, 0x78, 0x00, 0x74, 0x00, 0x00, 0x00, 0x0F, 0x00, 0xD4, 0xFF, 0xFF,
    0xFF, 0xFF, 0xFF, 0xFF, 0xFF, 0xFF, 0xFF, 0xFF, 0xFF, 0xFF, 0x00, 0x00, 0xFF, 0xFF, 0xFF, 0xFF
  ]

  const FIRST_PART: Slot := [
    0x01, 0x6C, 0x00, 0x6F, 0x00, 0x6E, 0x00, 0x67, 0x00, 0x20, 0x00, 0x0F, 0x00, 0xD4, 0x66, 0x00,
    0x69, 0x00, 0x6C, 0x00, 0x65, 0x00, 0x6E, 0x00, 0x61, 0x00, 0x00, 0x00, 0x6D, 0x00, 0x65, 0x00
  ]

  /** "LONGFI~1TXT" */
  const ALIAS: seq<byte> := [0x4C, 0x4F, 0x4E, 0x47, 0x46, 0x49, 0x7E, 0x31, 0x54, 0x58, 0x54]

  /** The entry itself: a file of twelve bytes from cluster 5 on. */
  const FILE_ENTRY: Slot := [
    0x4C, 0x4F, 0x4E, 0x47, 0x46, 0x49, 0x7E, 0x31, 0x54, 0x58, 0x54, 0x20, 0x00, 0x64, 0x00, 0x00,
    0x00, 0x00, 0x00, 0x00, 0x00, 0x00, 0x12, 0x34, 0x21, 0x4F, 0x05, 0x00, 0x0C, 0x00, 0x00, 0x00
  ]

  lemma NextChecksum(k: nat, c: byte, r: byte, c': byte)
    requires k < |ALIAS| && Checksum(ALIAS[..k]) == c && RotatedRight(c, r)
             && c' as int == (r as int + ALIAS[k] as int) % 0x100
    ensures Checksum(ALIAS[..k + 1]) == c'
  {
    hide Checksum;
    assert ALIAS[..k + 1] == ALIAS[..k] + [ALIAS[k]];
    ChecksumRotates(ALIAS[..k], ALIAS[k]);
  }

  lemma AliasChecksum()
    ensures FILE_ENTRY[..11] == ALIAS && Checksum(ALIAS) == 0xD4
  {
    hide Checksum;
    ChecksumRotates([], 0);
    assert ALIAS[..0] == [];
    NextChecksum(0, 0x00, 0x00, 0x4C);
    NextChecksum(1, 0x4C, 0x26, 0x75);
    NextChecksum(2, 0x75, 0xBA, 0x08);
    NextChecksum(3, 0x08, 0x04, 0x4B);
    NextChecksum(4, 0x4B, 0xA5, 0xEB);
    NextChecksum(5, 0xEB, 0xF5, 0x3E);
    NextChecksum(6, 0x3E, 0x1F, 0x9D);
    NextChecksum(7, 0x9D, 0xCE, 0xFF);
    NextChecksum(8, 0xFF, 0xFF, 0x53);
    NextChecksum(9, 0x53, 0xA9, 0x01);
    NextChecksum(10, 0x01, 0x80, 0xD4);
    assert ALIAS[..11] == ALIAS;
  }

  lemma SecondUnits(j: nat)
    requires j < 13
    ensures UnitOf(SECOND_PART, j) == StoredUnit(NAME, 2, j)
  {
  }

  lemma SecondIsPacked()
    ensures Packed(SECOND_PART, NAME, 2, 2, 0xD4)
  {
    hide UnitOf, StoredUnit;
    forall j | 0 <= j < 13 ensures UnitOf(SECOND_PART, j) == StoredUnit(NAME, 2, j) {
      SecondUnits(j);
    }
  }

  lemma FirstUnits(j: nat)
    requires j < 13
    ensures UnitOf(FIRST_PART, j) == StoredUnit(NAME, 1, j)
  {
  }

  lemma FirstIsPacked()
    ensures Packed(FIRST_PART, NAME, 1, 2, 0xD4)
  {
    hide UnitOf, StoredUnit;
    forall j | 0 <= j < 13 ensures UnitOf(FIRST_PART, j) == StoredUnit(NAME, 1, j) {
      FirstUnits(j);
    }
  }

  /** Wherever the three slots are and whatever a scan has seen before them, it returns the long name. */
  lemma ReadsForeignName(slots: seq<Slot>, a: nat, c: Carry)
    requires a + 3 <= |slots| && slots[a] == SECOND_PART && slots[a + 1] == FIRST_PART && slots[a + 2] == FILE_ENTRY
    ensures NextEntry(slots, a, c) == Entry(a, a + 2, Long(NAME), FILE_ENTRY)
  {
    hide Checksum, Packed, NextEntry;
    AliasChecksum();
    SecondIsPacked();
    FirstIsPacked();
    ScanReadsBack(slots, a, NAME, FILE_ENTRY, c);
  }
}
