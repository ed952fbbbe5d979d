/** The file allocation table as it lies in the partition image: packed 12, 16 or 32-bit
    entries (modules/libfat/file_allocation_table.c; "FAT Data Structure" in the Microsoft
    FAT32 File System Specification 1.03). */
module FatTable {
  import opened Arith
  import opened Bytes
  import opened CachePages

  const CLUSTER_FREE: nat := 0
  const CLUSTER_FIRST: nat := 2
  const CLUSTER_EOF: nat := 0x0FFF_FFFF
  const CLUSTER_ERROR: nat := 0xFFFF_FFFF

  datatype FsType = Fat12 | Fat16 | Fat32

  datatype Geometry = Geometry(
    fsType: FsType,
    bytesPerSector: nat,
    sectorsPerCluster: nat,
    fatStart: nat,
    rootDirStart: nat,
    dataStart: nat,
    lastCluster: nat,
    numberOfSectors: nat,
    endOfPartition: nat)

  /** How many values an entry can hold, and the first of those that end a chain. */
  function Width(t: FsType): nat {
    match t case Fat12 => 0x1000 case Fat16 => 0x1_0000 case Fat32 => 0x1_0000_0000
  }

  function EndMark(t: FsType): nat {
    match t case Fat12 => 0xFF7 case Fat16 => 0xFFF7 case Fat32 => 0x0FFF_FFF7
  }

  /** Where the entry of cluster `c` starts, counted from the start of the table. */
  function EntryOffset(t: FsType, c: nat): nat {
    match t case Fat12 => c * 3 / 2 case Fat16 => 2 * c case Fat32 => 4 * c
  }

  function EntrySize(t: FsType): nat { if t == Fat32 then 4 else 2 }

  function SectorAddress(g: Geometry, sector: nat): nat { sector * g.bytesPerSector }

  function FatBase(g: Geometry): nat { SectorAddress(g, g.fatStart) }

  /** The end of the table. One entry past the last cluster's is included: the free search
      looks at it when the disc is full. */
  function FatEnd(g: Geometry): nat {
    FatBase(g) + EntryOffset(g.fsType, g.lastCluster + 1) + EntrySize(g.fsType)
  }

  ghost predicate ValidGeometry(g: Geometry) {
    && g.bytesPerSector in {512, 1024, 2048, 4096}
    && g.sectorsPerCluster >= 1
    && CLUSTER_FIRST <= g.lastCluster < EndMark(g.fsType)
    && FatEnd(g) <= SectorAddress(g, g.rootDirStart)
    && g.rootDirStart <= g.dataStart
    && g.dataStart + (g.lastCluster - 1) * g.sectorsPerCluster <= g.endOfPartition < CACHE_FREE
    && (g.lastCluster - 1) * g.sectorsPerCluster <= g.numberOfSectors
  }

  ghost predicate IsImage(g: Geometry, v: seq<byte>) {
    |v| == SectorAddress(g, g.endOfPartition)
  }

  lemma ImageCovers(g: Geometry, v: seq<byte>, sector: nat)
    requires ValidGeometry(g) && IsImage(g, v) && sector <= g.endOfPartition
    ensures SectorAddress(g, sector) <= |v|
    ensures sector < g.endOfPartition ==> SectorAddress(g, sector) + g.bytesPerSector <= |v|
  {
    MulMonotone(sector, g.endOfPartition, g.bytesPerSector);
  }

  lemma FatInImage(g: Geometry, v: seq<byte>)
    requires ValidGeometry(g) && IsImage(g, v)
    ensures FatEnd(g) <= SectorAddress(g, g.rootDirStart) <= SectorAddress(g, g.dataStart) <= |v|
    ensures g.rootDirStart <= g.dataStart < g.endOfPartition
  {
    ProductNonNegative(g.lastCluster - 2, g.sectorsPerCluster);
    Distribute(g.lastCluster - 2, 1, g.sectorsPerCluster);
    MulMonotone(g.rootDirStart, g.dataStart, g.bytesPerSector);
    MulMonotone(g.dataStart, g.endOfPartition, g.bytesPerSector);
  }

  predicate InTable(g: Geometry, c: nat) { c <= g.lastCluster + 1 }

  predicate IsCluster(g: Geometry, c: nat) { CLUSTER_FIRST <= c <= g.lastCluster }

  lemma EntryInTable(g: Geometry, c: nat)
    requires InTable(g, c)
    ensures FatBase(g) + EntryOffset(g.fsType, c) + EntrySize(g.fsType) <= FatEnd(g)
  {
  }

  /** The bytes of the table. */
  ghost function FatBytes(g: Geometry, v: seq<byte>): (b: seq<byte>)
    requires ValidGeometry(g) && IsImage(g, v)
    ensures |b| == FatEnd(g) - FatBase(g)
  {
    FatInImage(g, v);
    v[FatBase(g)..FatEnd(g)]
  }

  /** The value stored for cluster `c` in the table bytes `f`. */
  function Raw(t: FsType, f: seq<byte>, c: nat): (r: nat)
    requires EntryOffset(t, c) + EntrySize(t) <= |f|
    ensures r < Width(t)
  {
    var o := EntryOffset(t, c);
    match t
    case Fat12 => var w := U16(f[o..o + 2]); if c % 2 == 1 then w / 16 else w % 0x1000
    case Fat16 => U16(f[o..o + 2])
    case Fat32 => U32(f[o..o + 4])
  }

  /** Every value from the first end mark on reads as the one end-of-file value. */
  function Normal(t: FsType, raw: nat): nat { if raw >= EndMark(t) then CLUSTER_EOF else raw }

  function Next(t: FsType, f: seq<byte>, c: nat): nat
    requires EntryOffset(t, c) + EntrySize(t) <= |f|
  {
    if c == CLUSTER_FREE then CLUSTER_FREE else Normal(t, Raw(t, f, c))
  }

  /** The bytes an entry write stores: a 12-bit entry shares one byte with its neighbour. */
  function Packed(t: FsType, f: seq<byte>, c: nat, value: nat): (b: seq<byte>)
    requires EntryOffset(t, c) + EntrySize(t) <= |f|
    ensures |b| == EntrySize(t)
  {
    var o := EntryOffset(t, c);
    match t
    case Fat12 =>
      if c % 2 == 1 then [(value * 16 + f[o] % 16) % 0x100, value / 16 % 0x100]
      else [value % 0x100, value / 0x100 % 16 + f[o + 1] / 16 * 16]
    case Fat16 => ToU16(value)
    case Fat32 => ToU32(value)
  }

  function Put(t: FsType, f: seq<byte>, c: nat, value: nat): (f': seq<byte>)
    requires EntryOffset(t, c) + EntrySize(t) <= |f|
    ensures |f'| == |f|
  {
    Splice(f, EntryOffset(t, c), Packed(t, f, c, value))
  }

  /** Writing one entry and reading any entry: the written one reads as the new value cut to
      the entry's width, every other one as before. */
  lemma PutThenRead(t: FsType, f: seq<byte>, c: nat, value: nat, d: nat)
    requires EntryOffset(t, c) + EntrySize(t) <= |f| && EntryOffset(t, d) + EntrySize(t) <= |f|
    ensures Raw(t, Put(t, f, c, value), d) == if d == c then value % Width(t) else Raw(t, f, d)
  {
    match t
    case Fat12 => Put12(f, c, value, d);
    case Fat16 =>
      U16RoundTrip(value);
      assert d == c ==> Put(t, f, c, value)[2 * d..2 * d + 2] == ToU16(value);
      assert d != c ==> Put(t, f, c, value)[2 * d..2 * d + 2] == f[2 * d..2 * d + 2];
    case Fat32 =>
      U32RoundTrip(value);
      assert d == c ==> Put(t, f, c, value)[4 * d..4 * d + 4] == ToU32(value);
      assert d != c ==> Put(t, f, c, value)[4 * d..4 * d + 4] == f[4 * d..4 * d + 4];
  }

  lemma Put12(f: seq<byte>, c: nat, value: nat, d: nat)
    requires c * 3 / 2 + 2 <= |f| && d * 3 / 2 + 2 <= |f|
    ensures Raw(Fat12, Put(Fat12, f, c, value), d) == if d == c then value % 0x1000 else Raw(Fat12, f, d)
  {
    Put12Bytes(f, c, value);
    Raw12(Put(Fat12, f, c, value), d);
    Raw12(f, d);
    hide Raw, Put;
    var o, p := c * 3 / 2, d * 3 / 2;
    Offsets12(c, d);
    if d == c {
      if c % 2 == 1 { NibblesOdd(value, f[o]); } else { NibblesEven(value, f[o + 1]); }
    } else if p == o + 1 {
      SharedHigh(value, f[p], f[p + 1]);
    } else if o == p + 1 {
      SharedLow(value, f[p], f[o]);
    }
  }

  /** Two 12-bit entries overlap only as an even entry and the odd one after it. */
  lemma Offsets12(c: nat, d: nat)
    ensures c == d || c * 3 / 2 + 2 <= d * 3 / 2 || d * 3 / 2 + 2 <= c * 3 / 2
         || (d * 3 / 2 == c * 3 / 2 + 1 && c % 2 == 0 && d % 2 == 1)
         || (c * 3 / 2 == d * 3 / 2 + 1 && d % 2 == 0 && c % 2 == 1)
  {
    HalfSteps(c);
    HalfSteps(d);
  }

  lemma HalfSteps(c: nat)
    ensures c * 3 / 2 == c / 2 * 3 + c % 2 && c == c / 2 * 2 + c % 2
  {
    var a, r := c / 2, c % 2;
    assert c == a * 2 + r;
    DivModUnique(c * 3, 2, a * 3 + r, r);
  }

  lemma Put12Bytes(f: seq<byte>, c: nat, value: nat)
    requires c * 3 / 2 + 2 <= |f|
    ensures var o, f' := c * 3 / 2, Put(Fat12, f, c, value);
            && |f'| == |f|
            && (c % 2 == 1 ==> f'[o] == (value * 16 + f[o] % 16) % 0x100 && f'[o + 1] == value / 16 % 0x100)
            && (c % 2 == 0 ==> f'[o] == value % 0x100 && f'[o + 1] == value / 0x100 % 16 + f[o + 1] / 16 * 16)
            && forall k :: 0 <= k < |f| && k != o && k != o + 1 ==> f'[k] == f[k]
  {
    hide U16, U32;
    var o, f', b := c * 3 / 2, Put(Fat12, f, c, value), Packed(Fat12, f, c, value);
    assert f'[o] == b[0] && f'[o + 1] == b[1];
  }

  lemma Raw12(f: seq<byte>, c: nat)
    requires c * 3 / 2 + 2 <= |f|
    ensures Raw(Fat12, f, c) ==
            var w := f[c * 3 / 2] as nat + 0x100 * (f[c * 3 / 2 + 1] as nat);
            if c % 2 == 1 then w / 16 else w % 0x1000
  {
  }

  lemma NibblesOdd(value: nat, low: byte)
    ensures (((value * 16 + low % 16) % 0x100) + 0x100 * (value / 16 % 0x100)) / 16 == value % 0x1000
  {
    LowNibbleKept(value, low);
    ModSplit(value, 16, 0x100);
    var h := value / 16 % 0x100;
    DivModUnique(value % 16 * 16 + low % 16 + 0x100 * h, 16, value % 16 + 16 * h, low % 16);
  }

  lemma LowNibbleKept(value: nat, low: byte)
    ensures (value * 16 + low % 16) % 0x100 == value % 16 * 16 + low % 16
  {
    assert value == value / 16 * 16 + value % 16;
    DivModUnique(value * 16 + low % 16, 0x100, value / 16, value % 16 * 16 + low % 16);
  }

  lemma NibblesEven(value: nat, high: byte)
    ensures (value % 0x100 + 0x100 * (value / 0x100 % 16 + high / 16 * 16)) % 0x1000 == value % 0x1000
  {
    ModSplit(value, 0x100, 16);
    var r := value % 0x100 + 0x100 * (value / 0x100 % 16);
    DivModUnique(r + 0x1000 * (high / 16), 0x1000, high / 16, r);
  }

  lemma SharedHigh(value: nat, b: byte, high: byte)
    ensures ((value / 0x100 % 16 + b / 16 * 16) + 0x100 * high) / 16 == (b + 0x100 * high) / 16
  {
    var n := value / 0x100 % 16;
    assert b == b / 16 * 16 + b % 16;
    DivModUnique(n + b / 16 * 16 + 0x100 * high, 16, b / 16 + 16 * high, n);
    DivModUnique(b + 0x100 * high, 16, b / 16 + 16 * high, b % 16);
  }

  lemma SharedLow(value: nat, low: byte, b: byte)
    ensures (low + 0x100 * ((value * 16 + b % 16) % 0x100)) % 0x1000 == (low + 0x100 * b) % 0x1000
  {
    var y, r := value % 16, low + 0x100 * (b % 16);
    LowNibbleKept(value, b);
    assert b == b / 16 * 16 + b % 16;
    DivModUnique(low + 0x100 * (y * 16 + b % 16), 0x1000, y, r);
    DivModUnique(low + 0x100 * b, 0x1000, b / 16, r);
  }

  /** The table as a function from clusters to what follows them. */
  ghost function Table(g: Geometry, v: seq<byte>): (t: seq<nat>)
    requires ValidGeometry(g) && IsImage(g, v)
    ensures |t| == g.lastCluster + 2 && t[0] == CLUSTER_FREE
  {
    seq(g.lastCluster + 2, (c: nat) requires c < g.lastCluster + 2 =>
          EntryInTable(g, c); Next(g.fsType, FatBytes(g, v), c))
  }

  lemma TableAt(g: Geometry, v: seq<byte>, c: nat)
    requires ValidGeometry(g) && IsImage(g, v) && InTable(g, c)
    ensures EntryOffset(g.fsType, c) + EntrySize(g.fsType) <= |FatBytes(g, v)|
    ensures Table(g, v)[c] == Next(g.fsType, FatBytes(g, v), c)
  {
    EntryInTable(g, c);
  }

  /** What the table says depends on its own bytes only. */
  lemma TableFrame(g: Geometry, v: seq<byte>, v': seq<byte>)
    requires ValidGeometry(g) && IsImage(g, v) && IsImage(g, v')
    requires forall a :: FatBase(g) <= a < FatEnd(g) && a < |v| ==> v'[a] == v[a]
    ensures Table(g, v') == Table(g, v)
  {
    FatInImage(g, v);
    assert FatBytes(g, v') == FatBytes(g, v);
  }

  /** The values a chain is made of survive being stored and read back. */
  predicate Storable(g: Geometry, value: nat) { value <= g.lastCluster || value == CLUSTER_EOF }

  /** Storing a packed entry in the image is an update of the table at that cluster. */
  lemma EntryWriteUpdatesTable(g: Geometry, v: seq<byte>, v': seq<byte>, c: nat, value: nat)
    requires ValidGeometry(g) && IsImage(g, v) && IsImage(g, v') && IsCluster(g, c)
    requires EntryOffset(g.fsType, c) + EntrySize(g.fsType) <= |FatBytes(g, v)|
    requires FatBytes(g, v') == Put(g.fsType, FatBytes(g, v), c, value)
    ensures Table(g, v') == Table(g, v)[c := Normal(g.fsType, value % Width(g.fsType))]
    ensures Storable(g, value) ==> Table(g, v') == Table(g, v)[c := value]
  {
    hide Put, Raw, EntryOffset, EntrySize, Table, FatBytes;
    var t, t' := Table(g, v), Table(g, v');
    forall d | 0 <= d < |t| ensures t'[d] == if d == c then Normal(g.fsType, value % Width(g.fsType)) else t[d] {
      TableAt(g, v, d);
      TableAt(g, v', d);
      PutThenRead(g.fsType, FatBytes(g, v), c, value, d);
    }
    if Storable(g, value) { StorableReadsBack(g, value); }
  }

  lemma StorableReadsBack(g: Geometry, value: nat)
    requires ValidGeometry(g) && Storable(g, value)
    ensures Normal(g.fsType, value % Width(g.fsType)) == value
  {
    var w := Width(g.fsType);
    if value <= g.lastCluster {
      DivModUnique(value, w, 0, value);
    } else {
      DivModUnique(CLUSTER_EOF, w, match g.fsType { case Fat12 => 0xFFFF case Fat16 => 0xFFF case Fat32 => 0 },
                   match g.fsType { case Fat12 => 0xFFF case Fat16 => 0xFFFF case Fat32 => CLUSTER_EOF });
    }
  }
}
