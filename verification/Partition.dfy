/** A mounted partition: the cluster allocator over the cached table
    (modules/libfat/file_allocation_table.c). */
module Partition {
  import opened Arith
  import opened Bytes
  import opened CachePages
  import opened FatTable
  import opened Chains
  import opened DataRegion
  import opened CacheRecency
  import Cache

  /** Where the entry of a cluster is: its sector, and its first byte in that sector. */
  function EntrySector(g: Geometry, c: nat): nat
    requires g.bytesPerSector > 0
  {
    g.fatStart + EntryOffset(g.fsType, c) / g.bytesPerSector
  }

  function EntryByte(g: Geometry, c: nat): nat
    requires g.bytesPerSector >= 4
  {
    match g.fsType
    case Fat12 => c * 3 / 2 % g.bytesPerSector
    case Fat16 => c % (g.bytesPerSector / 2) * 2
    case Fat32 => c % (g.bytesPerSector / 4) * 4
  }

  lemma EntryPlace(g: Geometry, v: seq<byte>, c: nat)
    requires ValidGeometry(g) && IsImage(g, v) && InTable(g, c)
    ensures EntryByte(g, c) < g.bytesPerSector
    ensures g.fsType != Fat12 ==> EntryByte(g, c) + EntrySize(g.fsType) <= g.bytesPerSector
    ensures SectorAddress(g, EntrySector(g, c)) + EntryByte(g, c) == FatBase(g) + EntryOffset(g.fsType, c)
    ensures EntrySector(g, c) < g.endOfPartition
    ensures EntryByte(g, c) + 1 >= g.bytesPerSector && g.fsType == Fat12 ==>
              EntrySector(g, c) + 1 < g.endOfPartition
              && SectorAddress(g, EntrySector(g, c) + 1) == FatBase(g) + EntryOffset(g.fsType, c) + 1
    ensures FatBase(g) + EntryOffset(g.fsType, c) + EntrySize(g.fsType) <= FatEnd(g)
  {
    hide EntryByte, EntryOffset;
    EntryByteIsRemainder(g, c);
    FatInImage(g, v);
    EntryInTable(g, c);
    OffsetPlace(g, EntryOffset(g.fsType, c));
  }

  /** The sector and byte of the `o`-th byte of the table. */
  lemma OffsetPlace(g: Geometry, o: nat)
    requires ValidGeometry(g) && FatBase(g) + o + 1 < SectorAddress(g, g.rootDirStart)
    ensures var s, b := g.fatStart + o / g.bytesPerSector, o % g.bytesPerSector;
            && SectorAddress(g, s) + b == FatBase(g) + o
            && s < g.rootDirStart
            && (b + 1 == g.bytesPerSector ==> SectorAddress(g, s + 1) == FatBase(g) + o + 1 && s + 1 < g.rootDirStart)
  {
    var q, r, s := o / g.bytesPerSector, o % g.bytesPerSector, g.fatStart + o / g.bytesPerSector;
    assert o == q * g.bytesPerSector + r;
    hide ValidGeometry;
    SectorSteps(g, g.fatStart, q);
    SectorSteps(g, s, 1);
    hide SectorAddress, FatBase;
    AddressOrder(g, s, g.rootDirStart, r);
    if r + 1 == g.bytesPerSector {
      AddressOrder(g, s + 1, g.rootDirStart, 0);
    }
  }

  lemma SectorSteps(g: Geometry, s: nat, n: nat)
    ensures SectorAddress(g, s + n) == SectorAddress(g, s) + n * g.bytesPerSector
  {
    Distribute(s, n, g.bytesPerSector);
  }

  lemma EntryByteIsRemainder(g: Geometry, c: nat)
    requires ValidGeometry(g)
    ensures EntryByte(g, c) == EntryOffset(g.fsType, c) % g.bytesPerSector
    ensures g.fsType != Fat12 ==> EntryByte(g, c) + EntrySize(g.fsType) <= g.bytesPerSector
  {
    var n := g.bytesPerSector;
    assert n % 4 == 0 && n / 2 * 2 == n && n / 4 * 4 == n;
    match g.fsType
    case Fat12 =>
    case Fat16 => ScaledRemainder(c, n / 2, 2);
    case Fat32 => ScaledRemainder(c, n / 4, 4);
  }

  lemma ScaledRemainder(c: nat, n: nat, k: nat)
    requires n > 0 && k > 0
    ensures n * k > 0 && c % n * k == c * k % (n * k) && c % n * k + k <= n * k
  {
    var q, r := c / n, c % n;
    MulMonotone(r, n, k);
    MulMonotone(1, n, k);
    assert c * k == q * (n * k) + r * k by {
      assert c == q * n + r;
      Distribute(q * n, r, k);
    }
    DivModUnique(c * k, n * k, q, r * k);
  }

  /** A byte that lies before the start of sector `t` is in an earlier sector. */
  lemma AddressOrder(g: Geometry, s: nat, t: nat, byteOffset: nat)
    requires ValidGeometry(g) && SectorAddress(g, s) + byteOffset < SectorAddress(g, t)
    ensures s < t
  {
    if t < s { MulMonotone(t, s, g.bytesPerSector); }
  }

  /** The stored value in terms of the image's bytes. */
  lemma RawInImage(g: Geometry, v: seq<byte>, c: nat)
    requires ValidGeometry(g) && IsImage(g, v) && InTable(g, c)
    ensures var a := FatBase(g) + EntryOffset(g.fsType, c);
            && a + EntrySize(g.fsType) <= |v|
            && EntryOffset(g.fsType, c) + EntrySize(g.fsType) <= |FatBytes(g, v)|
            && var raw := Raw(g.fsType, FatBytes(g, v), c);
            match g.fsType
            case Fat12 =>
                  var w := v[a] as nat + 0x100 * (v[a + 1] as nat); raw == if c % 2 == 1 then w / 16 else w % 0x1000
            case Fat16 => raw == U16(Slice(v, a, 2)) == v[a] as int + 0x100 * (v[a + 1] as int)
            case Fat32 =>
              raw == U32(Slice(v, a, 4))
              == v[a] as int + 0x100 * (v[a + 1] as int) + 0x1_0000 * (v[a + 2] as int) + 0x100_0000 * (v[a + 3] as int)
  {
    FatInImage(g, v);
    EntryInTable(g, c);
    FatSlice(g, v, EntryOffset(g.fsType, c), EntrySize(g.fsType));
    hide FatBytes, FatEnd, EntryOffset, ValidGeometry;
    if g.fsType == Fat12 { Raw12(FatBytes(g, v), c); }
    if g.fsType == Fat32 { U32IsLittleEndian(Slice(v, FatBase(g) + EntryOffset(g.fsType, c), 4)); }
  }

  /** `next` is what the bytes of the table say about cluster `c`. */
  ghost predicate LinkedBy(g: Geometry, v: seq<byte>, c: nat, next: nat) {
    match g.fsType
    case Fat12 =>
      var a := g.fatStart * g.bytesPerSector + c * 3 / 2;
      && a + 1 < |v|
      && var w := v[a] as int + 0x100 * (v[a + 1] as int);
         var raw := if c % 2 == 1 then w / 0x10 else w % 0x1000;
         next == if raw >= 0xFF7 then 0x0FFF_FFFF else raw
    case Fat16 =>
      var a := g.fatStart * g.bytesPerSector + 2 * c;
      && a + 1 < |v|
      && var raw := v[a] as int + 0x100 * (v[a + 1] as int);
         next == if raw >= 0xFFF7 then 0x0FFF_FFFF else raw
    case Fat32 =>
      var a := g.fatStart * g.bytesPerSector + 4 * c;
      && a + 3 < |v|
      && var raw := v[a] as int + 0x100 * (v[a + 1] as int) + 0x1_0000 * (v[a + 2] as int)
                    + 0x100_0000 * (v[a + 3] as int);
         next == if raw >= 0x0FFF_FFF7 then 0x0FFF_FFFF else raw
  }

  /** The decoded table is what the table's bytes say, cluster by cluster. */
  lemma TableIsBytes(g: Geometry, v: seq<byte>, c: nat)
    requires ValidGeometry(g) && IsImage(g, v) && InTable(g, c)
    ensures if c == 0 then Table(g, v)[c] == 0 else LinkedBy(g, v, c, Table(g, v)[c])
  {
    TableAt(g, v, c);
    RawInImage(g, v, c);
    hide FatBytes, FatEnd, ValidGeometry, Table, Raw, U16, U32;
  }

  lemma FatSlice(g: Geometry, v: seq<byte>, o: nat, n: nat)
    requires ValidGeometry(g) && IsImage(g, v) && FatBase(g) + o + n <= FatEnd(g) && n >= 2
    ensures FatBase(g) + o + n <= |v| && o + n <= |FatBytes(g, v)|
    ensures Slice(FatBytes(g, v), o, n) == Slice(v, FatBase(g) + o, n)
    ensures FatBytes(g, v)[o] == v[FatBase(g) + o] && FatBytes(g, v)[o + 1] == v[FatBase(g) + o + 1]
  {
    FatInImage(g, v);
    SubSlices(FatBytes(g, v), 0, v, FatBase(g), FatEnd(g) - FatBase(g), o, n);
  }

  lemma PutInImage(g: Geometry, v: seq<byte>, v': seq<byte>, c: nat, value: nat)
    requires ValidGeometry(g) && IsImage(g, v) && IsCluster(g, c)
    requires EntryOffset(g.fsType, c) + EntrySize(g.fsType) <= |FatBytes(g, v)|
    requires FatBase(g) + EntryOffset(g.fsType, c) + EntrySize(g.fsType) <= |v|
    requires v' == Splice(v, FatBase(g) + EntryOffset(g.fsType, c), Packed(g.fsType, FatBytes(g, v), c, value))
    ensures SameOutsideFat(g, v, v')
    ensures Table(g, v') == Table(g, v)[c := Normal(g.fsType, value % Width(g.fsType))]
    ensures Storable(g, value) ==> Table(g, v') == Table(g, v)[c := value]
  {
    hide Packed;
    FatInImage(g, v);
    EntryInTable(g, c);
    assert FatBytes(g, v') == Put(g.fsType, FatBytes(g, v), c, value);
    EntryWriteUpdatesTable(g, v, v', c, value);
  }

  class Partition {
    const geometry: Geometry
    const cache: Cache.Cache
    var firstFree: nat
    var numberFreeCluster: nat
    var numberLastAllocCluster: nat

    ghost predicate Valid()
      reads this, cache, cache.entries, cache.disc
    {
      && ValidGeometry(geometry)
      && cache.Valid() && cache.disc.reliable
      && cache.layout == Layout(geometry.bytesPerSector, SECTORS_PER_PAGE, geometry.endOfPartition)
      && IsImage(geometry, cache.view)
      && firstFree <= geometry.lastCluster + 1
    }

    /** The table as the partition image holds it. */
    ghost function T(): (t: seq<nat>)
      requires ValidGeometry(geometry) && IsImage(geometry, cache.view)
      reads cache`view
      ensures IsTable(t) && Last(t) == geometry.lastCluster
    {
      Table(geometry, cache.view)
    }

    constructor (geometry: Geometry, cache: Cache.Cache)
      requires ValidGeometry(geometry) && cache.Valid() && cache.disc.reliable
      requires cache.layout == Layout(geometry.bytesPerSector, SECTORS_PER_PAGE, geometry.endOfPartition)
      ensures Valid() && this.geometry == geometry && this.cache == cache
      ensures firstFree == CLUSTER_FIRST && numberFreeCluster == 0
    {
      this.geometry, this.cache := geometry, cache;
      firstFree, numberFreeCluster, numberLastAllocCluster := CLUSTER_FIRST, 0, 0;
    }

    /** The cluster linked from `cluster`. */
    method NextCluster(cluster: nat) returns (next: nat)
      requires Valid() && InTable(geometry, cluster)
      modifies cache`accessCounter, cache`ticks, cache`touched, cache.entries, cache.disc
      ensures Valid() && next == T()[cluster]
      ensures if cluster == 0 then next == 0 else LinkedBy(geometry, cache.view, cluster, next)
    {
      TableIsBytes(geometry, cache.view, cluster);
      if cluster == CLUSTER_FREE {
        return CLUSTER_FREE;
      }
      TableAt(geometry, cache.view, cluster);
      EntryPlace(geometry, cache.view, cluster);
      RawInImage(geometry, cache.view, cluster);
      hide LinkedBy, Table, EntryOffset, EntryByte, EntrySector, SectorAddress, FatBytes, Raw, FatEnd, ValidGeometry,
           U16, U32;
      var sector, offset := EntrySector(geometry, cluster), EntryByte(geometry, cluster);
      var raw;
      match geometry.fsType {
        case Fat12 => raw := Next12(cluster, sector, offset);
        case Fat16 => raw := ReadField(sector, offset, 2);
        case Fat32 => raw := ReadField(sector, offset, 4);
      }
      next := if raw >= EndMark(geometry.fsType) then CLUSTER_EOF else raw;
    }

    method ReadField(sector: nat, offset: nat, size: nat) returns (value: nat)
      requires Valid() && sector < geometry.endOfPartition && size in {1, 2, 4}
      requires offset + size <= geometry.bytesPerSector
      modifies cache`accessCounter, cache`ticks, cache`touched, cache.entries, cache.disc
      ensures Valid()
      ensures SectorAddress(geometry, sector) + offset + size <= |cache.view|
      ensures value == Value(Slice(cache.view, SectorAddress(geometry, sector) + offset, size))
    {
      ImageCovers(geometry, cache.view, sector);
      var ok;
      ok, value := cache.ReadLittleEndianValue(sector, offset, size);
    }

    method ReadByte(sector: nat, offset: nat) returns (value: nat)
      requires Valid() && sector < geometry.endOfPartition && offset < geometry.bytesPerSector
      modifies cache`accessCounter, cache`ticks, cache`touched, cache.entries, cache.disc
      ensures Valid()
      ensures SectorAddress(geometry, sector) + offset < |cache.view|
      ensures value == cache.view[SectorAddress(geometry, sector) + offset]
    {
      value := ReadField(sector, offset, 1);
    }

    method WriteByte(value: nat, sector: nat, offset: nat)
      requires Valid() && sector < geometry.endOfPartition && offset < geometry.bytesPerSector
      modifies cache, cache.entries, cache.disc
      ensures Valid()
      ensures SectorAddress(geometry, sector) + offset < |old(cache.view)|
      ensures cache.view == Splice(old(cache.view), SectorAddress(geometry, sector) + offset, [value % 0x100])
    {
      WriteField(value, sector, offset, 1);
    }

    /** A 12-bit value lies in two bytes, which may be in different sectors. */
    method Next12(cluster: nat, sector: nat, offset: nat) returns (raw: nat)
      requires Valid() && InTable(geometry, cluster) && geometry.fsType == Fat12
      requires sector == EntrySector(geometry, cluster) && offset == EntryByte(geometry, cluster)
      modifies cache`accessCounter, cache`ticks, cache`touched, cache.entries, cache.disc
      ensures Valid()
      ensures EntryOffset(Fat12, cluster) + EntrySize(Fat12) <= |FatBytes(geometry, cache.view)|
      ensures raw == Raw(Fat12, FatBytes(geometry, cache.view), cluster)
    {
      EntryPlace(geometry, cache.view, cluster);
      RawInImage(geometry, cache.view, cluster);
      hide EntryOffset, EntryByte, EntrySector, SectorAddress, FatBytes, Raw, FatEnd;
      var low := ReadByte(sector, offset);
      var sector', offset' := sector, offset + 1;
      if offset' >= geometry.bytesPerSector {
        sector', offset' := sector + 1, 0;
      }
      var high := ReadByte(sector', offset');
      var word := low + 0x100 * high;
      raw := if cluster % 2 == 1 then word / 16 else word % 0x1000;
    }

    /** Stores an entry; every other entry and every byte outside the table stay as they are. */
    method WriteFatEntry(cluster: nat, value: nat) returns (ok: bool)
      requires Valid()
      modifies cache, cache.entries, cache.disc
      ensures Valid() && ok == IsCluster(geometry, cluster)
      ensures SameOutsideFat(geometry, old(cache.view), cache.view)
      ensures !ok ==> cache.view == old(cache.view)
      ensures ok ==> T() == old(T())[cluster := Normal(geometry.fsType, value % Width(geometry.fsType))]
      ensures ok && Storable(geometry, value) ==> T() == old(T())[cluster := value]
    {
      if cluster < CLUSTER_FIRST || cluster > geometry.lastCluster {
        return false;
      }
      ghost var v := cache.view;
      EntryPlace(geometry, v, cluster);
      RawInImage(geometry, v, cluster);
      match geometry.fsType {
        case Fat12 => Write12(cluster, value);
        case Fat16 => WriteWhole(cluster, value, 2);
        case Fat32 => WriteWhole(cluster, value, 4);
      }
      PutInImage(geometry, v, cache.view, cluster, value);
      ok := true;
    }

    method WriteWhole(cluster: nat, value: nat, size: nat)
      requires Valid() && IsCluster(geometry, cluster) && geometry.fsType != Fat12 && size == EntrySize(geometry.fsType)
      modifies cache, cache.entries, cache.disc
      ensures Valid()
      ensures EntryOffset(geometry.fsType, cluster)
              + EntrySize(geometry.fsType) <= |FatBytes(geometry, old(cache.view))|
      ensures FatBase(geometry) + EntryOffset(geometry.fsType, cluster)
              + EntrySize(geometry.fsType) <= |old(cache.view)|
      ensures cache.view == Splice(old(cache.view), FatBase(geometry) + EntryOffset(geometry.fsType, cluster),
                                   Packed(geometry.fsType, FatBytes(geometry, old(cache.view)), cluster, value))
    {
      EntryPlace(geometry, cache.view, cluster);
      RawInImage(geometry, cache.view, cluster);
      var sector, offset := EntrySector(geometry, cluster), EntryByte(geometry, cluster);
      assert Encoding(value, size) == Packed(geometry.fsType, FatBytes(geometry, cache.view), cluster, value);
      hide EntryOffset, EntryByte, EntrySector, FatBytes, FatEnd, Packed, Encoding;
      WriteField(value, sector, offset, size);
    }

    method WriteField(value: nat, sector: nat, offset: nat, size: nat)
      requires Valid() && sector < geometry.endOfPartition && size in {1, 2, 4}
      requires offset + size <= geometry.bytesPerSector
      modifies cache, cache.entries, cache.disc
      ensures Valid()
      ensures SectorAddress(geometry, sector) + offset + size <= |old(cache.view)|
      ensures cache.view == Splice(old(cache.view), SectorAddress(geometry, sector) + offset, Encoding(value, size))
    {
      ImageCovers(geometry, cache.view, sector);
      var ok := cache.WriteLittleEndianValue(value, sector, offset, size);
    }

    /** The two bytes of a 12-bit entry, one of which holds half of a neighbour's entry. */
    method Write12(cluster: nat, value: nat)
      requires Valid() && IsCluster(geometry, cluster) && geometry.fsType == Fat12
      modifies cache, cache.entries, cache.disc
      ensures Valid()
      ensures EntryOffset(Fat12, cluster) + EntrySize(Fat12) <= |FatBytes(geometry, old(cache.view))|
      ensures FatBase(geometry) + EntryOffset(Fat12, cluster) + EntrySize(Fat12) <= |old(cache.view)|
      ensures cache.view == Splice(old(cache.view), FatBase(geometry) + EntryOffset(Fat12, cluster),
                                   Packed(Fat12, FatBytes(geometry, old(cache.view)), cluster, value))
    {
      hide EntryOffset, EntryByte, EntrySector, SectorAddress, FatBytes, FatEnd, Packed, Raw, Coherent, Recent, Splice;
      ghost var v := cache.view;
      EntryPlace(geometry, v, cluster);
      RawInImage(geometry, v, cluster);
      PackedBytes(geometry, v, cluster, value);
      var sector, offset := EntrySector(geometry, cluster), EntryByte(geometry, cluster);
      var sector', offset' := sector, offset + 1;
      if offset' >= geometry.bytesPerSector {
        sector', offset' := sector + 1, 0;
      }
      if cluster % 2 == 1 {
        StoreOdd(value, sector, offset, sector', offset');
      } else {
        StoreEven(value, sector, offset, sector', offset');
      }
    }

    method StoreOdd(value: nat, sector: nat, offset: nat, sector': nat, offset': nat)
      requires Valid() && sector < geometry.endOfPartition && sector' < geometry.endOfPartition
      requires offset < geometry.bytesPerSector && offset' < geometry.bytesPerSector
      requires SectorAddress(geometry, sector') + offset' == SectorAddress(geometry, sector) + offset + 1
      modifies cache, cache.entries, cache.disc
      ensures Valid()
      ensures SectorAddress(geometry, sector) + offset + 2 <= |old(cache.view)|
      ensures var a := SectorAddress(geometry, sector) + offset;
              cache.view == Splice(old(cache.view), a,
                  [(value * 16 + old(cache.view)[a] % 16) % 0x100, value / 16 % 0x100])
    {
      hide SectorAddress, Coherent, Recent, Splice, ValidGeometry;
      ghost var v, a := cache.view, SectorAddress(geometry, sector) + offset;
      var oldValue := ReadByte(sector, offset);
      var word := value * 16 + oldValue % 16;
      WriteByte(word % 0x100, sector, offset);
      WriteByte(word / 0x100 % 0x100, sector', offset');
      ShiftedByte(value, oldValue);
      TwoBytes(v, a, word % 0x100, value / 16 % 0x100);
    }

    method StoreEven(value: nat, sector: nat, offset: nat, sector': nat, offset': nat)
      requires Valid() && sector < geometry.endOfPartition && sector' < geometry.endOfPartition
      requires offset < geometry.bytesPerSector && offset' < geometry.bytesPerSector
      requires SectorAddress(geometry, sector') + offset' == SectorAddress(geometry, sector) + offset + 1
      modifies cache, cache.entries, cache.disc
      ensures Valid()
      ensures SectorAddress(geometry, sector) + offset + 2 <= |old(cache.view)|
      ensures var a := SectorAddress(geometry, sector) + offset;
              cache.view == Splice(old(cache.view), a,
                  [value % 0x100, value / 0x100 % 16 + old(cache.view)[a + 1] / 16 * 16])
    {
      hide SectorAddress, Coherent, Recent, Splice, ValidGeometry;
      ghost var v, a := cache.view, SectorAddress(geometry, sector) + offset;
      WriteByte(value, sector, offset);
      var oldValue := ReadByte(sector', offset');
      WriteByte(value / 0x100 % 16 + oldValue / 16 * 16, sector', offset');
      TwoBytes(v, a, value % 0x100, value / 0x100 % 16 + oldValue / 16 * 16);
    }

    // ----- data through the cache, in terms of image addresses -----

    method WriteSectorRun(sector: nat, count: nat, src: Cache.Source)
      requires Valid() && sector + count <= geometry.endOfPartition
      requires Cache.Supplies(src, SectorAddress(geometry, count))
      modifies cache, cache.entries, cache.disc
      ensures Valid()
      ensures SectorAddress(geometry, sector) + SectorAddress(geometry, count) <= |old(cache.view)|
      ensures cache.view == Splice(old(cache.view), SectorAddress(geometry, sector),
                                   Cache.Taken(src, 0, SectorAddress(geometry, count)))
    {
      ghost var done;
      var ok;
      ok, done := cache.WriteSectors(sector, count, src);
    }

    method ReadSectorRun(sector: nat, count: nat) returns (data: seq<byte>)
      requires Valid() && sector + count <= geometry.endOfPartition
      modifies cache`accessCounter, cache`ticks, cache`touched, cache.entries, cache.disc
      ensures Valid()
      ensures SectorAddress(geometry, sector) + SectorAddress(geometry, count) <= |cache.view|
      ensures data == Slice(cache.view, SectorAddress(geometry, sector), SectorAddress(geometry, count))
    {
      Distribute(sector, count, geometry.bytesPerSector);
      var ok;
      ok, data := cache.ReadSectors(sector, count);
    }

    method ReadPart(sector: nat, offset: nat, size: nat) returns (data: seq<byte>)
      requires Valid() && sector < geometry.endOfPartition && offset + size <= geometry.bytesPerSector
      modifies cache`accessCounter, cache`ticks, cache`touched, cache.entries, cache.disc
      ensures Valid()
      ensures SectorAddress(geometry, sector) + offset + size <= |cache.view|
      ensures data == Slice(cache.view, SectorAddress(geometry, sector) + offset, size)
    {
      var ok;
      ok, data := cache.ReadPartialSector(sector, offset, size);
    }

    method WritePart(src: Cache.Source, sector: nat, offset: nat, size: nat)
      requires Valid() && sector < geometry.endOfPartition && offset + size <= geometry.bytesPerSector
      requires Cache.Supplies(src, size)
      modifies cache, cache.entries, cache.disc
      ensures Valid()
      ensures SectorAddress(geometry, sector) + offset + size <= |old(cache.view)|
      ensures cache.view == Splice(old(cache.view), SectorAddress(geometry, sector) + offset, Cache.Taken(src, 0, size))
    {
      var ok := cache.WritePartialSector(src, sector, offset, size);
    }

    /** Stores the start of a sector and zeroes the rest of it. */
    method EraseWritePart(src: Cache.Source, sector: nat, size: nat)
      requires Valid() && sector < geometry.endOfPartition && size <= geometry.bytesPerSector
      requires Cache.Supplies(src, size)
      modifies cache, cache.entries, cache.disc
      ensures Valid()
      ensures SectorAddress(geometry, sector) + geometry.bytesPerSector <= |old(cache.view)|
      ensures cache.view == Splice(old(cache.view), SectorAddress(geometry, sector),
                                   Cache.Taken(src, 0, size) + Zeros(geometry.bytesPerSector - size))
    {
      var ok := cache.EraseWritePartialSector(src, sector, 0, size);
      assert Splice(Zeros(geometry.bytesPerSector), 0, Cache.Taken(src, 0, size))
          == Cache.Taken(src, 0, size) + Zeros(geometry.bytesPerSector - size);
    }

    // ----- allocation -----

    /** How the entry past the last cluster reads once its number has been stored in a link. */
    ghost function Beyond(): nat { Normal(geometry.fsType, geometry.lastCluster + 1) }

    /** The search for a free cluster from `start` on, with one wrap-around. */
    method FindFreeCluster(start: nat) returns (found: bool, cluster: nat)
      requires Valid() && CLUSTER_FIRST <= start <= geometry.lastCluster + 1
      modifies cache`accessCounter, cache`ticks, cache`touched, cache.entries, cache.disc
      ensures Valid()
      ensures Stray(T(), start) ==> found && cluster == start
      ensures !Stray(T(), start) ==> cluster == FindFree(T(), start) && found == (cluster <= geometry.lastCluster)
    {
      hide Table, ValidGeometry;
      ghost var t := T();
      var looped := false;
      cluster := start;
      var next := NextCluster(cluster);
      while next != CLUSTER_FREE
        invariant Valid() && cluster <= geometry.lastCluster + 1 && CLUSTER_FIRST <= cluster && next == t[cluster]
        invariant !looped ==> cluster <= geometry.lastCluster || cluster == start
        invariant !looped ==> start <= cluster && SeekFree(t, start) == SeekFree(t, cluster)
        invariant looped ==> cluster <= geometry.lastCluster && !Stray(t, start)
        invariant looped ==> SeekFree(t, start) == geometry.lastCluster + 1
        invariant looped ==> SeekFree(t, CLUSTER_FIRST) == SeekFree(t, cluster)
        decreases !looped, geometry.lastCluster + 2 - cluster
      {
        cluster := cluster + 1;
        if cluster > geometry.lastCluster {
          if looped {
            return false, cluster;
          }
          cluster := CLUSTER_FIRST;
          looped := true;
        }
        next := NextCluster(cluster);
      }
      found := true;
    }

    /** The first free cluster, linked behind `cluster` and marked as the end of the chain. */
    method LinkFreeCluster(cluster: nat) returns (result: nat)
      requires Valid()
      modifies this`firstFree, this`numberFreeCluster, this`numberLastAllocCluster, cache, cache.entries, cache.disc
      ensures Valid() && SameOutsideFat(geometry, old(cache.view), cache.view)
      ensures var r := Link(old(T()), cluster, old(firstFree), Beyond());
              result == r.result && T() == r.table && firstFree == r.hint
      ensures result == CLUSTER_ERROR || Chains.Valid(old(T()), old(T())[cluster]) ==> cache.view == old(cache.view)
      ensures numberFreeCluster ==
              if result == CLUSTER_ERROR || Chains.Valid(old(T()), old(T())[cluster]) || old(numberFreeCluster) == 0
              then old(numberFreeCluster) else old(numberFreeCluster) - 1
    {
      hide Table, ValidGeometry;
      var lastCluster := geometry.lastCluster;
      if cluster > lastCluster {
        return CLUSTER_ERROR;
      }
      var curLink := NextCluster(cluster);
      if CLUSTER_FIRST <= curLink <= lastCluster {
        return curLink;
      }
      var start := if firstFree < CLUSTER_FIRST then CLUSTER_FIRST else firstFree;
      var found, next := FindFreeCluster(start);
      firstFree := next;
      if !found {
        return CLUSTER_ERROR;
      }
      if numberFreeCluster != 0 {
        numberFreeCluster := numberFreeCluster - 1;
      }
      numberLastAllocCluster := next;
      AttachCluster(cluster, next);
      result := next;
    }

    /** The two entry writes of an allocation. */
    method AttachCluster(cluster: nat, next: nat)
      requires Valid() && cluster <= geometry.lastCluster && CLUSTER_FIRST <= next <= geometry.lastCluster + 1
      modifies cache, cache.entries, cache.disc
      ensures Valid() && SameOutsideFat(geometry, old(cache.view), cache.view)
      ensures next <= geometry.lastCluster ==> T() == Attach(old(T()), cluster, next)
      ensures next > geometry.lastCluster ==>
                T() == if IsCluster(geometry, cluster) then old(T())[cluster := Beyond()] else old(T())
    {
      BeyondFits(geometry);
      hide Table, ValidGeometry, Normal;
      if CLUSTER_FIRST <= cluster <= geometry.lastCluster {
        var ok := WriteFatEntry(cluster, next);
      }
      var ok := WriteFatEntry(next, CLUSTER_EOF);
    }

    /** The same, with the new cluster's sectors zeroed. A stray hint makes it zero the sectors behind the
        data region, which must be in the partition. */
    method LinkFreeClusterCleared(cluster: nat) returns (result: nat)
      requires Valid() && (Stray(T(), firstFree) ==> OnDisc(geometry, geometry.lastCluster + 1))
      modifies this`firstFree, this`numberFreeCluster, this`numberLastAllocCluster, cache, cache.entries, cache.disc
      ensures Valid()
      ensures var r := Link(old(T()), cluster, old(firstFree), Beyond());
              result == r.result && T() == r.table && firstFree == r.hint
      ensures result == CLUSTER_ERROR ==> cache.view == old(cache.view)
      ensures result != CLUSTER_ERROR ==>
                && OnDisc(geometry, result) && (Stray(old(T()), old(firstFree)) || IsCluster(geometry, result))
                && ClusterAddress(geometry, result) + BytesPerCluster(geometry) <= |cache.view|
                && (forall a ::
                     ClusterAddress(geometry, result) <= a
                       < ClusterAddress(geometry, result) + BytesPerCluster(geometry) ==>
                       cache.view[a] == 0)
                && SameOutside(geometry, [result], old(cache.view), cache.view)
    {
      hide Table, ValidGeometry, ClusterAddress, BytesPerCluster, FatBase, FatEnd, Coherent, Recent, SameOutside,
        SameOutsideFat, OnDisc;
      result := LinkFreeCluster(cluster);
      if result == CLUSTER_FREE || result == CLUSTER_ERROR {
        return CLUSTER_ERROR;
      }
      if IsCluster(geometry, result) { ClusterOnDisc(geometry, result); }
      ghost var v := cache.view;
      ClearCluster(result);
      ClearedFrame(geometry, result, old(cache.view), v, cache.view);
    }

    method ClearCluster(cluster: nat)
      requires Valid() && OnDisc(geometry, cluster)
      modifies cache, cache.entries, cache.disc
      ensures Valid() && T() == old(T())
      ensures ClusterAddress(geometry, cluster) + BytesPerCluster(geometry) <= |cache.view|
      ensures cache.view == Splice(old(cache.view), ClusterAddress(geometry, cluster), Zeros(BytesPerCluster(geometry)))
    {
      ghost var v, a := cache.view, ClusterAddress(geometry, cluster);
      ExtentOnDisc(geometry, v, cluster);
      SectorOnDisc(geometry, cluster, 0);
      var i := 0;
      assert Splice(v, a, Zeros(0)) == v;
      while i < geometry.sectorsPerCluster
        invariant Valid() && i <= geometry.sectorsPerCluster && |cache.view| == |v|
        invariant SectorAddress(geometry, i) <= BytesPerCluster(geometry)
        invariant cache.view == Splice(v, a, Zeros(SectorAddress(geometry, i)))
      {
        ClearSector(cluster, i, v);
        i := i + 1;
      }
      TableFrame(geometry, v, cache.view);
    }

    method ClearSector(cluster: nat, i: nat, ghost v: seq<byte>)
      requires Valid() && OnDisc(geometry, cluster) && i < geometry.sectorsPerCluster && IsImage(geometry, v)
      requires ClusterAddress(geometry, cluster) + BytesPerCluster(geometry) <= |v|
      requires SectorAddress(geometry, i) <= BytesPerCluster(geometry)
      requires cache.view == Splice(v, ClusterAddress(geometry, cluster), Zeros(SectorAddress(geometry, i)))
      modifies cache, cache.entries, cache.disc
      ensures Valid()
      ensures SectorAddress(geometry, i + 1) <= BytesPerCluster(geometry)
      ensures cache.view == Splice(v, ClusterAddress(geometry, cluster), Zeros(SectorAddress(geometry, i + 1)))
    {
      SectorOnDisc(geometry, cluster, i);
      SectorOnDisc(geometry, cluster, i + 1);
      Distribute(i, 1, geometry.bytesPerSector);
      assert SectorAddress(geometry, 1) == geometry.bytesPerSector;
      WriteSectorRun(ClusterToSector(geometry, cluster) + i, 1, Cache.Null);
      SpliceMore(v, ClusterAddress(geometry, cluster), SectorAddress(geometry, i), geometry.bytesPerSector);
    }

    /** Frees one cluster and returns the one that followed it. */
    method ClearOne(cluster: nat) returns (next: nat)
      requires Valid() && LinksInRange(T()) && IsCluster(geometry, cluster)
      modifies this`numberFreeCluster, cache, cache.entries, cache.disc
      ensures Valid() && SameOutsideFat(geometry, old(cache.view), cache.view) && LinksInRange(T())
      ensures next == old(T())[cluster] && (next == CLUSTER_FREE || next == CLUSTER_EOF || IsCluster(geometry, next))
      ensures ClearFrom(T(), next) == ClearFrom(old(T()), cluster)
      ensures Visited(old(T()), cluster) == 1 + Visited(T(), next)
      ensures numberFreeCluster == AddCapped(old(numberFreeCluster), Cap(), 1)
      ensures if next == CLUSTER_FREE then Used(T()) <= Used(old(T())) else Used(T()) < Used(old(T()))
    {
      assert geometry.sectorsPerCluster >= 1;
      hide Table, ValidGeometry, FatBase, FatEnd, Coherent, Recent, LinksInRange, FatBytes;
      ghost var t := T();
      next := NextCluster(cluster);
      var ok := WriteFatEntry(cluster, CLUSTER_FREE);
      ClearStep(t, cluster);
      LinkInRange(t, cluster);
      if numberFreeCluster < geometry.numberOfSectors / geometry.sectorsPerCluster {
        numberFreeCluster := numberFreeCluster + 1;
      }
    }

    /** Frees the chain from `cluster` on. It ends on every table whose links are in range,
        even one with cycles. */
    method ClearLinks(cluster: nat) returns (ok: bool)
      requires Valid() && LinksInRange(T())
      modifies this`firstFree, this`numberFreeCluster, cache, cache.entries, cache.disc
      ensures Valid() && SameOutsideFat(geometry, old(cache.view), cache.view)
      ensures ok == IsCluster(geometry, cluster)
      ensures !ok ==>
                cache.view == old(cache.view) && firstFree == old(firstFree)
                && numberFreeCluster == old(numberFreeCluster)
      ensures ok ==> T() == ClearFrom(old(T()), cluster)
      ensures ok ==> firstFree == if cluster < old(firstFree) then cluster else old(firstFree)
      ensures ok ==> numberFreeCluster ==
                     AddCapped(old(numberFreeCluster), geometry.numberOfSectors / geometry.sectorsPerCluster,
                         Visited(old(T()), cluster))
    {
      hide Table, ValidGeometry, FatBase, FatEnd, Coherent, Recent, LinksInRange, FatBytes;
      if cluster < CLUSTER_FIRST || cluster > geometry.lastCluster {
        return false;
      }
      if cluster < firstFree {
        firstFree := cluster;
      }
      var current := cluster;
      while current != CLUSTER_EOF && current != CLUSTER_FREE && current != CLUSTER_ERROR
        invariant Valid() && firstFree == (if cluster < old(firstFree) then cluster else old(firstFree))
        invariant SameOutsideFat(geometry, old(cache.view), cache.view)
        invariant LinksInRange(T())
                  && (current == CLUSTER_EOF || current == CLUSTER_FREE || IsCluster(geometry, current))
        invariant ClearFrom(T(), current) == ClearFrom(old(T()), cluster)
        invariant AddCapped(numberFreeCluster, Cap(), Visited(T(), current))
               == AddCapped(old(numberFreeCluster), Cap(), Visited(old(T()), cluster))
        decreases Used(T()), IsCluster(geometry, current)
      {
        current := ClearOne(current);
      }
      ok := true;
    }

    ghost function Cap(): nat
      requires ValidGeometry(geometry)
    {
      geometry.numberOfSectors / geometry.sectorsPerCluster
    }

    /** Drops the clusters of a chain after the first `length`; the last one kept is returned. */
    method TrimChain(start: nat, length: nat, ghost ch: seq<nat>) returns (last: nat)
      requires Valid() && LinksInRange(T()) && IsChain(T(), ch) && start == ch[0]
      modifies this`firstFree, this`numberFreeCluster, cache, cache.entries, cache.disc
      ensures Valid() && SameOutsideFat(geometry, old(cache.view), cache.view)
      ensures var kept := if length < |ch| then length else |ch|;
              && T() == (if kept == 0 then Zeroed(old(T()), ch) else Cut(old(T()), ch, kept))
              && last == (if kept == 0 then CLUSTER_FREE else ch[kept - 1])
              && numberFreeCluster == AddCapped(old(numberFreeCluster), Cap(), |ch| - kept)
              && firstFree == if kept < |ch| && ch[kept] < old(firstFree) then ch[kept] else old(firstFree)
    {
      hide Table, ValidGeometry, FatBase, FatEnd, Coherent, Recent, LinksInRange;
      if length == 0 {
        ChainStep(T(), ch, 0);
        ClearFromChain(T(), ch, 0);
        assert ch[0..] == ch;
        var ok := ClearLinks(start);
        return CLUSTER_FREE;
      }
      last := KeepFirst(start, length, ch);
    }

    method KeepFirst(start: nat, length: nat, ghost ch: seq<nat>) returns (last: nat)
      requires Valid() && LinksInRange(T()) && IsChain(T(), ch) && start == ch[0] && length > 0
      modifies this`firstFree, this`numberFreeCluster, cache, cache.entries, cache.disc
      ensures Valid() && SameOutsideFat(geometry, old(cache.view), cache.view)
      ensures var kept := if length < |ch| then length else |ch|;
              && T() == Cut(old(T()), ch, kept) && last == ch[kept - 1]
              && numberFreeCluster == AddCapped(old(numberFreeCluster), Cap(), |ch| - kept)
              && firstFree == if kept < |ch| && ch[kept] < old(firstFree) then ch[kept] else old(firstFree)
    {
      hide Table, ValidGeometry, FatBase, FatEnd, Coherent, Recent, LinksInRange;
      ghost var t, k := T(), 0;
      var cluster, left := start, length - 1;
      ChainStep(t, ch, 0);
      var next := NextCluster(cluster);
      while left > 0 && next != CLUSTER_FREE && next != CLUSTER_EOF
        invariant Valid() && 0 <= k < |ch| && k + left == length - 1 && left >= 0
        invariant cluster == ch[k] && next == t[cluster]
        invariant T() == t && cache.view == old(cache.view)
        invariant firstFree == old(firstFree) && numberFreeCluster == old(numberFreeCluster)
      {
        ChainStep(t, ch, k);
        k, left := k + 1, left - 1;
        cluster := next;
        ChainStep(t, ch, k);
        next := NextCluster(cluster);
      }
      ChainStep(t, ch, k);
      DropRest(cluster, next, ch, k);
      last := cluster;
    }

    /** What follows `ch[k]` is freed, and `ch[k]` becomes the end of the chain. */
    method DropRest(cluster: nat, next: nat, ghost ch: seq<nat>, ghost k: nat)
      requires Valid() && LinksInRange(T()) && IsChain(T(), ch) && k < |ch|
      requires cluster == ch[k] && next == T()[cluster]
      modifies this`firstFree, this`numberFreeCluster, cache, cache.entries, cache.disc
      ensures Valid() && SameOutsideFat(geometry, old(cache.view), cache.view)
      ensures T() == Cut(old(T()), ch, k + 1)
      ensures numberFreeCluster == AddCapped(old(numberFreeCluster), Cap(), |ch| - k - 1)
      ensures firstFree == if k + 1 < |ch| && ch[k + 1] < old(firstFree) then ch[k + 1] else old(firstFree)
    {
      hide Table, ValidGeometry, FatBase, FatEnd, Coherent, Recent, LinksInRange, IsChain;
      ghost var t := T();
      ChainStep(t, ch, k);
      if next != CLUSTER_FREE && next != CLUSTER_EOF {
        ClearFromChain(t, ch, k + 1);
        var ok := ClearLinks(next);
      }
      assert T() == Zeroed(t, ch[k + 1..]) by {
        if k + 1 == |ch| { assert Zeroed(t, ch[k + 1..]) == t; }
      }
      var ok := WriteFatEntry(cluster, CLUSTER_EOF);
    }

    /** The end of the chain that `cluster` is on. */
    method LastCluster(cluster: nat, ghost ch: seq<nat>) returns (last: nat)
      requires Valid()
      requires cluster == CLUSTER_FREE || (IsChain(T(), ch) && cluster in ch)
      modifies cache`accessCounter, cache`ticks, cache`touched, cache.entries, cache.disc
      ensures Valid()
      ensures last == if cluster == CLUSTER_FREE then CLUSTER_FREE else ch[|ch| - 1]
    {
      hide Table, ValidGeometry;
      last := cluster;
      ghost var k: nat := 0;
      if cluster != CLUSTER_FREE {
        k :| 0 <= k < |ch| && ch[k] == cluster;
        ChainStep(T(), ch, k);
      }
      var next := NextCluster(last);
      while next != CLUSTER_FREE && next != CLUSTER_EOF
        invariant Valid() && last <= geometry.lastCluster && next == T()[last]
        invariant cluster == CLUSTER_FREE ==> last == CLUSTER_FREE
        invariant cluster != CLUSTER_FREE ==> 0 <= k < |ch| && last == ch[k]
        decreases |ch| - k
      {
        ChainStep(T(), ch, k);
        last, k := next, k + 1;
        ChainStep(T(), ch, k);
        next := NextCluster(last);
      }
      if cluster != CLUSTER_FREE { ChainStep(T(), ch, k); }
    }

    /** The number of free clusters, counted in the table. */
    method FreeClusterCount() returns (count: nat)
      requires Valid()
      modifies cache`accessCounter, cache`ticks, cache`touched, cache.entries, cache.disc
      ensures Valid() && count == |FreeSet(T())|
    {
      hide Table, ValidGeometry;
      count := 0;
      var c := CLUSTER_FIRST;
      assert FreeBelow(T(), CLUSTER_FIRST) == {};
      while c <= geometry.lastCluster
        invariant Valid() && CLUSTER_FIRST <= c <= geometry.lastCluster + 1
        invariant count == |FreeBelow(T(), c)|
      {
        FreeBelowStep(T(), c);
        var next := NextCluster(c);
        if next == CLUSTER_FREE {
          count := count + 1;
        }
        c := c + 1;
      }
      assert FreeBelow(T(), c) == FreeSet(T());
    }
  }

  lemma ClearedFrame(g: Geometry, c: nat, v: seq<byte>, v': seq<byte>, v'': seq<byte>)
    requires ValidGeometry(g) && SameOutsideFat(g, v, v')
    requires ClusterAddress(g, c) + BytesPerCluster(g) <= |v'|
    requires v'' == Splice(v', ClusterAddress(g, c), Zeros(BytesPerCluster(g)))
    ensures SameOutside(g, [c], v, v'')
    ensures forall a :: ClusterAddress(g, c) <= a < ClusterAddress(g, c) + BytesPerCluster(g) ==> v''[a] == 0
  {
    hide ClusterAddress, BytesPerCluster, FatBase, FatEnd;
    forall a | 0 <= a < |v| && !(FatBase(g) <= a < FatEnd(g)) && !InChain(g, [c], a) ensures v''[a] == v[a] {
      assert !InCluster(g, [c][0], a);
    }
  }

  lemma SpliceMore(v: seq<byte>, a: nat, n: nat, m: nat)
    requires a + n + m <= |v|
    ensures Splice(Splice(v, a, Zeros(n)), a + n, Zeros(m)) == Splice(v, a, Zeros(n + m))
  {
  }

  lemma BeyondFits(g: Geometry)
    requires ValidGeometry(g)
    ensures (g.lastCluster + 1) % Width(g.fsType) == g.lastCluster + 1
  {
  }

  lemma PackedBytes(g: Geometry, v: seq<byte>, c: nat, value: nat)
    requires ValidGeometry(g) && IsImage(g, v) && IsCluster(g, c) && g.fsType == Fat12
    requires EntryOffset(Fat12, c) + EntrySize(Fat12) <= |FatBytes(g, v)|
    requires FatBase(g) + EntryOffset(Fat12, c) + EntrySize(Fat12) <= |v|
    ensures var a := FatBase(g) + EntryOffset(Fat12, c);
            Packed(Fat12, FatBytes(g, v), c, value) ==
            if c % 2 == 1 then [(value * 16 + v[a] % 16) % 0x100, value / 16 % 0x100]
            else [value % 0x100, value / 0x100 % 16 + v[a + 1] / 16 * 16]
  {
    FatInImage(g, v);
    var o, a := EntryOffset(Fat12, c), FatBase(g) + EntryOffset(Fat12, c);
    assert FatBytes(g, v)[o] == v[a] && FatBytes(g, v)[o + 1] == v[a + 1];
    hide FatBytes;
  }

  lemma ShiftedByte(value: nat, low: nat)
    ensures (value * 16 + low % 16) / 0x100 % 0x100 == value / 16 % 0x100
  {
  }

  lemma TwoBytes(v: seq<byte>, a: nat, low: byte, high: byte)
    requires a + 2 <= |v|
    ensures Splice(Splice(v, a, [low]), a + 1, [high]) == Splice(v, a, [low, high])
  {
  }
}
