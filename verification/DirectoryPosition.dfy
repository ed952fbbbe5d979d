/** Where a directory's slots are on the partition (_FAT_directory_incrementDirEntryPosition,
    modules/libfat/directory.c): stepping a position goes through the slots in order, through the
    clusters of a chain or the sectors of a fixed root directory. */
module DirectoryPosition {
  import opened Arith
  import opened Bytes
  import opened CachePages
  import opened CacheRecency
  import opened FatTable
  import opened Chains
  import opened DataRegion
  import opened FileModel
  import opened WriteModel
  import opened FileWrite
  import opened FileSpec
  import opened LongNames
  import Cache
  import P = Partition

  const FAT16_ROOT_DIR_CLUSTER: nat := 0

  /** A slot by its cluster, sector and number in the sector. The number is -1 before the first slot. */
  datatype DirPosition = DirPosition(cluster: nat, sector: nat, offset: int)

  function SlotsPerSector(g: Geometry): nat { g.bytesPerSector / SLOT_SIZE }

  lemma SlotsFillSector(g: Geometry)
    requires ValidGeometry(g)
    ensures SlotsPerSector(g) * SLOT_SIZE == g.bytesPerSector && SlotsPerSector(g) > 0
  {
  }

  // ----- a directory's slots -----

  function SlotsOf(b: seq<byte>): (s: seq<Slot>)
    ensures |s| == |b| / SLOT_SIZE
  {
    seq(|b| / SLOT_SIZE, i requires 0 <= i < |b| / SLOT_SIZE => b[i * SLOT_SIZE..i * SLOT_SIZE + SLOT_SIZE])
  }

  lemma SlotIs(b: seq<byte>, i: nat)
    requires i < |b| / SLOT_SIZE
    ensures i * SLOT_SIZE + SLOT_SIZE <= |b| && SlotsOf(b)[i] == Slice(b, i * SLOT_SIZE, SLOT_SIZE)
  {
  }

  lemma SlotStored(b: seq<byte>, i: nat, s: Slot)
    requires i < |b| / SLOT_SIZE
    ensures i * SLOT_SIZE + SLOT_SIZE <= |b| && SlotsOf(Splice(b, i * SLOT_SIZE, s)) == SlotsOf(b)[i := s]
  {
    var b' := Splice(b, i * SLOT_SIZE, s);
    forall j: nat | j < |b| / SLOT_SIZE ensures SlotsOf(b')[j] == SlotsOf(b)[i := s][j] {
      SlotIs(b, j);
      SlotIs(b', j);
      if j != i { assert Slice(b', j * SLOT_SIZE, SLOT_SIZE) == Slice(b, j * SLOT_SIZE, SLOT_SIZE); }
    }
  }

  lemma SlotsAppended(b: seq<byte>, n: nat)
    requires |b| % SLOT_SIZE == 0 && n % SLOT_SIZE == 0
    ensures SlotsOf(b + Zeros(n)) == SlotsOf(b) + seq(n / SLOT_SIZE, _ => BLANK)
  {
    var b' := b + Zeros(n);
    forall j: nat | j < |b'| / SLOT_SIZE ensures SlotsOf(b')[j] == (SlotsOf(b) + seq(n / SLOT_SIZE, _ => BLANK))[j] {
      SlotIs(b', j);
      if j < |b| / SLOT_SIZE { SlotIs(b, j); }
    }
  }

  /** The bytes of a directory: those of its chain or, if it has none, of the fixed root directory. */
  ghost function DirBytes(g: Geometry, v: seq<byte>, ch: seq<nat>): seq<byte> {
    if !(ValidGeometry(g) && IsImage(g, v)) then []
    else if ch == [] then RootBytes(g, v)
    else if AllClusters(g, ch) then Flat(g, v, ch) else []
  }

  ghost function RootBytes(g: Geometry, v: seq<byte>): (b: seq<byte>)
    requires ValidGeometry(g) && IsImage(g, v)
    ensures |b| == SectorAddress(g, g.dataStart) - SectorAddress(g, g.rootDirStart)
  {
    FatInImage(g, v);
    v[SectorAddress(g, g.rootDirStart)..SectorAddress(g, g.dataStart)]
  }

  ghost function SlotsIn(g: Geometry, v: seq<byte>, ch: seq<nat>): seq<Slot> { SlotsOf(DirBytes(g, v, ch)) }

  /** The directory that starts at cluster `start`, or the fixed root directory. All other chains are `others`. */
  ghost predicate DirHeld(g: Geometry, v: seq<byte>, others: set<seq<nat>>, start: nat, ch: seq<nat>) {
    && Chained(g, v, others, ch)
    && if ch == [] then start == FAT16_ROOT_DIR_CLUSTER && g.rootDirStart < g.dataStart else start == ch[0]
  }

  lemma HeldOwns(g: Geometry, v: seq<byte>, others: set<seq<nat>>, start: nat, ch: seq<nat>)
    requires ch != []
    ensures DirHeld(g, v, others, start, ch) <==> Owns(g, v, others, ch) && start == ch[0]
  {
  }

  lemma HeldImage(g: Geometry, v: seq<byte>, others: set<seq<nat>>, start: nat, ch: seq<nat>)
    requires DirHeld(g, v, others, start, ch)
    ensures ValidGeometry(g) && IsImage(g, v)
    ensures ch != [] ==> AllClusters(g, ch) && Distinct(ch) && start == ch[0] && start != FAT16_ROOT_DIR_CLUSTER
    ensures ch == [] ==> start == FAT16_ROOT_DIR_CLUSTER && g.rootDirStart < g.dataStart
  {
    if ch != [] { OwnsChain(g, v, others, ch); }
  }

  lemma BytesFill(g: Geometry, n: nat)
    requires ValidGeometry(g)
    ensures SectorAddress(g, n) % SLOT_SIZE == 0
  {
    SlotsFillSector(g);
    assert n * g.bytesPerSector == n * SlotsPerSector(g) * SLOT_SIZE;
    MultipleMod(n * SlotsPerSector(g), SLOT_SIZE);
  }

  lemma ChunkFills(g: Geometry, n: nat)
    requires ValidGeometry(g)
    ensures Chunk(g, n) % SLOT_SIZE == 0 && BytesPerCluster(g) % SLOT_SIZE == 0
  {
    BytesFill(g, g.sectorsPerCluster);
    BytesFill(g, n * g.sectorsPerCluster);
    ChunkSectors(g, n);
  }

  /** How many slots there are; there is one at least. */
  lemma SlotCountIs(g: Geometry, v: seq<byte>, others: set<seq<nat>>, start: nat, ch: seq<nat>)
    requires DirHeld(g, v, others, start, ch)
    ensures |SlotsIn(g, v, ch)| * SLOT_SIZE == |DirBytes(g, v, ch)| > 0
    ensures ch != [] ==> |DirBytes(g, v, ch)| == Chunk(g, |ch|)
    ensures ch == [] ==> |DirBytes(g, v, ch)| == SectorAddress(g, g.dataStart - g.rootDirStart)
  {
    HeldImage(g, v, others, start, ch);
    ClusterSizes(g);
    if ch == [] {
      Distribute(g.rootDirStart, g.dataStart - g.rootDirStart, g.bytesPerSector);
      BytesFill(g, g.dataStart - g.rootDirStart);
      MulMonotone(1, g.dataStart - g.rootDirStart, g.bytesPerSector);
    } else {
      ChunkFills(g, |ch|);
      ChunkStep(g, 0);
      ChunkMonotone(g, 1, |ch|);
    }
  }

  // ----- positions -----

  /** Slot `i` of a directory with chain `ch`, in the `k`-th cluster. */
  ghost predicate SlotAt(g: Geometry, ch: seq<nat>, pos: DirPosition, k: nat, i: int) {
    && k < |ch| && pos.cluster == ch[k] && pos.sector < g.sectorsPerCluster && -1 <= pos.offset < SlotsPerSector(g)
    && i * SLOT_SIZE == Chunk(g, k) + SectorAddress(g, pos.sector) + pos.offset * SLOT_SIZE
    && (pos.offset == -1 ==> i == -1)
  }

  /** Slot `i` of a root directory of fixed size. */
  ghost predicate RootSlotAt(g: Geometry, pos: DirPosition, i: int) {
    && pos.cluster == FAT16_ROOT_DIR_CLUSTER && g.rootDirStart + pos.sector < g.dataStart
       && -1 <= pos.offset < SlotsPerSector(g)
    && i * SLOT_SIZE == SectorAddress(g, pos.sector) + pos.offset * SLOT_SIZE
    && (pos.offset == -1 ==> i == -1)
  }

  ghost predicate PlacedAt(g: Geometry, ch: seq<nat>, pos: DirPosition, i: int) {
    if ch == [] then RootSlotAt(g, pos, i) else exists k :: SlotAt(g, ch, pos, k, i)
  }

  /** Where a scan starts: before the first slot, or at it. */
  lemma AtFirst(g: Geometry, v: seq<byte>, others: set<seq<nat>>, start: nat, ch: seq<nat>)
    requires DirHeld(g, v, others, start, ch)
    ensures PlacedAt(g, ch, DirPosition(start, 0, -1), -1) && PlacedAt(g, ch, DirPosition(start, 0, 0), 0)
  {
    HeldImage(g, v, others, start, ch);
    SlotsFillSector(g);
    ChunkStep(g, 0);
    if ch != [] {
      assert SlotAt(g, ch, DirPosition(start, 0, -1), 0, -1);
      assert SlotAt(g, ch, DirPosition(start, 0, 0), 0, 0);
    }
  }

  lemma AtGrows(g: Geometry, ch: seq<nat>, ch': seq<nat>, pos: DirPosition, i: int)
    requires PlacedAt(g, ch, pos, i) && ch <= ch' && (ch == [] ==> ch' == [])
    ensures PlacedAt(g, ch', pos, i)
  {
    if ch != [] {
      var k :| SlotAt(g, ch, pos, k, i);
      assert SlotAt(g, ch', pos, k, i);
    }
  }

  /** A position is that of one slot, and a slot has one position. */
  lemma OnePosition(g: Geometry, ch: seq<nat>, pos: DirPosition, i: nat, pos': DirPosition, j: nat)
    requires ValidGeometry(g) && Distinct(ch) && PlacedAt(g, ch, pos, i) && PlacedAt(g, ch, pos', j)
    ensures pos == pos' <==> i == j
  {
    hide Chunk;
    ClusterSizes(g);
    SlotsFillSector(g);
    if ch == [] {
      InSector(g, pos);
      InSector(g, pos');
      if i == j { SameSector(g, pos, pos'); }
    } else {
      var k: nat :| SlotAt(g, ch, pos, k, i);
      var l: nat :| SlotAt(g, ch, pos', l, j);
      if pos == pos' { assert k == l; }
      if i == j { SameCluster(g, ch, pos, k, pos', l, i); }
    }
  }

  lemma InSector(g: Geometry, pos: DirPosition)
    requires ValidGeometry(g) && 0 <= pos.offset < SlotsPerSector(g)
    ensures pos.offset * SLOT_SIZE + SLOT_SIZE <= g.bytesPerSector
  {
    SlotsFillSector(g);
    MulMonotone(pos.offset + 1, SlotsPerSector(g), SLOT_SIZE);
  }

  lemma SameSector(g: Geometry, pos: DirPosition, pos': DirPosition)
    requires ValidGeometry(g) && 0 <= pos.offset < SlotsPerSector(g) && 0 <= pos'.offset < SlotsPerSector(g)
    requires SectorAddress(g, pos.sector) + pos.offset * SLOT_SIZE
             == SectorAddress(g, pos'.sector) + pos'.offset * SLOT_SIZE
    ensures pos.sector == pos'.sector && pos.offset == pos'.offset
  {
    InSector(g, pos);
    InSector(g, pos');
    var a := SectorAddress(g, pos.sector) + pos.offset * SLOT_SIZE;
    DivModUnique(a, g.bytesPerSector, pos.sector, pos.offset * SLOT_SIZE);
    DivModUnique(a, g.bytesPerSector, pos'.sector, pos'.offset * SLOT_SIZE);
  }

  lemma SameCluster(g: Geometry, ch: seq<nat>, pos: DirPosition, k: nat, pos': DirPosition, l: nat, i: nat)
    requires ValidGeometry(g) && SlotAt(g, ch, pos, k, i) && SlotAt(g, ch, pos', l, i)
    ensures pos == pos'
  {
    InSector(g, pos);
    InSector(g, pos');
    SectorSpan(g, pos.sector);
    SectorSpan(g, pos'.sector);
    hide BytesPerCluster;
    ClusterSizes(g);
    var r, r' := SectorAddress(g, pos.sector) + pos.offset * SLOT_SIZE, SectorAddress(g, pos'.sector)
        + pos'.offset * SLOT_SIZE;
    DivModUnique(i * SLOT_SIZE, BytesPerCluster(g), k, r);
    DivModUnique(i * SLOT_SIZE, BytesPerCluster(g), l, r');
    SameSector(g, pos, pos');
  }

  // ----- the bytes of a slot -----

  function SlotAddress(g: Geometry, pos: DirPosition): int {
    SectorAddress(g, ClusterToSector(g, pos.cluster) + pos.sector) + pos.offset * SLOT_SIZE
  }

  lemma SlotPlace(g: Geometry, v: seq<byte>, others: set<seq<nat>>, start: nat, ch: seq<nat>, pos: DirPosition, i: nat)
    requires DirHeld(g, v, others, start, ch) && PlacedAt(g, ch, pos, i)
    ensures 0 <= pos.offset && pos.offset * SLOT_SIZE + SLOT_SIZE <= g.bytesPerSector
    ensures ClusterToSector(g, pos.cluster) + pos.sector < g.endOfPartition
    ensures 0 <= SlotAddress(g, pos) && SlotAddress(g, pos) + SLOT_SIZE <= |v|
    ensures i < |SlotsIn(g, v, ch)| && SlotsIn(g, v, ch)[i] == Slice(v, SlotAddress(g, pos), SLOT_SIZE)
  {
    hide Chunk, Flat, Slice, Chained;
    HeldImage(g, v, others, start, ch);
    InSector(g, pos);
    if ch == [] { RootPlace(g, v, pos, i); } else { ChainPlace(g, v, ch, pos, i); }
  }

  lemma RootPlace(g: Geometry, v: seq<byte>, pos: DirPosition, i: nat)
    requires ValidGeometry(g) && IsImage(g, v) && RootSlotAt(g, pos, i)
    ensures ClusterToSector(g, pos.cluster) + pos.sector < g.endOfPartition
    ensures SectorAddress(g, g.rootDirStart) <= SlotAddress(g, pos)
            && SlotAddress(g, pos) + SLOT_SIZE <= SectorAddress(g, g.dataStart) <= |v|
    ensures SlotAddress(g, pos) == SectorAddress(g, g.rootDirStart) + i * SLOT_SIZE
    ensures i < |SlotsIn(g, v, [])| && SlotsIn(g, v, [])[i] == Slice(v, SlotAddress(g, pos), SLOT_SIZE)
  {
    hide RootBytes, FatEnd;
    FatInImage(g, v);
    RootAddress(g, pos, i);
    RootSlice(g, v, i * SLOT_SIZE);
    SlotIs(RootBytes(g, v), i);
  }

  lemma RootAddress(g: Geometry, pos: DirPosition, i: nat)
    requires ValidGeometry(g) && RootSlotAt(g, pos, i)
    ensures SlotAddress(g, pos) == SectorAddress(g, g.rootDirStart) + i * SLOT_SIZE
    ensures SlotAddress(g, pos) + SLOT_SIZE <= SectorAddress(g, g.dataStart)
  {
    InSector(g, pos);
    Distribute(g.rootDirStart, pos.sector, g.bytesPerSector);
    MulMonotone(g.rootDirStart + pos.sector, g.dataStart, g.bytesPerSector);
  }

  lemma RootSlice(g: Geometry, v: seq<byte>, o: nat)
    requires ValidGeometry(g) && IsImage(g, v)
             && SectorAddress(g, g.rootDirStart) + o + SLOT_SIZE <= SectorAddress(g, g.dataStart)
    ensures SectorAddress(g, g.rootDirStart) + o + SLOT_SIZE <= |v|
    ensures Slice(RootBytes(g, v), o, SLOT_SIZE) == Slice(v, SectorAddress(g, g.rootDirStart) + o, SLOT_SIZE)
  {
    hide ValidGeometry, FatEnd;
    FatInImage(g, v);
    var b, a := RootBytes(g, v), SectorAddress(g, g.rootDirStart);
    assert Slice(b, 0, |b|) == b == Slice(v, a, |b|);
    SubSlices(b, 0, v, a, |b|, o, SLOT_SIZE);
  }

  /** The same place as one of a file. */
  function FilePlace(pos: DirPosition): FilePosition
    requires pos.offset >= 0
  {
    FilePosition(pos.cluster, pos.sector, pos.offset * SLOT_SIZE)
  }

  lemma ChainPlace(g: Geometry, v: seq<byte>, ch: seq<nat>, pos: DirPosition, i: nat)
    requires ValidGeometry(g) && IsImage(g, v) && AllClusters(g, ch) && ch != [] && PlacedAt(g, ch, pos, i)
    ensures ClusterToSector(g, pos.cluster) + pos.sector < g.endOfPartition
    ensures 0 <= SlotAddress(g, pos) && SlotAddress(g, pos) + SLOT_SIZE <= |v|
    ensures i < |SlotsIn(g, v, ch)| && SlotsIn(g, v, ch)[i] == Slice(v, SlotAddress(g, pos), SLOT_SIZE)
  {
    hide Chunk, Flat, Slice, ValidGeometry;
    var k: nat :| SlotAt(g, ch, pos, k, i);
    InSector(g, pos);
    SectorSpan(g, pos.sector);
    ReadPlace(g, v, ch, FilePlace(pos), k, i * SLOT_SIZE, SLOT_SIZE);
    SlotIs(Flat(g, v, ch), i);
  }

  // ----- storing a slot -----

  /** What a stored slot changes: that slot, and nothing of the table and the other chains. */
  lemma SlotPut(g: Geometry, v: seq<byte>, v': seq<byte>, others: set<seq<nat>>, start: nat, ch: seq<nat>,
                pos: DirPosition, i: nat, s: Slot)
    requires DirHeld(g, v, others, start, ch) && PlacedAt(g, ch, pos, i)
    requires 0 <= SlotAddress(g, pos) && SlotAddress(g, pos) + SLOT_SIZE <= |v|
             && v' == Splice(v, SlotAddress(g, pos), s)
    ensures DirHeld(g, v', others, start, ch) && SameTable(g, v, v') && OthersKept(g, v, v', others)
    ensures i < |SlotsIn(g, v, ch)| && SlotsIn(g, v', ch) == SlotsIn(g, v, ch)[i := s]
  {
    hide Chunk, Flat, Table, SlotAddress, Splice, OthersKept, SlotsIn, Forest, PlacedAt, SameTable;
    HeldImage(g, v, others, start, ch);
    SlotPlace(g, v, others, start, ch, pos, i);
    if ch == [] {
      RootPut(g, v, v', others, start, pos, i, s);
    } else {
      ChainPut(g, v, v', others, start, ch, pos, i, s);
    }
  }

  lemma RootPut(g: Geometry, v: seq<byte>, v': seq<byte>, others: set<seq<nat>>, start: nat, pos: DirPosition, i: nat,
                s: Slot)
    requires DirHeld(g, v, others, start, []) && PlacedAt(g, [], pos, i)
    requires 0 <= SlotAddress(g, pos) && SlotAddress(g, pos) + SLOT_SIZE <= |v|
             && v' == Splice(v, SlotAddress(g, pos), s)
    ensures DirHeld(g, v', others, start, []) && SameTable(g, v, v') && OthersKept(g, v, v', others)
    ensures i < |SlotsIn(g, v, [])| && SlotsIn(g, v', []) == SlotsIn(g, v, [])[i := s]
  {
    hide Table, SlotAddress, Forest, FatBase, FatEnd, ValidGeometry, RootBytes, SectorAddress, OthersKept, RootSlotAt,
      With;
    HeldImage(g, v, others, start, []);
    RootPlace(g, v, pos, i);
    FatInImage(g, v);
    TableFrame(g, v, v');
    RootOthers(g, v, v', others);
    RootSplice(g, v, v', i * SLOT_SIZE, s);
    SlotStored(RootBytes(g, v), i, s);
  }

  lemma RootSplice(g: Geometry, v: seq<byte>, v': seq<byte>, o: nat, s: Slot)
    requires ValidGeometry(g) && IsImage(g, v)
             && SectorAddress(g, g.rootDirStart) + o + SLOT_SIZE <= SectorAddress(g, g.dataStart) <= |v|
    requires v' == Splice(v, SectorAddress(g, g.rootDirStart) + o, s)
    ensures RootBytes(g, v') == Splice(RootBytes(g, v), o, s)
  {
    hide ValidGeometry;
    FatInImage(g, v);
  }

  /** No cluster is in the root directory's sectors. */
  lemma RootOthers(g: Geometry, v: seq<byte>, v': seq<byte>, others: set<seq<nat>>)
    requires ValidGeometry(g) && IsImage(g, v) && IsImage(g, v')
    requires forall a :: SectorAddress(g, g.dataStart) <= a < |v| ==> v'[a] == v[a]
    ensures OthersKept(g, v, v', others)
  {
    hide Flat, AllClusters;
    forall ch | ch in others && AllClusters(g, ch) ensures Flat(g, v', ch) == Flat(g, v, ch) {
      RootOther(g, v, v', ch);
    }
  }

  lemma RootOther(g: Geometry, v: seq<byte>, v': seq<byte>, ch: seq<nat>)
    requires ValidGeometry(g) && IsImage(g, v) && IsImage(g, v') && AllClusters(g, ch)
    requires forall a :: SectorAddress(g, g.dataStart) <= a < |v| ==> v'[a] == v[a]
    ensures Flat(g, v', ch) == Flat(g, v, ch)
  {
    forall a, i | 0 <= a < |v| && 0 <= i < |ch| && InCluster(g, ch[i], a) ensures v'[a] == v[a] {
      SectorOfCluster(g, ch[i], 0);
      MulMonotone(g.dataStart, ClusterToSector(g, ch[i]), g.bytesPerSector);
    }
    FlatFrame(g, v, v', ch);
  }

  lemma ChainPut(g: Geometry, v: seq<byte>, v': seq<byte>, others: set<seq<nat>>, start: nat, ch: seq<nat>,
                 pos: DirPosition, i: nat, s: Slot)
    requires DirHeld(g, v, others, start, ch) && ch != [] && PlacedAt(g, ch, pos, i) && pos.offset >= 0
    requires 0 <= SlotAddress(g, pos) && SlotAddress(g, pos) + SLOT_SIZE <= |v|
             && v' == Splice(v, SlotAddress(g, pos), s)
    ensures DirHeld(g, v', others, start, ch) && SameTable(g, v, v') && OthersKept(g, v, v', others)
    ensures i < |SlotsIn(g, v, ch)| && SlotsIn(g, v', ch) == SlotsIn(g, v, ch)[i := s]
  {
    hide Table, Chunk, Flat, Forest, ValidGeometry, Splice, Owns, Wrote, AllClusters, DirHeld;
    HeldImage(g, v, others, start, ch);
    HeldOwns(g, v, others, start, ch);
    HeldOwns(g, v', others, start, ch);
    SlotPlace(g, v, others, start, ch, pos, i);
    var k: nat :| SlotAt(g, ch, pos, k, i);
    SectorSpan(g, pos.sector);
    Stored(g, v, v', others, ch, FilePlace(pos), k, i * SLOT_SIZE, s);
    WroteOthers(g, v, ch, v', ch, i * SLOT_SIZE, s, others);
    WroteInside(g, v, v', ch, i * SLOT_SIZE, s);
    SlotStored(Flat(g, v, ch), i, s);
  }

  lemma WroteInside(g: Geometry, v: seq<byte>, v': seq<byte>, ch: seq<nat>, p: nat, data: seq<byte>)
    requires Wrote(g, v, ch, v', ch, p, data)
    ensures p + |data| <= |Flat(g, v, ch)| && Flat(g, v', ch) == Splice(Flat(g, v, ch), p, data)
  {
    hide Flat, SameOutside, Chunk, ValidGeometry, AllClusters;
    var f, f' := Flat(g, v, ch), Flat(g, v', ch);
    forall i | 0 <= i < |f| ensures f'[i] == Splice(f, p, data)[i] {
      if p <= i < p + |data| { assert f'[i] == Slice(f', p, |data|)[i - p]; }
    }
  }

  /** Reading and writing the slot at a position. */
  method ReadSlot(part: P.Partition, pos: DirPosition, ghost others: set<seq<nat>>, ghost start: nat,
                  ghost ch: seq<nat>, ghost i: nat)
    returns (s: Slot)
    requires part.Valid() && DirHeld(part.geometry, part.cache.view, others, start, ch)
             && PlacedAt(part.geometry, ch, pos, i)
    modifies part.cache`accessCounter, part.cache`ticks, part.cache`touched, part.cache.entries, part.cache.disc
    ensures part.Valid()
    ensures i < |SlotsIn(part.geometry, part.cache.view, ch)| && s == SlotsIn(part.geometry, part.cache.view, ch)[i]
  {
    hide DirHeld, PlacedAt, SlotsIn, Coherent, Recent, ValidGeometry, Slice, IsImage;
    SlotPlace(part.geometry, part.cache.view, others, start, ch, pos, i);
    s := part.ReadPart(ClusterToSector(part.geometry, pos.cluster) + pos.sector, pos.offset * SLOT_SIZE, SLOT_SIZE);
  }

  method WriteSlot(part: P.Partition, pos: DirPosition, s: Slot, ghost others: set<seq<nat>>, ghost start: nat,
                   ghost ch: seq<nat>, ghost i: nat)
    requires part.Valid() && DirHeld(part.geometry, part.cache.view, others, start, ch)
             && PlacedAt(part.geometry, ch, pos, i)
    modifies part.cache, part.cache.entries, part.cache.disc
    ensures part.Valid() && DirHeld(part.geometry, part.cache.view, others, start, ch)
    ensures SameTable(part.geometry, old(part.cache.view), part.cache.view)
    ensures OthersKept(part.geometry, old(part.cache.view), part.cache.view, others)
    ensures i < |SlotsIn(part.geometry, old(part.cache.view), ch)|
    ensures SlotsIn(part.geometry, part.cache.view, ch) == SlotsIn(part.geometry, old(part.cache.view), ch)[i := s]
  {
    hide DirHeld, PlacedAt, SlotsIn, Coherent, Recent, ValidGeometry, SameTable, OthersKept, IsImage;
    ghost var v := part.cache.view;
    SlotPlace(part.geometry, v, others, start, ch, pos, i);
    TakeAll(s);
    part.WritePart(Cache.Buffer(s), ClusterToSector(part.geometry, pos.cluster)
        + pos.sector, pos.offset * SLOT_SIZE, SLOT_SIZE);
    SlotPut(part.geometry, v, part.cache.view, others, start, ch, pos, i, s);
  }

  // ----- stepping -----

  /** The directory with a cleared cluster added: blank slots behind the old ones, nothing else changed. */
  ghost predicate Extended(g: Geometry, v: seq<byte>, ch: seq<nat>, v': seq<byte>, ch': seq<nat>,
                           others: set<seq<nat>>) {
    && ch != [] && ch <= ch' && |ch'| == |ch| + 1
    && SlotsIn(g, v', ch') == SlotsIn(g, v, ch) + seq(BytesPerCluster(g) / SLOT_SIZE, _ => BLANK)
    && OthersKept(g, v, v', others) && FreeCount(g, v) == FreeCount(g, v') + 1
  }

  /** One step, inside a sector, to the next sector, to the next cluster of a chain, or to a cleared
      cluster that is added to it. The end of a fixed root directory cannot be passed; the end of a chain
      can exactly if the directory may grow and a cluster is free. */
  method Step(part: P.Partition, pos: DirPosition, extend: bool, ghost others: set<seq<nat>>, ghost start: nat,
              ghost ch: seq<nat>, ghost i: int)
    returns (ok: bool, pos': DirPosition, ghost ch': seq<nat>)
    requires part.Valid() && DirHeld(part.geometry, part.cache.view, others, start, ch)
             && PlacedAt(part.geometry, ch, pos, i) && i >= -1
    requires extend ==> Searchable(part.geometry, part.cache.view, part.firstFree)
    modifies part, part.cache, part.cache.entries, part.cache.disc
    ensures part.Valid() && DirHeld(part.geometry, part.cache.view, others, start, ch')
    ensures ok == (i + 1 < |SlotsIn(part.geometry, old(part.cache.view), ch)|
                   || (extend && ch != [] && FreeCount(part.geometry, old(part.cache.view)) > 0))
    ensures ok ==> PlacedAt(part.geometry, ch', pos', i + 1)
    ensures !ok ==> pos' == pos && i + 1 == |SlotsIn(part.geometry, part.cache.view, ch)|
    ensures ch' == ch ==> part.cache.view == old(part.cache.view)
    ensures ch' != ch ==>
              && ok && extend && i + 1 == |SlotsIn(part.geometry, old(part.cache.view), ch)|
              && Extended(part.geometry, old(part.cache.view), ch, part.cache.view, ch', others)
    ensures ok && extend ==> Searchable(part.geometry, part.cache.view, part.firstFree)
  {
    hide DirHeld, Coherent, Recent, ValidGeometry, Searchable, Extended, SlotsIn, PlacedAt, FreeCount;
    var g := part.geometry;
    Positions(g, part.cache.view, others, start, ch, pos, i);
    ok, pos', ch' := true, pos.(offset := pos.offset + 1), ch;
    if pos'.offset == g.bytesPerSector / SLOT_SIZE {
      pos' := pos'.(offset := 0, sector := pos.sector + 1);
      if pos'.sector == g.sectorsPerCluster && pos.cluster != FAT16_ROOT_DIR_CLUSTER {
        ok, pos', ch' := StepCluster(part, pos', extend, others, start, ch, i);
      } else if pos.cluster == FAT16_ROOT_DIR_CLUSTER && pos'.sector == g.dataStart - g.rootDirStart {
        ok := false;
      }
    }
    if !ok { pos' := pos; }
  }

  /** Where a step leads, before the ends of clusters are looked at. */
  lemma Positions(g: Geometry, v: seq<byte>, others: set<seq<nat>>, start: nat, ch: seq<nat>, pos: DirPosition, i: int)
    requires DirHeld(g, v, others, start, ch) && PlacedAt(g, ch, pos, i) && i >= -1
    ensures pos.cluster == FAT16_ROOT_DIR_CLUSTER <==> ch == []
    ensures pos.offset + 1 <= g.bytesPerSector / SLOT_SIZE
    ensures pos.offset + 1 < g.bytesPerSector / SLOT_SIZE ==>
              PlacedAt(g, ch, pos.(offset := pos.offset + 1), i + 1) && i + 1 < |SlotsIn(g, v, ch)|
    ensures pos.offset + 1 == g.bytesPerSector / SLOT_SIZE ==>
              var next := DirPosition(pos.cluster, pos.sector + 1, 0);
              if ch == [] then
                if next.sector == g.dataStart - g.rootDirStart then i + 1 == |SlotsIn(g, v, ch)|
                else PlacedAt(g, ch, next, i + 1) && i + 1 < |SlotsIn(g, v, ch)|
              else if next.sector == g.sectorsPerCluster then EdgeAt(g, ch, pos.cluster, i)
              else PlacedAt(g, ch, next, i + 1) && i + 1 < |SlotsIn(g, v, ch)|
  {
    hide Chunk, DirHeld, SlotsIn;
    HeldImage(g, v, others, start, ch);
    SlotsFillSector(g);
    SectorAdd(g, pos.sector, 1);
    SlotCountIs(g, v, others, start, ch);
    if ch == [] {
      RootStep(g, v, others, start, pos, i);
    } else {
      var k: nat :| SlotAt(g, ch, pos, k, i);
      ChainStepAt(g, v, others, start, ch, pos, k, i);
    }
  }

  /** The last slot of a cluster. */
  ghost predicate EdgeAt(g: Geometry, ch: seq<nat>, cluster: nat, i: int) {
    exists k :: 0 <= k < |ch| && ch[k] == cluster && (i + 1) * SLOT_SIZE == Chunk(g, k + 1)
  }

  lemma RootStep(g: Geometry, v: seq<byte>, others: set<seq<nat>>, start: nat, pos: DirPosition, i: int)
    requires DirHeld(g, v, others, start, []) && RootSlotAt(g, pos, i) && i >= -1
    ensures pos.offset + 1 < SlotsPerSector(g) ==>
              RootSlotAt(g, pos.(offset := pos.offset + 1), i + 1) && i + 1 < |SlotsIn(g, v, [])|
    ensures pos.offset + 1 == SlotsPerSector(g) ==>
              if pos.sector + 1 == g.dataStart - g.rootDirStart then i + 1 == |SlotsIn(g, v, [])|
              else RootSlotAt(g, DirPosition(pos.cluster, pos.sector + 1, 0), i + 1) && i + 1 < |SlotsIn(g, v, [])|
  {
    hide SlotsIn, Chained;
    HeldImage(g, v, others, start, []);
    SlotsFillSector(g);
    SectorAdd(g, pos.sector, 1);
    SlotCountIs(g, v, others, start, []);
    hide DirHeld;
    if pos.offset + 1 < SlotsPerSector(g) {
      SlotPlace(g, v, others, start, [], pos.(offset := pos.offset + 1), i + 1);
    } else if pos.sector + 1 != g.dataStart - g.rootDirStart {
      SlotPlace(g, v, others, start, [], DirPosition(pos.cluster, pos.sector + 1, 0), i + 1);
    }
  }

  lemma ChainStepAt(g: Geometry, v: seq<byte>, others: set<seq<nat>>, start: nat, ch: seq<nat>, pos: DirPosition,
                    k: nat, i: int)
    requires DirHeld(g, v, others, start, ch) && ch != [] && SlotAt(g, ch, pos, k, i) && i >= -1
    ensures pos.cluster != FAT16_ROOT_DIR_CLUSTER
    ensures pos.offset + 1 < SlotsPerSector(g) ==>
              PlacedAt(g, ch, pos.(offset := pos.offset + 1), i + 1) && i + 1 < |SlotsIn(g, v, ch)|
    ensures pos.offset + 1 == SlotsPerSector(g) ==>
              if pos.sector + 1 == g.sectorsPerCluster then EdgeAt(g, ch, pos.cluster, i)
              else PlacedAt(g, ch, DirPosition(pos.cluster, pos.sector + 1, 0), i + 1) && i + 1 < |SlotsIn(g, v, ch)|
  {
    hide Chunk, DirHeld, SlotsIn;
    HeldImage(g, v, others, start, ch);
    SlotsFillSector(g);
    SectorAdd(g, pos.sector, 1);
    if pos.offset + 1 < SlotsPerSector(g) {
      assert SlotAt(g, ch, pos.(offset := pos.offset + 1), k, i + 1);
      SlotPlace(g, v, others, start, ch, pos.(offset := pos.offset + 1), i + 1);
    } else if pos.sector + 1 != g.sectorsPerCluster {
      assert SlotAt(g, ch, DirPosition(pos.cluster, pos.sector + 1, 0), k, i + 1);
      SlotPlace(g, v, others, start, ch, DirPosition(pos.cluster, pos.sector + 1, 0), i + 1);
    } else {
      SectorSpan(g, g.sectorsPerCluster);
      ChunkStep(g, k);
      assert (i + 1) * SLOT_SIZE == Chunk(g, k + 1);
    }
  }

  /** From the end of a cluster to the next one. */
  method StepCluster(part: P.Partition, pos: DirPosition, extend: bool, ghost others: set<seq<nat>>, ghost start: nat,
                     ghost ch: seq<nat>, ghost i: int)
    returns (ok: bool, pos': DirPosition, ghost ch': seq<nat>)
    requires part.Valid() && DirHeld(part.geometry, part.cache.view, others, start, ch) && ch != []
    requires EdgeAt(part.geometry, ch, pos.cluster, i) && pos.offset == 0 && i >= -1
    requires extend ==> Searchable(part.geometry, part.cache.view, part.firstFree)
    modifies part, part.cache, part.cache.entries, part.cache.disc
    ensures part.Valid() && DirHeld(part.geometry, part.cache.view, others, start, ch')
    ensures ok == (i + 1 < |SlotsIn(part.geometry, old(part.cache.view), ch)|
                   || (extend && FreeCount(part.geometry, old(part.cache.view)) > 0))
    ensures ok ==> PlacedAt(part.geometry, ch', pos', i + 1)
    ensures !ok ==> i + 1 == |SlotsIn(part.geometry, part.cache.view, ch)|
    ensures ch' == ch ==> part.cache.view == old(part.cache.view)
    ensures ch' != ch ==>
              && ok && extend && i + 1 == |SlotsIn(part.geometry, old(part.cache.view), ch)|
              && Extended(part.geometry, old(part.cache.view), ch, part.cache.view, ch', others)
    ensures ok && extend ==> Searchable(part.geometry, part.cache.view, part.firstFree)
  {
    hide DirHeld, Coherent, Recent, ValidGeometry, Searchable, Extended, SlotsIn, Chunk, Owns, Table, IsChain,
      FreeCount;
    var g := part.geometry;
    ghost var v := part.cache.view;
    ghost var k: nat :| 0 <= k < |ch| && ch[k] == pos.cluster && (i + 1) * SLOT_SIZE == Chunk(g, k + 1);
    EdgeFacts(part, others, start, ch, k, i);
    ok, ch' := true, ch;
    var next := part.NextCluster(pos.cluster);
    if next == CLUSTER_EOF {
      ok := false;
      if extend {
        ok, next, ch' := GrowCleared(part, pos.cluster, others, start, ch);
      }
    }
    pos' := DirPosition(next, 0, pos.offset);
    if ok { NextClusterAt(g, ch', next, k + 1, i + 1); }
  }

  lemma EdgeFacts(part: P.Partition, others: set<seq<nat>>, start: nat, ch: seq<nat>, k: nat, i: int)
    requires part.Valid() && DirHeld(part.geometry, part.cache.view, others, start, ch) && k < |ch|
    requires (i + 1) * SLOT_SIZE == Chunk(part.geometry, k + 1)
    ensures Chains.Valid(part.T(), ch[k]) && part.T()[ch[k]] == if k + 1 < |ch| then ch[k + 1] else CLUSTER_EOF
    ensures k + 1 < |ch| ==> ch[k + 1] != CLUSTER_EOF && i + 1 < |SlotsIn(part.geometry, part.cache.view, ch)|
    ensures k + 1 == |ch| ==> i + 1 == |SlotsIn(part.geometry, part.cache.view, ch)|
  {
    hide SlotsIn, Chunk, Table, IsChain, Forest, Chained, Coherent, Recent;
    var g := part.geometry;
    HeldOwns(g, part.cache.view, others, start, ch);
    OwnsChain(g, part.cache.view, others, ch);
    ChainStep(part.T(), ch, k);
    SlotCountIs(g, part.cache.view, others, start, ch);
    ClusterSizes(g);
    if k + 1 < |ch| { ChunkMonotone(g, k + 1, |ch|); }
  }

  lemma NextClusterAt(g: Geometry, ch: seq<nat>, next: nat, k: nat, i: int)
    requires ValidGeometry(g) && k < |ch| && ch[k] == next && i * SLOT_SIZE == Chunk(g, k)
    ensures PlacedAt(g, ch, DirPosition(next, 0, 0), i)
  {
    SlotsFillSector(g);
    assert SlotAt(g, ch, DirPosition(next, 0, 0), k, i);
  }

  /** One more cluster, full of zeros; the rest of the directory is as before. */
  ghost predicate GrownByZeros(g: Geometry, v: seq<byte>, ch: seq<nat>, v': seq<byte>, ch': seq<nat>) {
    && ValidGeometry(g) && IsImage(g, v) && IsImage(g, v') && AllClusters(g, ch) && AllClusters(g, ch')
    && ch < ch' && |ch'| == |ch| + 1
    && Flat(g, v', ch') == Flat(g, v, ch) + Zeros(BytesPerCluster(g))
    && SameOutside(g, ch', v, v')
  }

  method GrowCleared(part: P.Partition, cluster: nat, ghost others: set<seq<nat>>, ghost start: nat, ghost ch: seq<nat>)
    returns (ok: bool, next: nat, ghost ch': seq<nat>)
    requires part.Valid() && DirHeld(part.geometry, part.cache.view, others, start, ch)
    requires Searchable(part.geometry, part.cache.view, part.firstFree) && |ch| > 0 && cluster == ch[|ch| - 1]
    modifies part, part.cache, part.cache.entries, part.cache.disc
    ensures part.Valid() && DirHeld(part.geometry, part.cache.view, others, start, ch')
    ensures ok == (FreeCount(part.geometry, old(part.cache.view)) > 0)
    ensures ok ==> ch' == ch + [next] && Extended(part.geometry, old(part.cache.view), ch, part.cache.view, ch', others)
                   && Searchable(part.geometry, part.cache.view, part.firstFree)
    ensures !ok ==> ch' == ch && part.cache.view == old(part.cache.view)
  {
    hide Owns, DirHeld, Extended, Searchable, Coherent, Recent, ValidGeometry, FreeCount;
    ghost var v := part.cache.view;
    HeldOwns(part.geometry, v, others, start, ch);
    ok, next, ch' := LinkCleared(part, cluster, others, ch);
    if ok {
      HeldOwns(part.geometry, part.cache.view, others, start, ch');
      ClearedExtends(part.geometry, v, part.cache.view, others, start, ch, ch');
    }
  }

  method LinkCleared(part: P.Partition, cluster: nat, ghost others: set<seq<nat>>, ghost ch: seq<nat>)
    returns (ok: bool, next: nat, ghost ch': seq<nat>)
    requires Held(part, others, ch) && Searchable(part.geometry, part.cache.view, part.firstFree) && |ch| > 0
             && cluster == ch[|ch| - 1]
    modifies part, part.cache, part.cache.entries, part.cache.disc
    ensures Held(part, others, ch') && ok == (FreeCount(part.geometry, old(part.cache.view)) > 0)
    ensures ok ==> ch' == ch + [next] && GrownByZeros(part.geometry, old(part.cache.view), ch, part.cache.view, ch')
                   && Searchable(part.geometry, part.cache.view, part.firstFree)
    ensures !ok ==> ch' == ch && part.cache.view == old(part.cache.view)
  {
    hide ValidGeometry, Coherent, Recent, Owns, Searchable, Stray, Link, Attach, FreeSet, Table, ClusterAddress,
      BytesPerCluster, GrownByZeros, SameOutside, OnDisc, IsImage, FreeCount;
    var g := part.geometry;
    ghost var v, hint := part.cache.view, part.firstFree;
    LinkFacts(part, others, ch);
    ok, ch' := true, ch;
    next := part.LinkFreeClusterCleared(cluster);
    if !(CLUSTER_FIRST <= next <= g.lastCluster) {
      ok := false;
    } else {
      LinkedCleared(part, v, hint, others, ch, next);
      ch' := ch + [next];
    }
  }

  /** What linking a free cluster behind a chain will do. */
  lemma LinkFacts(part: P.Partition, others: set<seq<nat>>, ch: seq<nat>)
    requires Held(part, others, ch) && Searchable(part.geometry, part.cache.view, part.firstFree) && |ch| > 0
    ensures ValidGeometry(part.geometry) && IsImage(part.geometry, part.cache.view) && !Stray(part.T(), part.firstFree)
    ensures var t := part.T();
            var r := Link(t, ch[|ch| - 1], part.firstFree, part.Beyond());
            && (r.result == CLUSTER_ERROR || (r.result in FreeSet(t) && IsCluster(part.geometry, r.result)))
            && (r.result == CLUSTER_ERROR <==> FreeCount(part.geometry, part.cache.view) == 0)
  {
    var t := part.T();
    OwnsChain(part.geometry, part.cache.view, others, ch);
    ChainStep(t, ch, |ch| - 1);
    LinkSoundIffNotStray(t, ch[|ch| - 1], part.firstFree, part.Beyond());
    hide Table, IsChain, Link;
  }

  lemma LinkedCleared(part: P.Partition, v: seq<byte>, hint: nat, others: set<seq<nat>>, ch: seq<nat>, next: nat)
    requires part.Valid() && Owns(part.geometry, v, others, ch) && |ch| > 0 && Searchable(part.geometry, v, hint)
    requires var r := Link(Table(part.geometry, v), ch[|ch| - 1], hint, part.Beyond());
             next == r.result && part.T() == r.table && part.firstFree == r.hint
    requires next in FreeSet(Table(part.geometry, v)) && IsCluster(part.geometry, next)
    requires ClusterAddress(part.geometry, next) + BytesPerCluster(part.geometry) <= |part.cache.view|
    requires forall a ::
               ClusterAddress(part.geometry, next) <= a < ClusterAddress(part.geometry, next)
               + BytesPerCluster(part.geometry)
               ==> part.cache.view[a] == 0
    requires SameOutside(part.geometry, [next], v, part.cache.view)
    ensures Held(part, others, ch + [next]) && GrownByZeros(part.geometry, v, ch, part.cache.view, ch + [next])
    ensures Searchable(part.geometry, part.cache.view, part.firstFree)
  {
    hide ClusterAddress, BytesPerCluster, SameOutside, GrownByZeros, Forest, Coherent, Recent;
    var g := part.geometry;
    OwnsChain(g, v, others, ch);
    LinkedTable(part, v, hint, others, ch, next);
    UsedNotFree(Table(g, v), others + {ch}, next);
    OwnsExtends(g, v, part.cache.view, others, ch, next);
    ClearedGrows(g, v, part.cache.view, ch, next);
  }

  lemma LinkedTable(part: P.Partition, v: seq<byte>, hint: nat, others: set<seq<nat>>, ch: seq<nat>, next: nat)
    requires part.Valid() && Owns(part.geometry, v, others, ch) && |ch| > 0 && Searchable(part.geometry, v, hint)
    requires var r := Link(Table(part.geometry, v), ch[|ch| - 1], hint, part.Beyond());
             next == r.result && part.T() == r.table && part.firstFree == r.hint
    requires next in FreeSet(Table(part.geometry, v)) && IsCluster(part.geometry, next)
    ensures Table(part.geometry, part.cache.view) == Attach(Table(part.geometry, v), ch[|ch| - 1], next)
    ensures Searchable(part.geometry, part.cache.view, part.firstFree)
  {
    hide Table, Forest, Coherent, Recent;
    OwnsChain(part.geometry, v, others, ch);
    ChainStep(Table(part.geometry, v), ch, |ch| - 1);
  }

  lemma ClearedExtends(g: Geometry, v: seq<byte>, v': seq<byte>, others: set<seq<nat>>, start: nat, ch: seq<nat>,
                       ch': seq<nat>)
    requires Owns(g, v, others, ch) && Owns(g, v', others, ch') && ch != [] && GrownByZeros(g, v, ch, v', ch')
    ensures Extended(g, v, ch, v', ch', others)
  {
    hide Chunk, Flat, Owns, Table, SameOutside, ValidGeometry, FreeCount, Forest;
    OwnsChain(g, v', others, ch');
    OwnsChained(g, v, others, ch);
    OwnsChained(g, v', others, ch');
    GrowthUsesFree(g, v, v', others, ch, ch');
    ChunkFills(g, |ch|);
    SlotsAppended(Flat(g, v, ch), BytesPerCluster(g));
    hide AllClusters;
    forall a | a in others && AllClusters(g, a) ensures Flat(g, v', a) == Flat(g, v, a) {
      OthersRead(g, v, v', ch', a);
    }
  }

  lemma ClearedGrows(g: Geometry, v: seq<byte>, v': seq<byte>, ch: seq<nat>, c: nat)
    requires ValidGeometry(g) && IsImage(g, v) && IsImage(g, v') && AllClusters(g, ch) && IsCluster(g, c) && c !in ch
    requires SameOutside(g, [c], v, v') && ClusterAddress(g, c) + BytesPerCluster(g) <= |v'|
    requires forall a :: ClusterAddress(g, c) <= a < ClusterAddress(g, c) + BytesPerCluster(g) ==> v'[a] == 0
    ensures GrownByZeros(g, v, ch, v', ch + [c])
  {
    hide ClusterAddress, BytesPerCluster, ValidGeometry, Flat, SameOutside;
    FlatGrow(g, v', ch, c);
    KeptApart(g, v, v', ch, c);
    assert ClusterBytes(g, v', c) == Zeros(BytesPerCluster(g));
    OutsideMore(g, v, v', ch, c);
  }

  lemma KeptApart(g: Geometry, v: seq<byte>, v': seq<byte>, ch: seq<nat>, c: nat)
    requires ValidGeometry(g) && IsImage(g, v) && IsImage(g, v') && AllClusters(g, ch) && IsCluster(g, c) && c !in ch
    requires SameOutside(g, [c], v, v')
    ensures Flat(g, v', ch) == Flat(g, v, ch)
  {
    assert Apart(ch, [c]);
    OthersRead(g, v, v', [c], ch);
  }

  lemma OutsideMore(g: Geometry, v: seq<byte>, v': seq<byte>, ch: seq<nat>, c: nat)
    requires SameOutside(g, [c], v, v')
    ensures SameOutside(g, ch + [c], v, v')
  {
    forall a: nat | InChain(g, [c], a) ensures InChain(g, ch + [c], a) {
      assert (ch + [c])[|ch|] == c;
    }
  }
}
