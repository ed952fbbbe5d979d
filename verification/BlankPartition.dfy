/** A partition with an empty table: the state that every run on a freshly cleared disc starts from. */
module BlankPartition {
  import opened Bytes
  import opened CachePages
  import opened CacheRecency
  import opened FatTable
  import opened Chains
  import opened DataRegion
  import opened WriteModel
  import opened FileExtend
  import opened FileSeek
  import opened FileSpec
  import opened FileSession
  import opened OpenFile
  import Cache
  import Disc
  import P = Partition

  /** A small FAT16 volume: one sector of table, one of root directory, two clusters. */
  const SMALL: Geometry := Geometry(Fat16, 512, 1, 1, 2, 3, 3, 2, 6)

  lemma SmallIsValid()
    ensures ValidGeometry(SMALL)
  {
    assert EntryOffset(Fat16, 4) + EntrySize(Fat16) == 10;
  }

  /** With nothing but zeros in the table every cluster is free and there is no chain. */
  lemma BlankTable(g: Geometry, v: seq<byte>)
    requires ValidGeometry(g) && IsImage(g, v) && forall a :: FatBase(g) <= a < FatEnd(g) && a < |v| ==> v[a] == 0
    ensures forall c :: 0 <= c < |Table(g, v)| ==> Table(g, v)[c] == CLUSTER_FREE
    ensures Forest(Table(g, v), {}) && Searchable(g, v, CLUSTER_FIRST)
  {
    FatInImage(g, v);
    forall c | 0 <= c < |Table(g, v)| ensures Table(g, v)[c] == CLUSTER_FREE {
      TableAt(g, v, c);
      BlankEntry(g, v, c);
    }
  }

  lemma BlankEntry(g: Geometry, v: seq<byte>, c: nat)
    requires ValidGeometry(g) && IsImage(g, v) && InTable(g, c)
    requires forall a :: FatBase(g) <= a < FatEnd(g) && a < |v| ==> v[a] == 0
    ensures EntryOffset(g.fsType, c) + EntrySize(g.fsType) <= |FatBytes(g, v)|
    ensures Next(g.fsType, FatBytes(g, v), c) == CLUSTER_FREE
  {
    FatInImage(g, v);
    EntryInTable(g, c);
    var f := FatBytes(g, v);
    assert forall i :: 0 <= i < |f| ==> f[i] == 0;
  }

  /** All clusters of such a table are free. */
  lemma {:induction false} BlankCount(t: seq<nat>, n: nat)
    requires IsTable(t) && CLUSTER_FIRST <= n <= Chains.Last(t) + 1 && forall c :: 0 <= c < |t| ==> t[c] == CLUSTER_FREE
    ensures |FreeBelow(t, n)| == n - CLUSTER_FIRST
  {
    if n == CLUSTER_FIRST {
      assert FreeBelow(t, n) == {};
    } else {
      BlankCount(t, n - 1);
      FreeBelowStep(t, n - 1);
    }
  }

  lemma BlankFree(g: Geometry, v: seq<byte>)
    requires ValidGeometry(g) && IsImage(g, v) && forall a :: FatBase(g) <= a < FatEnd(g) && a < |v| ==> v[a] == 0
    ensures FreeCount(g, v) == g.lastCluster - 1
  {
    hide Table;
    BlankTable(g, v);
    var t := Table(g, v);
    BlankCount(t, g.lastCluster + 1);
    assert FreeBelow(t, g.lastCluster + 1) == FreeSet(t);
  }

  /** The bytes that all clusters hold. */
  function DiscRoom(g: Geometry): nat
    requires ValidGeometry(g)
  {
    Chunk(g, g.lastCluster - 1)
  }

  lemma RoomForOne(g: Geometry)
    requires ValidGeometry(g)
    ensures 0 < BytesPerCluster(g) <= DiscRoom(g)
    ensures g.lastCluster > CLUSTER_FIRST ==> Chunk(g, 2) <= DiscRoom(g)
  {
    ClusterSizes(g);
    ChunkStep(g, 0);
    ChunkMonotone(g, 1, g.lastCluster - 1);
    if g.lastCluster > CLUSTER_FIRST { ChunkMonotone(g, 2, g.lastCluster - 1); }
  }

  lemma TableSize(g: Geometry, v: seq<byte>)
    requires ValidGeometry(g) && IsImage(g, v)
    ensures IsTable(Table(g, v)) && Chains.Last(Table(g, v)) == g.lastCluster
  {
  }

  /** A blank partition. */
  method NewPartition(geometry: Geometry, pages: nat) returns (part: P.Partition)
    requires ValidGeometry(geometry) && pages >= 2
    ensures fresh(part) && fresh(part.cache) && fresh(part.cache.entries) && fresh(part.cache.disc)
    ensures part.Valid() && part.geometry == geometry && part.firstFree == CLUSTER_FIRST
    ensures forall c :: 0 <= c < |part.T()| ==> part.T()[c] == CLUSTER_FREE
    ensures Forest(part.T(), {}) && Searchable(geometry, part.cache.view, CLUSTER_FIRST)
    ensures FreeCount(geometry, part.cache.view) == geometry.lastCluster - 1
  {
    hide Coherent, Forest, Table;
    SectorsPositive(geometry);
    var disc := new Disc.Disc(geometry.bytesPerSector, true, Zeros(geometry.endOfPartition * geometry.bytesPerSector));
    var cache := new Cache.Cache(disc, geometry.endOfPartition, pages);
    part := new P.Partition(geometry, cache);
    BlankTable(geometry, cache.view);
    BlankFree(geometry, cache.view);
  }

  /** A file opened for reading and writing, or for appending too, on a blank partition. */
  method NewFile(geometry: Geometry, pages: nat, appending: bool) returns (file: File)
    requires ValidGeometry(geometry) && pages >= 2
    ensures fresh(file) && fresh(file.part) && fresh(file.part.cache) && fresh(file.part.cache.entries)
            && fresh(file.part.cache.disc)
    ensures file.part.geometry == geometry && file.Valid({}) && file.inUse && file.read && file.write
            && file.append == appending
    ensures file.Placed() && file.PlaceInside() && file.CanAllocate() && file.Capacity() == DiscRoom(geometry)
    ensures file.chain == [] && (!appending ==> InSession(file, {}, 0) && file.Settled())
    ensures file.currentPosition == file.filesize == 0 && PlainOf(file) == PlainFile([], 0)
  {
    hide Coherent, Recent, Forest, Table, Chunk, Flat, FreeCount, Searchable, ValidGeometry;
    var part := NewPartition(geometry, pages);
    EmptyFits(geometry);
    InImage(part);
    file := new File(part);
    file.Open(CLUSTER_FREE, 0, true, true, false, appending, {}, []);
    file.ContentsFacts({});
  }

  lemma InImage(part: P.Partition)
    requires part.Valid()
    ensures ValidGeometry(part.geometry) && IsImage(part.geometry, part.cache.view)
  {
  }

  lemma SectorsPositive(g: Geometry)
    requires ValidGeometry(g)
    ensures g.bytesPerSector > 0 && g.endOfPartition < CACHE_FREE
  {
  }

  /** The whole stack at work on the first file of a blank partition: as much is written as all clusters
      hold, and if that is everything, a seek back and a read return it. */
  method WriteAndReadBack(geometry: Geometry, pages: nat, data: seq<byte>) returns (outcomes: seq<Outcome>)
    requires ValidGeometry(geometry) && pages >= 2 && data != [] && |data| < INT_LIMIT
    ensures outcomes ==
            if |data| <= DiscRoom(geometry) then [Put(|data|), Sought(0), Got(data)] else [Put(DiscRoom(geometry))]
  {
    hide InSession, ValidGeometry, Follows, PlainOf, DiscRoom, Stops, OnEdge, Coherent, Recent, Allocated, Searchable,
      FreeCount, Short;
    var file := NewFile(geometry, pages, false);
    RoomForOne(geometry);
    var ops := [WriteNext(data), SeekTo(0, FromStart), ReadNext(|data|)];
    ghost var states;
    outcomes, states := FileSession.Run(file, ops, 0, {});
    ReadBackOutcomes(geometry, data, outcomes, states);
  }

  /** What those three operations yield on an empty file. */
  lemma ReadBackOutcomes(g: Geometry, data: seq<byte>, outcomes: seq<Outcome>, states: seq<PlainFile>)
    requires ValidGeometry(g) && 0 < |data| < INT_LIMIT && DiscRoom(g) > 0
    requires var ops := [WriteNext(data), SeekTo(0, FromStart), ReadNext(|data|)];
             && Follows(ops, outcomes, states, DiscRoom(g)) && states[0] == PlainFile([], 0)
             && (forall i :: 0 <= i < |outcomes| ==> Short(ops[i], outcomes[i]) ==> i == |outcomes| - 1)
             && (|outcomes| < 3 ==>
                   Stops(g, ops, outcomes, states, |outcomes|, 0, false)
                   || (outcomes != [] && Short(ops[|outcomes| - 1], outcomes[|outcomes| - 1])))
    ensures outcomes == if |data| <= DiscRoom(g) then [Put(|data|), Sought(0), Got(data)] else [Put(DiscRoom(g))]
  {
    hide DiscRoom, OnEdge, WriteAt;
    var ops := [WriteNext(data), SeekTo(0, FromStart), ReadNext(|data|)];
    assert |outcomes| >= 1;
    assert Step(states[0], ops[0], outcomes[0], states[1], DiscRoom(g));
    if |data| <= DiscRoom(g) {
      assert data[..|data|] == data;
      SeekTargetExact(0, 0);
      assert |outcomes| >= 2;
      assert Step(states[1], ops[1], outcomes[1], states[2], DiscRoom(g));
      assert !AfterWrite(outcomes, 2, false);
      assert Step(states[2], ops[2], outcomes[2], states[3], DiscRoom(g));
      ReadsBack(states[0], data, states[1], states[2], outcomes[2], states[3], DiscRoom(g));
    }
  }

  // ----- the two ways to lose a place -----

  /** A write that ends between two clusters inside the file: two clusters are written, then the first
      one again. */
  method EndsBetweenClusters(geometry: Geometry, pages: nat) returns (file: File)
    requires ValidGeometry(geometry) && pages >= 2 && geometry.lastCluster > CLUSTER_FIRST
    requires Chunk(geometry, 2) < INT_LIMIT
    ensures file.Valid({}) && file.Placed() && file.currentPosition == BytesPerCluster(geometry) < file.filesize
    ensures !file.Settled()
  {
    hide ValidGeometry, Chunk, Coherent, Recent, Table, Forest, WriteAt, BytesPerCluster, DiscRoom, ContentsOf,
      Allocated, Snug, Denotes, PlaceIn,
      OthersKept, Searchable, Full, FreeCount, CutWrite, EndIn, AsNeeded;
    file := NewFile(geometry, pages, false);
    RoomForOne(geometry);
    ChunkStep(geometry, 0);
    ChunkStep(geometry, 1);
    var n := BytesPerCluster(geometry);
    var ret := file.Write(Zeros(n + n), {});
    SeekTargetExact(0, 0);
    ret := file.Seek(0, FromStart, {});
    ret := file.Write(Zeros(n), {});
    OneClusterEdge(geometry);
  }

  lemma OneClusterEdge(g: Geometry)
    requires BytesPerCluster(g) > 0
    ensures OnEdge(g, BytesPerCluster(g))
  {
  }

  /** Appending past a position beyond the end: the position is inside the file then, and its place is lost. */
  method AppendsPastPosition(geometry: Geometry, pages: nat) returns (file: File)
    requires ValidGeometry(geometry) && pages >= 2
    ensures file.Valid({}) && file.currentPosition < file.filesize && !file.Placed()
  {
    hide ValidGeometry, Chunk, Coherent, Recent, Table, Forest, WriteAt, BytesPerCluster, DiscRoom, ContentsOf,
      Allocated, Snug, Denotes, PlaceIn,
      OthersKept, Searchable, Full, FreeCount, CutWrite, EndIn, AsNeeded;
    file := NewFile(geometry, pages, true);
    RoomForOne(geometry);
    ManyBytes(geometry);
    SeekTargetExact(0, 1);
    EndOfOne(geometry);
    var ret := file.Seek(1, FromStart, {});
    ret := file.Write(Zeros(2), {});
  }

  lemma ManyBytes(g: Geometry)
    requires ValidGeometry(g)
    ensures BytesPerCluster(g) >= 512
  {
    ClusterSizes(g);
  }
}
