/** A run that reads another file's byte: a write ends between two clusters that do not follow each other on the disc,
    and the read after it takes its byte from the cluster in between. */
module ForeignByte {
  import opened Bytes
  import opened CachePages
  import opened CacheRecency
  import opened FatTable
  import opened Chains
  import opened DataRegion
  import opened FileModel
  import opened FileWrite
  import opened WriteModel
  import opened FileExtend
  import opened FileSeek
  import opened FileSpec
  import opened OpenFile
  import B = BlankPartition
  import P = Partition

  /** The first three clusters of a blank table taken for two files in turn. */
  function Interleaved(t: seq<nat>): seq<nat>
    requires IsTable(t) && Chains.Last(t) >= 4
  {
    t[2 := 4][3 := CLUSTER_EOF][4 := CLUSTER_EOF]
  }

  lemma LinksInterleave(t: seq<nat>, beyond: nat)
    requires IsTable(t) && Chains.Last(t) >= 4 && forall c :: 0 <= c < |t| ==> t[c] == CLUSTER_FREE
    ensures var t1, t2 := t[2 := CLUSTER_EOF], t[2 := CLUSTER_EOF][3 := CLUSTER_EOF];
            && Link(t, CLUSTER_FREE, 2, beyond) == Linked(2, t1, 2)
            && Link(t1, CLUSTER_FREE, 2, beyond) == Linked(3, t2, 3)
            && Link(t2, 2, 3, beyond) == Linked(4, Interleaved(t), 4)
  {
    var t1, t2 := t[2 := CLUSTER_EOF], t[2 := CLUSTER_EOF][3 := CLUSTER_EOF];
    assert SeekFree(t, 2) == 2 && SeekFree(t1, 2) == 3 && SeekFree(t2, 3) == 4;
    assert t2[2 := 4][4 := CLUSTER_EOF] == Interleaved(t);
  }

  lemma InterleavedForest(t: seq<nat>)
    requires IsTable(t) && Chains.Last(t) >= 4 && (forall c :: 0 <= c < |t| ==> t[c] == CLUSTER_FREE) && Forest(t, {})
    ensures Forest(Interleaved(t), {[2, 4], [3]})
  {
    hide Forest, IsChain, Apart, InSome;
    var t1, t2 := t[2 := CLUSTER_EOF], t[2 := CLUSTER_EOF][3 := CLUSTER_EOF];
    AttachStarts(t, {}, 2);
    assert {} + {[2]} == {[2]};
    AttachStarts(t1, {[2]}, 3);
    AttachExtends(t2, {[2]} + {[3]}, [2], 4);
    assert t2[2 := 4][4 := CLUSTER_EOF] == Interleaved(t);
    SwapChains();
  }

  lemma SwapChains()
    ensures {[2]} + {[3]} - {[2]} + {[2] + [4]} == {[2, 4], [3]}
  {
    assert [2][0] == 2 && [3][0] == 3 && [2] + [4] == [2, 4];
    assert [2] != [3];
  }

  /** A partition with two files whose clusters were taken in turn: 2 and 4 are those of one, 3 is that of the other. */
  method InterleavedChains(geometry: Geometry, pages: nat) returns (part: P.Partition)
    requires ValidGeometry(geometry) && pages >= 2 && geometry.lastCluster >= 4
    ensures fresh(part) && fresh(part.cache) && fresh(part.cache.entries) && fresh(part.cache.disc)
    ensures part.Valid() && part.geometry == geometry && Searchable(geometry, part.cache.view, part.firstFree)
    ensures Owns(geometry, part.cache.view, {[2, 4]}, [3]) && Owns(geometry, part.cache.view, {[3]}, [2, 4])
  {
    hide Coherent, Recent, Table, ValidGeometry, Link, Interleaved, SameOutsideFat;
    part := B.NewPartition(geometry, pages);
    ghost var t := part.T();
    B.TableSize(geometry, part.cache.view);
    LinksInterleave(t, part.Beyond());
    var first := part.LinkFreeCluster(CLUSTER_FREE);
    var other := part.LinkFreeCluster(CLUSTER_FREE);
    var second := part.LinkFreeCluster(first);
    InterleavedForest(t);
    assert {[3]} + {[2, 4]} == {[2, 4], [3]} == {[2, 4]} + {[3]};
    assert [3] != [2, 4] by { assert |[2, 4]| == 2; }
  }

  /** The second file gets a byte that is not zero at its start. */
  method WriteOther(part: P.Partition)
    requires part.Valid() && Searchable(part.geometry, part.cache.view, part.firstFree)
    requires Owns(part.geometry, part.cache.view, {[2, 4]}, [3])
    modifies part, part.cache, part.cache.entries, part.cache.disc
    ensures part.Valid() && Searchable(part.geometry, part.cache.view, part.firstFree)
    ensures Owns(part.geometry, part.cache.view, {[3]}, [2, 4])
    ensures OtherHas(part.geometry, part.cache.view)
  {
    hide Coherent, Recent, Table, ValidGeometry, Owns, Forest, BytesPerCluster, Chunk, ContentsOf, Searchable, Full,
      Denotes, OthersKept, CutWrite, EndIn,
      PlaceIn, FreeCount, WriteAt, Snug, IsChain, AsNeeded, Fits, OtherHas, Room;
    var other := new File(part);
    FitsOne(part, {[2, 4]}, [3]);
    other.Open(3, 1, true, true, false, false, {[2, 4]}, [3]);
    ghost var before := other.Contents();
    other.ContentsFacts({[2, 4]});
    RoomForAll(other);
    var ret := other.Write([7], {[2, 4]});
    StillNeeded(part.geometry, [3], other.chain, 1);
    FirstByte(before);
    NowHas(other);
    TwoChains(part.geometry, part.cache.view);
  }

  /** The byte at the start of the second file. */
  ghost predicate OtherHas(g: Geometry, v: seq<byte>) {
    ValidGeometry(g) && IsImage(g, v) && AllClusters(g, [3]) && Slice(Flat(g, v, [3]), 0, 1) == [7]
  }

  lemma FitsOne(part: P.Partition, others: set<seq<nat>>, ch: seq<nat>)
    requires Held(part, others, ch)
    ensures Fits(part.geometry, ch, 1)
  {
    HeldFacts(part, others, ch);
    ChunkMonotone(part.geometry, 1, |ch|);
    ChunkStep(part.geometry, 0);
  }

  /** A write inside the clusters of a file stores everything. */
  lemma RoomForAll(file: File)
    ensures Chunk(file.part.geometry, |file.chain|) <= file.Capacity()
  {
    file.CapacityHolds();
  }

  /** What the chain's clusters hold needs no more of them. */
  lemma StillNeeded(g: Geometry, ch: seq<nat>, ch': seq<nat>, p: nat)
    requires ch <= ch' && (ch' == ch || AsNeeded(g, ch, ch', p)) && p <= Chunk(g, |ch|)
    ensures ch' == ch
  {
    if |ch'| > |ch| { ChunkMonotone(g, |ch|, |ch'| - 1); }
  }

  lemma FirstByte(b: seq<byte>)
    requires |b| == 1
    ensures WriteAt(b, 0, [7]) == [7] && First([7], 1) == [7]
  {
  }

  lemma NowHas(other: File)
    requires other.Valid({[2, 4]}) && other.chain == [3] && other.Contents() == [7] && other.filesize == 1
    ensures OtherHas(other.part.geometry, other.part.cache.view)
    ensures Owns(other.part.geometry, other.part.cache.view, {[2, 4]}, [3])
  {
    hide Coherent, Recent, Table, Flat;
    OwnsChain(other.part.geometry, other.part.cache.view, {[2, 4]}, [3]);
    var f := Flat(other.part.geometry, other.part.cache.view, [3]);
    assert f[..1] == [7];
  }

  lemma TwoChains(g: Geometry, v: seq<byte>)
    requires Owns(g, v, {[2, 4]}, [3])
    ensures Owns(g, v, {[3]}, [2, 4])
  {
    assert {[3]} + {[2, 4]} == {[2, 4]} + {[3]};
    assert [3] != [2, 4] by { assert |[2, 4]| == 2; }
  }

  /** Writes both clusters of a file with zeros, and the first one again. */
  method WriteBackToEdge(file: File, ghost others: set<seq<nat>>)
    requires file.Valid(others) && file.Placed() && file.CanAllocate() && file.inUse && file.write && !file.append
    requires |file.chain| == 2 && file.currentPosition == 0
    requires file.filesize == Chunk(file.part.geometry, 2) < INT_LIMIT
    modifies file, file.part, file.part.cache, file.part.cache.entries, file.part.cache.disc
    ensures file.Valid(others) && file.Placed() && !file.Settled() && file.chain == old(file.chain)
    ensures file.currentPosition == BytesPerCluster(file.part.geometry) && file.filesize == old(file.filesize)
    ensures file.Contents() == Zeros(old(file.filesize)) && file.inUse && file.read == old(file.read)
    ensures OthersKept(file.part.geometry, old(file.part.cache.view), file.part.cache.view, others)
  {
    hide Coherent, Recent, Table, ValidGeometry, Owns, Forest, BytesPerCluster, Chunk, ContentsOf, Searchable, Full,
      Denotes, OthersKept, CutWrite, EndIn,
      PlaceIn, FreeCount, WriteAt, Snug, IsChain, AsNeeded, Fits, Room, Allocated, OnEdge;
    ghost var g, ch, v := file.part.geometry, file.chain, file.part.cache.view;
    TwoClusters(file, others);
    var n := BytesPerCluster(file.part.geometry);
    file.ContentsFacts(others);
    RoomForAll(file);
    ghost var before := file.Contents();
    var ret := file.Write(Zeros(n + n), others);
    StillNeeded(g, ch, file.chain, n + n);
    AllZeros(before, n);
    SeekTargetExact(0, 0);
    ret := file.Seek(0, FromStart, others);
    ghost var v1 := file.part.cache.view;
    ret := file.Write(Zeros(n), others);
    StillNeeded(g, ch, file.chain, n);
    OthersKeptThen(g, v, v1, file.part.cache.view, others);
    B.OneClusterEdge(g);
  }

  lemma TwoClusters(file: File, others: set<seq<nat>>)
    requires file.Valid(others)
    ensures BytesPerCluster(file.part.geometry) > 0
    ensures Chunk(file.part.geometry, 2) == BytesPerCluster(file.part.geometry) + BytesPerCluster(file.part.geometry)
  {
    ClusterSizes(file.part.geometry);
    ChunkStep(file.part.geometry, 0);
    ChunkStep(file.part.geometry, 1);
  }

  lemma AllZeros(before: seq<byte>, n: nat)
    requires |before| == n + n
    ensures WriteAt(before, 0, Zeros(n + n)) == Zeros(n + n) && WriteAt(Zeros(n + n), 0, Zeros(n)) == Zeros(n + n)
    ensures First(Zeros(n), n) == Zeros(n) && First(Zeros(n + n), n + n) == Zeros(n + n)
  {
  }

  /** The place at the end of the first cluster is in that cluster, and there is a cluster behind it. */
  lemma EdgeOfFirst(file: File)
    requires file.Valid({[3]}) && file.Placed() && !file.Settled() && file.chain == [2, 4]
    requires file.currentPosition == BytesPerCluster(file.part.geometry) <= file.filesize
    ensures file.rwPosition.cluster == 2 && file.part.geometry.bytesPerSector > 1
    ensures ClusterToSector(file.part.geometry, 2)
            + file.part.geometry.sectorsPerCluster < file.part.geometry.endOfPartition
  {
    hide ValidGeometry, Coherent, Recent, ContentsOf, BytesPerCluster, Chunk, ClusterToSector, Table, IsChain, EndIn;
    AllocatedFacts(file.part, {[3]}, file.startCluster, file.chain);
    BehindFirst(file.part.geometry, file.chain);
    InFirst(file.part.geometry, file.chain, file.rwPosition, file.currentPosition);
  }

  lemma InFirst(g: Geometry, ch: seq<nat>, pos: FilePosition, p: nat)
    requires ValidGeometry(g) && Denotes(g, ch, pos, p) && p == BytesPerCluster(g) && pos.sector >= g.sectorsPerCluster
    ensures ch != [] && pos.cluster == ch[0]
  {
    hide ValidGeometry, Chunk;
    ClusterSizes(g);
    var k: nat :| PosAt(g, ch, pos, k, p);
    SectorSpan(g, g.sectorsPerCluster);
    ChunkStep(g, 0);
    if k > 0 { ChunkMonotone(g, 1, k); }
  }

  lemma BehindFirst(g: Geometry, ch: seq<nat>)
    requires ValidGeometry(g) && AllClusters(g, ch) && ch == [2, 4]
    ensures ClusterToSector(g, 2) + g.sectorsPerCluster < g.endOfPartition && g.bytesPerSector > 1
  {
    assert IsCluster(g, ch[1]);
    SectorOfCluster(g, 3, 0);
    SectorOfCluster(g, 4, 0);
    ClusterSizes(g);
  }

  lemma NextCluster(g: Geometry, v: seq<byte>, data: seq<byte>)
    requires OtherHas(g, v) && |data| == 1 && PartOf(v, ClusterAddress(g, 2) + BytesPerCluster(g), data)
    ensures data == [7]
  {
    hide Flat, Chunk, ValidGeometry, Slice;
    ClusterSizes(g);
    ChunkStep(g, 0);
    FlatSlice(g, v, [3], 0, 0, 1);
    NextAddress(g);
  }

  lemma NextAddress(g: Geometry)
    requires ValidGeometry(g)
    ensures ClusterAddress(g, 2) + BytesPerCluster(g) == ClusterAddress(g, 3)
  {
    hide ValidGeometry;
    SectorAdd(g, ClusterToSector(g, 2), g.sectorsPerCluster);
    assert ClusterToSector(g, 3) == ClusterToSector(g, 2) + g.sectorsPerCluster;
  }

  /** Two files: after a write that ends between the clusters of the first, reading one byte there returns the second
      file's first byte, which is 7, while the first file has a zero there. */
  method ReadsForeignByte(geometry: Geometry, pages: nat) returns (file: File, data: seq<byte>)
    requires ValidGeometry(geometry) && pages >= 2 && geometry.lastCluster >= 4 && Chunk(geometry, 2) < INT_LIMIT
    ensures file.Valid({[3]}) && file.chain == [2, 4] && BytesPerCluster(geometry) < |file.Contents()|
    ensures data == [7] && file.Contents()[BytesPerCluster(geometry)] == 0
  {
    hide Coherent, Recent, Table, ValidGeometry, Owns, Forest, BytesPerCluster, Chunk, ContentsOf, Searchable, Full,
      Denotes, OthersKept, CutWrite, EndIn,
      PlaceIn, FreeCount, WriteAt, Snug, IsChain, AsNeeded, Fits, Room, OtherHas, ClusterAddress, ClusterToSector,
          PartOf;
    var part := InterleavedChains(geometry, pages);
    WriteOther(part);
    file := new File(part);
    FitsTwo(part);
    file.Open(2, Chunk(geometry, 2), true, true, false, false, {[3]}, [2, 4]);
    TwoClusters(file, {[3]});
    ghost var v := part.cache.view;
    WriteBackToEdge(file, {[3]});
    OtherStill(geometry, v, part.cache.view);
    EdgeOfFirst(file);
    ClampCases(file.filesize, file.currentPosition, 1);
    var ret;
    ret, data := file.Read(1, {[3]});
    NextCluster(geometry, part.cache.view, data);
  }

  lemma FitsTwo(part: P.Partition)
    requires Held(part, {[3]}, [2, 4]) && Chunk(part.geometry, 2) < INT_LIMIT
    ensures Fits(part.geometry, [2, 4], Chunk(part.geometry, 2))
  {
  }

  lemma OtherStill(g: Geometry, v: seq<byte>, v': seq<byte>)
    requires OtherHas(g, v) && OthersKept(g, v, v', {[3]})
    ensures OtherHas(g, v')
  {
    hide Flat, ValidGeometry;
  }
}
