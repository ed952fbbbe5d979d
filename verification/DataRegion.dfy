/** The clusters' own bytes: where they are, and a chain read as one byte string. */
module DataRegion {
  import opened Arith
  import opened Bytes
  import opened FatTable

  /** The first sector of a cluster; cluster numbers below 2 stand for the root directory. */
  function ClusterToSector(g: Geometry, c: nat): nat {
    if c >= CLUSTER_FIRST then (c - CLUSTER_FIRST) * g.sectorsPerCluster + g.dataStart else g.rootDirStart
  }

  function BytesPerCluster(g: Geometry): nat { g.sectorsPerCluster * g.bytesPerSector }

  function ClusterAddress(g: Geometry, c: nat): nat { SectorAddress(g, ClusterToSector(g, c)) }

  /** The root directory's sectors, the first cluster's, and each cluster's behind those of the cluster before. */
  lemma ClustersInOrder(g: Geometry, c: nat)
    ensures ClusterAddress(g, 0) == ClusterAddress(g, 1) == g.rootDirStart * g.bytesPerSector
    ensures ClusterAddress(g, 2) == g.dataStart * g.bytesPerSector
    ensures c >= 2 ==> ClusterAddress(g, c + 1) == ClusterAddress(g, c) + g.sectorsPerCluster * g.bytesPerSector
  {
    if c >= 2 {
      Distribute(c - 2, 1, g.sectorsPerCluster);
      Distribute(ClusterToSector(g, c), g.sectorsPerCluster, g.bytesPerSector);
    }
  }

  lemma ClusterSizes(g: Geometry)
    requires ValidGeometry(g)
    ensures BytesPerCluster(g) >= g.bytesPerSector > 0
  {
    MulMonotone(1, g.sectorsPerCluster, g.bytesPerSector);
  }

  /** A number whose sectors, by the same arithmetic, are in the partition: every cluster, and perhaps
      the number past the last one. */
  predicate OnDisc(g: Geometry, c: nat) {
    CLUSTER_FIRST <= c && ClusterToSector(g, c) + g.sectorsPerCluster <= g.endOfPartition
  }

  lemma ClusterOnDisc(g: Geometry, c: nat)
    requires ValidGeometry(g) && IsCluster(g, c)
    ensures OnDisc(g, c)
  {
    MulMonotone(c - CLUSTER_FIRST + 1, g.lastCluster - 1, g.sectorsPerCluster);
    Distribute(c - CLUSTER_FIRST, 1, g.sectorsPerCluster);
  }

  lemma SectorOnDisc(g: Geometry, c: nat, s: nat)
    requires ValidGeometry(g) && OnDisc(g, c) && s <= g.sectorsPerCluster
    ensures SectorAddress(g, ClusterToSector(g, c) + s) == ClusterAddress(g, c) + SectorAddress(g, s)
    ensures SectorAddress(g, s) <= BytesPerCluster(g)
    ensures g.dataStart <= ClusterToSector(g, c) && ClusterToSector(g, c) + s <= g.endOfPartition
    ensures s < g.sectorsPerCluster ==> ClusterToSector(g, c) + s < g.endOfPartition
  {
    Distribute(ClusterToSector(g, c), s, g.bytesPerSector);
    MulMonotone(s, g.sectorsPerCluster, g.bytesPerSector);
    ProductNonNegative(c - CLUSTER_FIRST, g.sectorsPerCluster);
  }

  /** The sectors of a cluster are in the data region, and its bytes are where they should be. */
  lemma SectorOfCluster(g: Geometry, c: nat, s: nat)
    requires ValidGeometry(g) && IsCluster(g, c) && s <= g.sectorsPerCluster
    ensures SectorAddress(g, ClusterToSector(g, c) + s) == ClusterAddress(g, c) + SectorAddress(g, s)
    ensures SectorAddress(g, s) <= BytesPerCluster(g)
    ensures g.dataStart <= ClusterToSector(g, c) && ClusterToSector(g, c) + s <= g.endOfPartition
    ensures s < g.sectorsPerCluster ==> ClusterToSector(g, c) + s < g.endOfPartition
  {
    ClusterOnDisc(g, c);
    SectorOnDisc(g, c, s);
  }

  /** Clusters lie behind the table, inside the image, and apart from each other. */
  lemma ClusterExtent(g: Geometry, v: seq<byte>, c: nat)
    requires ValidGeometry(g) && IsImage(g, v) && IsCluster(g, c)
    ensures FatEnd(g) <= ClusterAddress(g, c) && ClusterAddress(g, c) + BytesPerCluster(g) <= |v|
  {
    ClusterOnDisc(g, c);
    ExtentOnDisc(g, v, c);
  }

  lemma ExtentOnDisc(g: Geometry, v: seq<byte>, c: nat)
    requires ValidGeometry(g) && IsImage(g, v) && OnDisc(g, c)
    ensures FatEnd(g) <= ClusterAddress(g, c) && ClusterAddress(g, c) + BytesPerCluster(g) <= |v|
  {
    FatInImage(g, v);
    SectorOnDisc(g, c, g.sectorsPerCluster);
    MulMonotone(g.dataStart, ClusterToSector(g, c), g.bytesPerSector);
    MulMonotone(ClusterToSector(g, c) + g.sectorsPerCluster, g.endOfPartition, g.bytesPerSector);
  }

  lemma ClustersApart(g: Geometry, c: nat, d: nat)
    requires ValidGeometry(g) && IsCluster(g, c) && IsCluster(g, d) && c != d
    ensures ClusterAddress(g, c) + BytesPerCluster(g) <= ClusterAddress(g, d)
         || ClusterAddress(g, d) + BytesPerCluster(g) <= ClusterAddress(g, c)
    ensures d == c + 1 ==> ClusterAddress(g, d) == ClusterAddress(g, c) + BytesPerCluster(g)
  {
    var lo, hi := if c < d then c else d, if c < d then d else c;
    SectorOfCluster(g, lo, g.sectorsPerCluster);
    Distribute(lo - CLUSTER_FIRST, 1, g.sectorsPerCluster);
    MulMonotone(lo - CLUSTER_FIRST + 1, hi - CLUSTER_FIRST, g.sectorsPerCluster);
    MulMonotone(ClusterToSector(g, lo) + g.sectorsPerCluster, ClusterToSector(g, hi), g.bytesPerSector);
  }

  /** Only bytes of the table differ. */
  ghost predicate SameOutsideFat(g: Geometry, v: seq<byte>, v': seq<byte>) {
    |v'| == |v| && forall a :: 0 <= a < |v| && !(FatBase(g) <= a < FatEnd(g)) ==> v'[a] == v[a]
  }

  predicate InCluster(g: Geometry, c: nat, a: nat) {
    ClusterAddress(g, c) <= a < ClusterAddress(g, c) + BytesPerCluster(g)
  }

  ghost predicate InChain(g: Geometry, ch: seq<nat>, a: nat) {
    exists i :: 0 <= i < |ch| && InCluster(g, ch[i], a)
  }

  /** Only bytes of the table and of the clusters of `ch` differ. */
  ghost predicate SameOutside(g: Geometry, ch: seq<nat>, v: seq<byte>, v': seq<byte>) {
    && |v'| == |v|
    && forall a :: 0 <= a < |v| && !(FatBase(g) <= a < FatEnd(g)) && !InChain(g, ch, a) ==> v'[a] == v[a]
  }

  // ----- a chain as one byte string -----

  ghost predicate AllClusters(g: Geometry, ch: seq<nat>) { forall i :: 0 <= i < |ch| ==> IsCluster(g, ch[i]) }

  ghost predicate Distinct(ch: seq<nat>) { forall i, j :: 0 <= i < j < |ch| ==> ch[i] != ch[j] }

  ghost function ClusterBytes(g: Geometry, v: seq<byte>, c: nat): (b: seq<byte>)
    requires ValidGeometry(g) && IsImage(g, v) && IsCluster(g, c)
    ensures |b| == BytesPerCluster(g)
  {
    ClusterExtent(g, v, c);
    Slice(v, ClusterAddress(g, c), BytesPerCluster(g))
  }

  /** Where the bytes of the `k`-th cluster of a chain start. */
  function Chunk(g: Geometry, k: nat): nat { k * BytesPerCluster(g) }

  lemma ChunkStep(g: Geometry, k: nat)
    ensures Chunk(g, k + 1) == Chunk(g, k) + BytesPerCluster(g) && Chunk(g, 0) == 0
  {
    Distribute(k, 1, BytesPerCluster(g));
  }

  lemma ChunkMonotone(g: Geometry, j: nat, k: nat)
    requires j <= k
    ensures Chunk(g, j) <= Chunk(g, k)
    ensures j < k ==> Chunk(g, j) + BytesPerCluster(g) <= Chunk(g, k)
  {
    MulMonotone(j, k, BytesPerCluster(g));
  }

  /** The bytes of the clusters of a chain, in chain order. */
  ghost function Flat(g: Geometry, v: seq<byte>, ch: seq<nat>): (b: seq<byte>)
    requires ValidGeometry(g) && IsImage(g, v) && AllClusters(g, ch)
    ensures |b| == Chunk(g, |ch|)
  {
    if ch == [] then ChunkStep(g, 0); []
    else
      ChunkStep(g, |ch| - 1);
      Flat(g, v, ch[..|ch| - 1]) + ClusterBytes(g, v, ch[|ch| - 1])
  }

  lemma FlatLast(g: Geometry, v: seq<byte>, ch: seq<nat>)
    requires ValidGeometry(g) && IsImage(g, v) && AllClusters(g, ch) && |ch| > 0
    ensures IsCluster(g, ch[|ch| - 1]) && AllClusters(g, ch[..|ch| - 1])
    ensures Flat(g, v, ch) == Flat(g, v, ch[..|ch| - 1]) + ClusterBytes(g, v, ch[|ch| - 1])
  {
  }

  lemma FlatGrow(g: Geometry, v: seq<byte>, ch: seq<nat>, c: nat)
    requires ValidGeometry(g) && IsImage(g, v) && AllClusters(g, ch) && IsCluster(g, c)
    ensures AllClusters(g, ch + [c])
    ensures Flat(g, v, ch + [c]) == Flat(g, v, ch) + ClusterBytes(g, v, c)
  {
    var ch' := ch + [c];
    assert ch'[..|ch'| - 1] == ch;
  }

  /** Chains whose clusters hold the same bytes read the same. */
  lemma {:induction false} FlatFrame(g: Geometry, v: seq<byte>, v': seq<byte>, ch: seq<nat>)
    requires ValidGeometry(g) && IsImage(g, v) && IsImage(g, v') && AllClusters(g, ch)
    requires forall a, i :: 0 <= a < |v| && 0 <= i < |ch| && InCluster(g, ch[i], a) ==> v'[a] == v[a]
    ensures Flat(g, v', ch) == Flat(g, v, ch)
  {
    if ch != [] {
      var c, rest := ch[|ch| - 1], ch[..|ch| - 1];
      forall a, i | 0 <= a < |v| && 0 <= i < |rest| && InCluster(g, rest[i], a) ensures v'[a] == v[a] {
        assert rest[i] == ch[i];
      }
      FlatFrame(g, v, v', rest);
      ClusterExtent(g, v, c);
      forall a | ClusterAddress(g, c) <= a < ClusterAddress(g, c) + BytesPerCluster(g) ensures v'[a] == v[a] {
        assert InCluster(g, ch[|ch| - 1], a);
      }
      assert ClusterBytes(g, v', c) == ClusterBytes(g, v, c);
    }
  }

  /** The bytes of one cluster within the chain's. */
  lemma {:induction false} FlatCluster(g: Geometry, v: seq<byte>, ch: seq<nat>, k: nat)
    requires ValidGeometry(g) && IsImage(g, v) && AllClusters(g, ch) && k < |ch|
    ensures Chunk(g, k) + BytesPerCluster(g) <= Chunk(g, |ch|)
    ensures Slice(Flat(g, v, ch), Chunk(g, k), BytesPerCluster(g)) == ClusterBytes(g, v, ch[k])
  {
    ChunkMonotone(g, k, |ch|);
    ChunkStep(g, |ch| - 1);
    if k < |ch| - 1 {
      var rest := ch[..|ch| - 1];
      FlatCluster(g, v, rest, k);
      assert Flat(g, v, ch)[Chunk(g, k)..Chunk(g, k) + BytesPerCluster(g)]
          == Flat(g, v, rest)[Chunk(g, k)..Chunk(g, k) + BytesPerCluster(g)];
    }
  }

  /** Part of one cluster, in the chain and in the image. */
  lemma FlatSlice(g: Geometry, v: seq<byte>, ch: seq<nat>, k: nat, o: nat, n: nat)
    requires ValidGeometry(g) && IsImage(g, v) && AllClusters(g, ch) && k < |ch| && o + n <= BytesPerCluster(g)
    ensures ClusterAddress(g, ch[k]) + BytesPerCluster(g) <= |v|
    ensures Chunk(g, k) + BytesPerCluster(g) <= Chunk(g, |ch|)
    ensures Slice(Flat(g, v, ch), Chunk(g, k) + o, n) == Slice(v, ClusterAddress(g, ch[k]) + o, n)
  {
    hide ClusterAddress, BytesPerCluster, Chunk, ValidGeometry, Flat;
    ClusterExtent(g, v, ch[k]);
    FlatCluster(g, v, ch, k);
    hide Slice;
    SubSlices(Flat(g, v, ch), Chunk(g, k), v, ClusterAddress(g, ch[k]), BytesPerCluster(g), o, n);
  }

  /** Storing bytes in one cluster of a chain is storing them in the chain. */
  lemma {:induction false} FlatSplice(g: Geometry, v: seq<byte>, ch: seq<nat>, k: nat, o: nat, data: seq<byte>)
    requires ValidGeometry(g) && IsImage(g, v) && AllClusters(g, ch) && Distinct(ch)
    requires k < |ch| && o + |data| <= BytesPerCluster(g)
    ensures ClusterAddress(g, ch[k]) + BytesPerCluster(g) <= |v|
    ensures Chunk(g, k) + BytesPerCluster(g) <= Chunk(g, |ch|)
    ensures Flat(g, Splice(v, ClusterAddress(g, ch[k]) + o, data), ch) == Splice(Flat(g, v, ch), Chunk(g, k) + o, data)
  {
    hide ClusterAddress, BytesPerCluster, Chunk, ValidGeometry, ClusterBytes, Splice, IsImage, SectorAddress,
      AllClusters, Distinct, IsCluster, Flat;
    RestOfChain(g, ch, k);
    ClusterExtent(g, v, ch[k]);
    SpliceIsImage(g, v, ClusterAddress(g, ch[k]) + o, data);
    FlatLast(g, v, ch);
    FlatLast(g, Splice(v, ClusterAddress(g, ch[k]) + o, data), ch);
    FlatCluster(g, v, ch, k);
    var v', n, rest := Splice(v, ClusterAddress(g, ch[k]) + o, data), |ch| - 1, ch[..|ch| - 1];
    ChunkStep(g, n);
    if k == n {
      FrameApart(g, v, v', rest, ch[n], o, data);
      ClusterSplice(g, v, ch[n], o, data);
      SpliceRight(Flat(g, v, rest), ClusterBytes(g, v, ch[n]), o, data);
    } else {
      FlatSplice(g, v, rest, k, o, data);
      ClusterKept(g, v, ch[k], ch[n], o, data);
      SpliceLeft(Flat(g, v, rest), ClusterBytes(g, v, ch[n]), Chunk(g, k) + o, data);
    }
  }

  lemma RestOfChain(g: Geometry, ch: seq<nat>, k: nat)
    requires AllClusters(g, ch) && Distinct(ch) && k < |ch|
    ensures var n, rest := |ch| - 1, ch[..|ch| - 1];
            && AllClusters(g, rest) && Distinct(rest) && IsCluster(g, ch[k]) && IsCluster(g, ch[n]) && ch[n] !in rest
            && (k < n ==> rest[k] == ch[k] && ch[k] != ch[n])
  {
  }

  lemma SpliceIsImage(g: Geometry, v: seq<byte>, a: nat, data: seq<byte>)
    requires IsImage(g, v) && a + |data| <= |v|
    ensures IsImage(g, Splice(v, a, data))
  {
  }

  lemma FrameApart(g: Geometry, v: seq<byte>, v': seq<byte>, ch: seq<nat>, c: nat, o: nat, data: seq<byte>)
    requires ValidGeometry(g) && IsImage(g, v) && AllClusters(g, ch) && IsCluster(g, c) && c !in ch
    requires o + |data| <= BytesPerCluster(g) && ClusterAddress(g, c) + BytesPerCluster(g) <= |v|
    requires v' == Splice(v, ClusterAddress(g, c) + o, data)
    ensures Flat(g, v', ch) == Flat(g, v, ch)
  {
    forall a, i | 0 <= a < |v| && 0 <= i < |ch| && InCluster(g, ch[i], a) ensures v'[a] == v[a] {
      ClustersApart(g, c, ch[i]);
    }
    FlatFrame(g, v, v', ch);
  }

  lemma ClusterSplice(g: Geometry, v: seq<byte>, c: nat, o: nat, data: seq<byte>)
    requires ValidGeometry(g) && IsImage(g, v) && IsCluster(g, c) && o + |data| <= BytesPerCluster(g)
    ensures ClusterAddress(g, c) + BytesPerCluster(g) <= |v|
    ensures ClusterBytes(g, Splice(v, ClusterAddress(g, c) + o, data), c) == Splice(ClusterBytes(g, v, c), o, data)
  {
    hide ClusterAddress, BytesPerCluster;
    ClusterExtent(g, v, c);
  }

  lemma ClusterKept(g: Geometry, v: seq<byte>, c: nat, d: nat, o: nat, data: seq<byte>)
    requires ValidGeometry(g) && IsImage(g, v) && IsCluster(g, c) && IsCluster(g, d) && c != d
             && o + |data| <= BytesPerCluster(g)
    ensures ClusterAddress(g, c) + BytesPerCluster(g) <= |v|
    ensures ClusterBytes(g, Splice(v, ClusterAddress(g, c) + o, data), d) == ClusterBytes(g, v, d)
  {
    hide ClusterAddress, BytesPerCluster;
    ClusterExtent(g, v, c);
    ClusterExtent(g, v, d);
    ClustersApart(g, c, d);
  }

  lemma SpliceRight(a: seq<byte>, b: seq<byte>, o: nat, data: seq<byte>)
    requires o + |data| <= |b|
    ensures a + Splice(b, o, data) == Splice(a + b, |a| + o, data)
  {
  }

  lemma SpliceLeft(a: seq<byte>, b: seq<byte>, o: nat, data: seq<byte>)
    requires o + |data| <= |a|
    ensures Splice(a, o, data) + b == Splice(a + b, o, data)
  {
  }

  // ----- stretches of consecutive clusters -----

  /** `m` clusters of the chain from the `k`-th on are consecutive on the disc. */
  ghost predicate Run(ch: seq<nat>, k: nat, m: nat) {
    k + m <= |ch| && forall j :: k <= j < k + m ==> ch[j] == ch[k] + (j - k)
  }

  lemma ChunkAdd(g: Geometry, k: nat, m: nat)
    ensures Chunk(g, k + m) == Chunk(g, k) + Chunk(g, m)
  {
    Distribute(k, m, BytesPerCluster(g));
  }

  lemma {:induction false} RunExtent(g: Geometry, v: seq<byte>, ch: seq<nat>, k: nat, m: nat)
    requires ValidGeometry(g) && IsImage(g, v) && AllClusters(g, ch) && Run(ch, k, m) && m >= 1
    ensures ClusterAddress(g, ch[k]) + Chunk(g, m) == ClusterAddress(g, ch[k + m - 1]) + BytesPerCluster(g) <= |v|
    ensures Chunk(g, k) + Chunk(g, m) == Chunk(g, k + m) <= Chunk(g, |ch|)
  {
    hide ClusterAddress, BytesPerCluster, ValidGeometry, Chunk;
    ClusterExtent(g, v, ch[k + m - 1]);
    ChunkStep(g, m - 1);
    ChunkAdd(g, k, m);
    ChunkMonotone(g, k + m, |ch|);
    if m > 1 {
      RunExtent(g, v, ch, k, m - 1);
      ClustersApart(g, ch[k + m - 2], ch[k + m - 1]);
    }
  }

  /** Consecutive clusters are one stretch of the image as they are of the chain. */
  lemma {:induction false} RunSlice(g: Geometry, v: seq<byte>, ch: seq<nat>, k: nat, m: nat)
    requires ValidGeometry(g) && IsImage(g, v) && AllClusters(g, ch) && Run(ch, k, m) && m >= 1
    ensures ClusterAddress(g, ch[k]) + Chunk(g, m) <= |v| && Chunk(g, k) + Chunk(g, m) <= Chunk(g, |ch|)
    ensures Slice(Flat(g, v, ch), Chunk(g, k), Chunk(g, m)) == Slice(v, ClusterAddress(g, ch[k]), Chunk(g, m))
  {
    hide ClusterAddress, BytesPerCluster, ValidGeometry, Chunk, Flat, Slice;
    RunExtent(g, v, ch, k, m);
    ChunkStep(g, m - 1);
    ChunkAdd(g, k, m - 1);
    ChunkStep(g, 0);
    FlatSlice(g, v, ch, k + m - 1, 0, BytesPerCluster(g));
    if m > 1 {
      RunSlice(g, v, ch, k, m - 1);
      RunExtent(g, v, ch, k, m - 1);
      JoinSlices(Flat(g, v, ch), Chunk(g, k), v, ClusterAddress(g, ch[k]), Chunk(g, m - 1), BytesPerCluster(g));
    }
  }

  lemma {:induction false} RunSplice(g: Geometry, v: seq<byte>, ch: seq<nat>, k: nat, m: nat, data: seq<byte>)
    requires ValidGeometry(g) && IsImage(g, v) && AllClusters(g, ch) && Distinct(ch)
    requires Run(ch, k, m) && m >= 1 && |data| == Chunk(g, m)
    ensures ClusterAddress(g, ch[k]) + Chunk(g, m) <= |v| && Chunk(g, k) + Chunk(g, m) <= Chunk(g, |ch|)
    ensures Flat(g, Splice(v, ClusterAddress(g, ch[k]), data), ch) == Splice(Flat(g, v, ch), Chunk(g, k), data)
  {
    hide ClusterAddress, BytesPerCluster, ValidGeometry, Chunk, Flat;
    RunExtent(g, v, ch, k, m);
    ChunkStep(g, m - 1);
    ChunkAdd(g, k, m - 1);
    var n := Chunk(g, m - 1);
    if m == 1 {
      FlatSplice(g, v, ch, k, 0, data);
    } else {
      var v' := Splice(v, ClusterAddress(g, ch[k]), data[..n]);
      RunSplice(g, v, ch, k, m - 1, data[..n]);
      RunExtent(g, v, ch, k, m - 1);
      FlatSplice(g, v', ch, k + m - 1, 0, data[n..]);
      SpliceInTwo(v, ClusterAddress(g, ch[k]), data, n);
      SpliceInTwo(Flat(g, v, ch), Chunk(g, k), data, n);
    }
  }

  lemma SpliceInTwo(v: seq<byte>, a: nat, data: seq<byte>, n: nat)
    requires a + |data| <= |v| && n <= |data|
    ensures Splice(Splice(v, a, data[..n]), a + n, data[n..]) == Splice(v, a, data)
  {
  }
}
