/** Positions in a file and what a chain of clusters says there. */
module FileModel {
  import opened Arith
  import opened Bytes
  import opened FatTable
  import opened DataRegion

  datatype FilePosition = FilePosition(cluster: nat, sector: nat, byte: nat)

  /** Position `p` of a file with chain `ch`, in its `k`-th cluster. A position on a cluster edge
      may be written as the start of a cluster or, with `sector == sectorsPerCluster`, as the
      end of the one before. */
  ghost predicate PosAt(g: Geometry, ch: seq<nat>, pos: FilePosition, k: nat, p: nat) {
    && k < |ch| && pos.cluster == ch[k]
    && pos.byte < g.bytesPerSector && pos.sector <= g.sectorsPerCluster
    && p == Chunk(g, k) + SectorAddress(g, pos.sector) + pos.byte
  }

  lemma SectorAdd(g: Geometry, s: nat, t: nat)
    ensures SectorAddress(g, s + t) == SectorAddress(g, s) + SectorAddress(g, t)
    ensures SectorAddress(g, 0) == 0 && SectorAddress(g, 1) == g.bytesPerSector
  {
    Distribute(s, t, g.bytesPerSector);
  }

  lemma SectorSpan(g: Geometry, s: nat)
    requires s <= g.sectorsPerCluster
    ensures SectorAddress(g, s) + SectorAddress(g, g.sectorsPerCluster - s) == BytesPerCluster(g)
    ensures s < g.sectorsPerCluster ==> SectorAddress(g, s) + g.bytesPerSector <= BytesPerCluster(g)
    ensures s == g.sectorsPerCluster ==> SectorAddress(g, s) == BytesPerCluster(g)
    ensures s == 0 ==> SectorAddress(g, s) == 0
  {
    SectorAdd(g, s, g.sectorsPerCluster - s);
    if s < g.sectorsPerCluster {
      MulMonotone(s + 1, g.sectorsPerCluster, g.bytesPerSector); Distribute(s, 1, g.bytesPerSector);
    }
  }

  /** The whole sectors in `n` bytes. */
  lemma SectorsIn(g: Geometry, n: nat)
    requires g.bytesPerSector > 0
    ensures SectorAddress(g, n / g.bytesPerSector) <= n < SectorAddress(g, n / g.bytesPerSector) + g.bytesPerSector
  {
    assert n == n / g.bytesPerSector * g.bytesPerSector + n % g.bytesPerSector;
  }

  /** The sector a position lies in, the byte there, and that the chain says the same as the
      image from there to the end of the cluster. */
  lemma ReadPlace(g: Geometry, v: seq<byte>, ch: seq<nat>, pos: FilePosition, k: nat, p: nat, n: nat)
    requires ValidGeometry(g) && IsImage(g, v) && AllClusters(g, ch) && PosAt(g, ch, pos, k, p)
    requires SectorAddress(g, pos.sector) + pos.byte + n <= BytesPerCluster(g)
    ensures var a := SectorAddress(g, ClusterToSector(g, pos.cluster) + pos.sector) + pos.byte;
            && a + n <= |v| && p + n <= Chunk(g, k + 1) <= Chunk(g, |ch|)
            && Slice(Flat(g, v, ch), p, n) == Slice(v, a, n)
    ensures pos.sector < g.sectorsPerCluster ==> ClusterToSector(g, pos.cluster) + pos.sector < g.endOfPartition
  {
    hide Flat, BytesPerCluster, Chunk, ValidGeometry, Slice, SectorAddress, ClusterAddress, ClusterToSector;
    SectorOfCluster(g, ch[k], pos.sector);
    ChunkStep(g, k);
    ChunkMonotone(g, k + 1, |ch|);
    FlatSlice(g, v, ch, k, SectorAddress(g, pos.sector) + pos.byte, n);
  }

  /** Whole sectors stay inside the partition. */
  lemma SectorRange(g: Geometry, c: nat, s: nat, n: nat)
    requires ValidGeometry(g) && IsCluster(g, c) && s + n <= g.sectorsPerCluster
    ensures ClusterToSector(g, c) + s + n <= g.endOfPartition
    ensures SectorAddress(g, s) + SectorAddress(g, n) <= BytesPerCluster(g)
  {
    SectorOfCluster(g, c, s + n);
    SectorAdd(g, s, n);
  }

  /** A change inside one cluster of a chain. */
  lemma StorePlace(g: Geometry, v: seq<byte>, ch: seq<nat>, pos: FilePosition, k: nat, p: nat, data: seq<byte>)
    requires ValidGeometry(g) && IsImage(g, v) && AllClusters(g, ch) && Distinct(ch) && PosAt(g, ch, pos, k, p)
    requires SectorAddress(g, pos.sector) + pos.byte + |data| <= BytesPerCluster(g)
    ensures var a := SectorAddress(g, ClusterToSector(g, pos.cluster) + pos.sector) + pos.byte;
            && a + |data| <= |v| && p + |data| <= Chunk(g, k + 1) <= Chunk(g, |ch|)
            && Flat(g, Splice(v, a, data), ch) == Splice(Flat(g, v, ch), p, data)
            && Table(g, Splice(v, a, data)) == Table(g, v)
            && SameOutside(g, ch, v, Splice(v, a, data))
  {
    assert IsCluster(g, ch[k]);
    SectorOfCluster(g, ch[k], pos.sector);
    ChunkStep(g, k);
    ChunkMonotone(g, k + 1, |ch|);
    ClusterExtent(g, v, ch[k]);
    hide Flat, BytesPerCluster, Chunk, ValidGeometry, Table;
    var o := SectorAddress(g, pos.sector) + pos.byte;
    FlatSplice(g, v, ch, k, o, data);
    StoreFrame(g, v, ch, k, ClusterAddress(g, ch[k]) + o, data);
  }

  lemma StoreFrame(g: Geometry, v: seq<byte>, ch: seq<nat>, k: nat, a: nat, data: seq<byte>)
    requires ValidGeometry(g) && IsImage(g, v) && AllClusters(g, ch) && k < |ch|
    requires ClusterAddress(g, ch[k]) <= a && a + |data| <= ClusterAddress(g, ch[k]) + BytesPerCluster(g)
    ensures a + |data| <= |v|
    ensures Table(g, Splice(v, a, data)) == Table(g, v)
    ensures SameOutside(g, ch, v, Splice(v, a, data))
  {
    ClusterExtent(g, v, ch[k]);
    hide BytesPerCluster, ClusterAddress, ValidGeometry, Table, FatEnd, FatBase;
    var v' := Splice(v, a, data);
    TableFrame(g, v, v');
    forall b | 0 <= b < |v| && !InChain(g, ch, b) ensures v'[b] == v[b] {
      assert !InCluster(g, ch[k], b);
    }
  }

  // ----- stretches of whole clusters -----

  lemma ChunkSectors(g: Geometry, m: nat)
    requires g.bytesPerSector > 0
    ensures Chunk(g, m) / g.bytesPerSector == m * g.sectorsPerCluster
    ensures SectorAddress(g, m * g.sectorsPerCluster) == Chunk(g, m)
  {
    assert m * g.sectorsPerCluster * g.bytesPerSector == m * (g.sectorsPerCluster * g.bytesPerSector);
    MultipleMod(m * g.sectorsPerCluster, g.bytesPerSector);
  }

  lemma RunSectors(g: Geometry, v: seq<byte>, ch: seq<nat>, k: nat, m: nat)
    requires ValidGeometry(g) && IsImage(g, v) && AllClusters(g, ch) && Run(ch, k, m) && m >= 1
    ensures ClusterToSector(g, ch[k]) + m * g.sectorsPerCluster <= g.endOfPartition
  {
    var last := ch[k + m - 1];
    SectorOfCluster(g, last, g.sectorsPerCluster);
    Distribute(ch[k] - CLUSTER_FIRST, m - 1, g.sectorsPerCluster);
    Distribute(m - 1, 1, g.sectorsPerCluster);
  }

  /** Writing a stretch of whole clusters. */
  lemma StoreRun(g: Geometry, v: seq<byte>, ch: seq<nat>, k: nat, m: nat, data: seq<byte>)
    requires ValidGeometry(g) && IsImage(g, v) && AllClusters(g, ch) && Distinct(ch)
    requires Run(ch, k, m) && m >= 1 && |data| == Chunk(g, m)
    ensures ClusterAddress(g, ch[k]) + Chunk(g, m) <= |v|
            && Chunk(g, k) + Chunk(g, m) == Chunk(g, k + m) <= Chunk(g, |ch|)
    ensures var v' := Splice(v, ClusterAddress(g, ch[k]), data);
            && Flat(g, v', ch) == Splice(Flat(g, v, ch), Chunk(g, k), data)
            && Table(g, v') == Table(g, v) && SameOutside(g, ch, v, v')
  {
    hide Flat, BytesPerCluster, Chunk, ValidGeometry, ClusterAddress, Table, SameOutside;
    RunExtent(g, v, ch, k, m);
    RunSplice(g, v, ch, k, m, data);
    RunFrame(g, v, ch, k, m, data);
  }

  lemma {:induction false} RunFrame(g: Geometry, v: seq<byte>, ch: seq<nat>, k: nat, m: nat, data: seq<byte>)
    requires ValidGeometry(g) && IsImage(g, v) && AllClusters(g, ch) && Run(ch, k, m) && m >= 1 && |data| == Chunk(g, m)
    requires ClusterAddress(g, ch[k]) + Chunk(g, m) <= |v|
    ensures var v' := Splice(v, ClusterAddress(g, ch[k]), data);
            Table(g, v') == Table(g, v) && SameOutside(g, ch, v, v')
  {
    hide Flat, BytesPerCluster, Chunk, ValidGeometry, ClusterAddress, Table, SameOutside, Splice;
    ChunkStep(g, 0);
    ChunkStep(g, m - 1);
    RunExtent(g, v, ch, k, m);
    var a, n := ClusterAddress(g, ch[k]), Chunk(g, m - 1);
    if m == 1 {
      StoreFrame(g, v, ch, k, a, data);
    } else {
      RunExtent(g, v, ch, k, m - 1);
      RunFrame(g, v, ch, k, m - 1, data[..n]);
      var v' := Splice(v, a, data[..n]);
      StoreFrame(g, v', ch, k + m - 1, a + n, data[n..]);
      SpliceInTwo(v, a, data, n);
      SameOutsideTrans(g, ch, ch, v, v', Splice(v, a, data));
    }
  }

  lemma SameOutsideTrans(g: Geometry, ch: seq<nat>, ch': seq<nat>, v: seq<byte>, v': seq<byte>, v'': seq<byte>)
    requires ch <= ch' && SameOutside(g, ch, v, v') && SameOutside(g, ch', v', v'')
    ensures SameOutside(g, ch', v, v'')
  {
    forall a: nat | InChain(g, ch, a) ensures InChain(g, ch', a) {
      var i :| 0 <= i < |ch| && InCluster(g, ch[i], a);
      assert ch'[i] == ch[i];
    }
  }
}
