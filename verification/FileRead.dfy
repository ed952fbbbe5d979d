/** The phases of a read (FAT_read, modules/libfat/fatfile.c): the rest of a sector, the rest of
    a cluster, whole clusters in consecutive groups, whole sectors, the start of a sector. */
module FileRead {
  import opened Arith
  import opened Bytes
  import opened CachePages
  import opened CacheRecency
  import opened FatTable
  import opened Chains
  import opened DataRegion
  import opened FileModel
  import P = Partition

  /** A chain in the partition's table. */
  ghost predicate ChainIn(part: P.Partition, ch: seq<nat>)
    requires part.Valid()
    reads part, part.cache, part.cache.entries, part.cache.disc
  {
    IsChain(part.T(), ch)
  }

  lemma ChainClusters(g: Geometry, t: seq<nat>, ch: seq<nat>)
    requires IsTable(t) && Last(t) == g.lastCluster && IsChain(t, ch)
    ensures AllClusters(g, ch) && Distinct(ch)
  {
  }

  lemma ImageChain(g: Geometry, v: seq<byte>, ch: seq<nat>)
    requires ValidGeometry(g) && IsImage(g, v) && IsChain(Table(g, v), ch)
    ensures AllClusters(g, ch) && Distinct(ch)
  {
    ChainClusters(g, Table(g, v), ch);
  }

  lemma HeldChain(part: P.Partition, ch: seq<nat>)
    requires part.Valid() && ChainIn(part, ch)
    ensures AllClusters(part.geometry, ch) && Distinct(ch)
  {
    ChainClusters(part.geometry, part.T(), ch);
  }

  /** What a chain says, for a partition. */
  ghost function FlatOf(part: P.Partition, ch: seq<nat>): (f: seq<byte>)
    requires part.Valid() && AllClusters(part.geometry, ch)
    reads part, part.cache, part.cache.entries, part.cache.disc
    ensures |f| == Chunk(part.geometry, |ch|)
  {
    Flat(part.geometry, part.cache.view, ch)
  }

  /** To the end of the sector. `edge` is the one case in which the position's sector is past the
      end of its cluster, and then the bytes come from whatever follows that cluster on disc. */
  method ReadHead(part: P.Partition, pos: FilePosition, remain: nat, ghost ch: seq<nat>, ghost k: nat, ghost p: nat)
    returns (data: seq<byte>, pos': FilePosition)
    requires part.Valid() && AllClusters(part.geometry, ch) && PosAt(part.geometry, ch, pos, k, p) && remain > 0
    requires pos.sector == part.geometry.sectorsPerCluster && remain < part.geometry.bytesPerSector ==>
               pos.byte == 0 && ClusterToSector(part.geometry, pos.cluster) + pos.sector < part.geometry.endOfPartition
    requires pos.sector == part.geometry.sectorsPerCluster ==> pos.byte == 0
    modifies part.cache`accessCounter, part.cache`ticks, part.cache`touched, part.cache.entries, part.cache.disc
    ensures part.Valid()
    ensures |data| <= remain && PosAt(part.geometry, ch, pos', k, p + |data|)
    ensures |data| < remain ==> pos'.byte == 0
    ensures pos'.sector == part.geometry.sectorsPerCluster && pos'.byte > 0 ==>
              pos.sector == part.geometry.sectorsPerCluster && |data| == remain
    ensures pos.sector < part.geometry.sectorsPerCluster ==>
              p + |data| <= Chunk(part.geometry, |ch|) && data == Slice(FlatOf(part, ch), p, |data|)
    ensures pos.sector == part.geometry.sectorsPerCluster ==>
              if remain < part.geometry.bytesPerSector then
                |data| == remain
                && ClusterAddress(part.geometry, pos.cluster) + BytesPerCluster(part.geometry)
                   + remain <= |part.cache.view|
                && data == Slice(part.cache.view, ClusterAddress(part.geometry, pos.cluster)
                   + BytesPerCluster(part.geometry), remain)
              else data == [] && pos' == pos
  {
    hide ValidGeometry, Flat, Chunk, Slice, SectorAddress, ClusterToSector, ClusterAddress, BytesPerCluster, Coherent,
      Recent, AllClusters;
    var g := part.geometry;
    var n := if g.bytesPerSector - pos.byte > remain then remain else g.bytesPerSector - pos.byte;
    data, pos' := [], pos;
    if pos.sector < g.sectorsPerCluster {
      PlaceInChain(g, ch, pos, k, p);
      SliceNone(FlatOf(part, ch), p);
    }
    if n < g.bytesPerSector {
      SectorSpan(g, pos.sector);
      if pos.sector < g.sectorsPerCluster {
        ReadPlace(g, part.cache.view, ch, pos, k, p, n);
      } else {
        ClusterEnd(g, ch, k);
      }
      data := part.ReadPart(ClusterToSector(g, pos.cluster) + pos.sector, pos.byte, n);
      SectorAdd(g, pos.sector, 1);
      pos' := pos'.(byte := pos.byte + n);
      if pos'.byte >= g.bytesPerSector {
        pos' := pos'.(byte := 0, sector := pos.sector + 1);
      }
    }
  }

  lemma ClusterEnd(g: Geometry, ch: seq<nat>, k: nat)
    requires ValidGeometry(g) && AllClusters(g, ch) && k < |ch|
    ensures SectorAddress(g, ClusterToSector(g, ch[k]) + g.sectorsPerCluster)
            == ClusterAddress(g, ch[k]) + BytesPerCluster(g)
  {
    SectorOfCluster(g, ch[k], g.sectorsPerCluster);
  }

  /** A place that is not past the end of its cluster is in the chain or at its end. */
  lemma PlaceInChain(g: Geometry, ch: seq<nat>, pos: FilePosition, k: nat, p: nat)
    requires ValidGeometry(g) && PosAt(g, ch, pos, k, p) && (pos.sector == g.sectorsPerCluster ==> pos.byte == 0)
    ensures p <= Chunk(g, k + 1) <= Chunk(g, |ch|)
    ensures pos.sector == g.sectorsPerCluster ==> p == Chunk(g, k + 1)
  {
    SectorSpan(g, pos.sector);
    ChunkStep(g, k);
    ChunkMonotone(g, k + 1, |ch|);
  }

  /** Whole sectors to the end of the cluster, or as many as are wanted. */
  method ReadClusterHead(part: P.Partition, pos: FilePosition, remain: nat, ghost ch: seq<nat>, ghost k: nat,
                         ghost p: nat)
    returns (data: seq<byte>, pos': FilePosition)
    requires part.Valid() && AllClusters(part.geometry, ch) && PosAt(part.geometry, ch, pos, k, p)
    requires remain > 0 ==> pos.byte == 0
    modifies part.cache`accessCounter, part.cache`ticks, part.cache`touched, part.cache.entries, part.cache.disc
    ensures part.Valid()
    ensures |data| <= remain && PosAt(part.geometry, ch, pos', k, p + |data|) && pos'.byte == pos.byte
    ensures if data == [] then pos' == pos else p + |data| <= Chunk(part.geometry, |ch|)
    ensures data != [] ==> data == Slice(FlatOf(part, ch), p, |data|)
    ensures pos'.sector == part.geometry.sectorsPerCluster || remain - |data| < part.geometry.bytesPerSector
    ensures pos'.sector < part.geometry.sectorsPerCluster ==> pos.sector < part.geometry.sectorsPerCluster
  {
    hide ValidGeometry, Flat, Chunk, Slice, SectorAddress, ClusterToSector, ClusterAddress, BytesPerCluster, Coherent,
      Recent;
    var g := part.geometry;
    ClusterSizes(g);
    SectorSpan(g, pos.sector);
    SectorsIn(g, remain);
    var rest := g.sectorsPerCluster - pos.sector;
    var n := if remain > SectorAddress(g, rest) then rest else remain / g.bytesPerSector;
    data, pos' := [], pos;
    if n > 0 {
      HeadSectors(g, pos.sector, remain, n);
      SectorRange(g, ch[k], pos.sector, n);
      ReadPlace(g, part.cache.view, ch, pos, k, p, SectorAddress(g, n));
      data := part.ReadSectorRun(ClusterToSector(g, pos.cluster) + pos.sector, n);
      SectorAdd(g, pos.sector, n);
      pos' := pos'.(sector := pos.sector + n);
    }
  }

  /** The number of sectors taken never reaches past the cluster or past what is wanted. */
  lemma HeadSectors(g: Geometry, s: nat, remain: nat, n: nat)
    requires ValidGeometry(g) && s <= g.sectorsPerCluster
    requires n == if remain > SectorAddress(g, g.sectorsPerCluster - s) then g.sectorsPerCluster - s
             else remain / g.bytesPerSector
    ensures s + n <= g.sectorsPerCluster && SectorAddress(g, n) <= remain
    ensures n > 0 ==> SectorAddress(g, n) > 0
  {
    SectorsIn(g, remain);
    if remain <= SectorAddress(g, g.sectorsPerCluster - s) && n > g.sectorsPerCluster - s {
      MulMonotone(g.sectorsPerCluster - s, n, g.bytesPerSector);
    }
    if n > 0 { MulMonotone(1, n, g.bytesPerSector); }
  }

  /** What a position must be like for the rest of a transfer. */
  predicate Ready(g: Geometry, pos: FilePosition, remain: nat) {
    && (remain > 0 ==> pos.byte == 0 && pos.sector < g.sectorsPerCluster)
    && (remain >= g.bytesPerSector ==> pos.sector == 0)
  }

  /** From the end of a cluster to the start of the next one, if there is one. */
  method ReadNext(part: P.Partition, pos: FilePosition, remain: nat, ghost ch: seq<nat>, ghost k: nat, ghost p: nat)
    returns (ok: bool, pos': FilePosition, ghost k': nat)
    requires part.Valid() && ChainIn(part, ch) && PosAt(part.geometry, ch, pos, k, p)
    requires p <= Chunk(part.geometry, |ch|)
    requires remain > 0 ==> pos.byte == 0
    requires pos.sector == part.geometry.sectorsPerCluster || remain < part.geometry.bytesPerSector
    modifies part.cache`accessCounter, part.cache`ticks, part.cache`touched, part.cache.entries, part.cache.disc
    ensures part.Valid() && PosAt(part.geometry, ch, pos', k', p)
    ensures ok ==> Ready(part.geometry, pos', remain)
    ensures !ok ==> remain > 0 && p == Chunk(part.geometry, |ch|)
    ensures ok && pos'.sector == part.geometry.sectorsPerCluster ==>
              remain == 0 && pos'.byte == 0 && p == Chunk(part.geometry, |ch|)
  {
    hide ValidGeometry, Flat, Chunk, SectorAddress, ClusterToSector, ClusterAddress, BytesPerCluster, Coherent, Recent,
      Table;
    var g := part.geometry;
    ClusterSizes(g);
    ok, pos', k' := true, pos, k;
    if pos.sector >= g.sectorsPerCluster {
      SectorSpan(g, pos.sector);
      SectorSpan(g, 0);
      ChunkStep(g, k);
      ChunkMonotone(g, k + 1, |ch|);
      ChainStep(part.T(), ch, k);
      var next := part.NextCluster(pos.cluster);
      if remain == 0 && next == CLUSTER_EOF {
        pos' := pos.(sector := g.sectorsPerCluster);
      } else if !(CLUSTER_FIRST <= next <= g.lastCluster) {
        ok := false;
      } else {
        pos' := pos.(sector := 0, cluster := next);
        k' := k + 1;
      }
    }
  }

  /** The longest group of consecutive clusters from the `k`-th on that is wanted whole. */
  method FindGroup(part: P.Partition, start: nat, remain: nat, ghost ch: seq<nat>, ghost k: nat)
    returns (chunkSize: nat, next: nat, end: nat, ghost m: nat)
    requires part.Valid() && ChainIn(part, ch) && k < |ch| && start == ch[k]
    requires remain >= BytesPerCluster(part.geometry)
    modifies part.cache`accessCounter, part.cache`ticks, part.cache`touched, part.cache.entries, part.cache.disc
    ensures part.Valid()
    ensures m >= 1 && Run(ch, k, m) && chunkSize == Chunk(part.geometry, m) <= remain
    ensures end == ch[k + m - 1] && next == part.T()[end]
  {
    hide ValidGeometry, Chunk, BytesPerCluster, Coherent, Recent, Table, IsChain;
    var g := part.geometry;
    ghost var t := part.T();
    ClusterSizes(g);
    end := start;
    ChainStep(t, ch, k);
    next := part.NextCluster(end);
    chunkSize := BytesPerCluster(g);
    m := 1;
    ChunkStep(g, 0);
    while next == end + 1 && chunkSize + BytesPerCluster(g) <= remain
      invariant part.Valid() && part.T() == t
      invariant m >= 1 && Run(ch, k, m) && chunkSize == Chunk(g, m) <= remain
      invariant end == ch[k + m - 1] <= g.lastCluster && next == t[end]
      decreases remain - chunkSize
    {
      ghost var e := k + m;
      ChunkStep(g, m);
      ChainStep(t, ch, e - 1);
      NotTheEnd(g, end);
      end := next;
      ChainStep(t, ch, e);
      next := part.NextCluster(end);
      chunkSize := chunkSize + BytesPerCluster(g);
      m := m + 1;
    }
  }

  /** No cluster is followed by the end mark on the disc. */
  lemma NotTheEnd(g: Geometry, c: nat)
    requires ValidGeometry(g) && c <= g.lastCluster
    ensures c + 1 != CLUSTER_EOF
  {
  }

  method ReadGroup(part: P.Partition, pos: FilePosition, remain: nat, ghost ch: seq<nat>, ghost k: nat, ghost p: nat)
    returns (data: seq<byte>, next: nat, end: nat, ghost m: nat)
    requires part.Valid() && ChainIn(part, ch) && PosAt(part.geometry, ch, pos, k, p)
    requires pos.sector == 0 && pos.byte == 0 && remain >= BytesPerCluster(part.geometry)
    modifies part.cache`accessCounter, part.cache`ticks, part.cache`touched, part.cache.entries, part.cache.disc
    ensures part.Valid()
    ensures m >= 1 && k + m <= |ch| && 0 < |data| == Chunk(part.geometry, m) <= remain
    ensures p + |data| == Chunk(part.geometry, k + m) <= Chunk(part.geometry, |ch|)
    ensures AllClusters(part.geometry, ch) && data == Slice(FlatOf(part, ch), p, |data|)
    ensures end == ch[k + m - 1] && next == part.T()[end]
  {
    hide ValidGeometry, Flat, Chunk, SectorAddress, ClusterToSector, BytesPerCluster, Coherent, Recent, Table, Slice,
      IsChain, AllClusters;
    var g := part.geometry;
    ClusterSizes(g);
    ChainClusters(g, part.T(), ch);
    SectorSpan(g, 0);
    var chunkSize;
    chunkSize, next, end, m := FindGroup(part, pos.cluster, remain, ch, k);
    ChunkStep(g, 0);
    ChunkMonotone(g, 1, m);
    ReadRunOf(part, ch, k, m);
    data := part.ReadSectorRun(ClusterToSector(g, pos.cluster), chunkSize / g.bytesPerSector);
  }

  lemma ReadRunOf(part: P.Partition, ch: seq<nat>, k: nat, m: nat)
    requires part.Valid() && AllClusters(part.geometry, ch) && Run(ch, k, m) && m >= 1
    ensures var g := part.geometry;
            && g.bytesPerSector > 0
            && ClusterToSector(g, ch[k]) + Chunk(g, m) / g.bytesPerSector <= g.endOfPartition
            && SectorAddress(g, Chunk(g, m) / g.bytesPerSector) == Chunk(g, m)
            && SectorAddress(g, ClusterToSector(g, ch[k])) + Chunk(g, m) <= |part.cache.view|
            && Chunk(g, k) + Chunk(g, m) == Chunk(g, k + m) <= Chunk(g, |ch|)
            && Slice(FlatOf(part, ch), Chunk(g, k), Chunk(g, m))
            == Slice(part.cache.view, SectorAddress(g, ClusterToSector(g, ch[k])), Chunk(g, m))
  {
    hide Flat, Slice, Coherent, Recent, Chunk, BytesPerCluster;
    var g, v := part.geometry, part.cache.view;
    ClusterSizes(g);
    ChunkSectors(g, m);
    RunSectors(g, v, ch, k, m);
    RunExtent(g, v, ch, k, m);
    RunSlice(g, v, ch, k, m);
  }

  /** Whole clusters, one group of consecutive ones at a time. */
  method ReadClusters(part: P.Partition, pos: FilePosition, remain: nat, ghost ch: seq<nat>, ghost k: nat, ghost p: nat)
    returns (ok: bool, data: seq<byte>, pos': FilePosition, ghost k': nat)
    requires part.Valid() && ChainIn(part, ch) && PosAt(part.geometry, ch, pos, k, p)
    requires p <= Chunk(part.geometry, |ch|) && Ready(part.geometry, pos, remain)
    modifies part.cache`accessCounter, part.cache`ticks, part.cache`touched, part.cache.entries, part.cache.disc
    ensures part.Valid() && |data| <= remain
    ensures ok ==> remain - |data| < BytesPerCluster(part.geometry)
    ensures ok ==> PosAt(part.geometry, ch, pos', k', p + |data|) && Ready(part.geometry, pos', remain - |data|)
    ensures !ok ==> |data| < remain && p + |data| == Chunk(part.geometry, |ch|)
    ensures AllClusters(part.geometry, ch) && p + |data| <= Chunk(part.geometry, |ch|)
            && data == Slice(FlatOf(part, ch), p, |data|)
    ensures ok && pos'.sector == part.geometry.sectorsPerCluster ==>
              pos' == pos || (remain == |data| && pos'.byte == 0 && p + remain == Chunk(part.geometry, |ch|))
  {
    hide ValidGeometry, Chunk, BytesPerCluster, Coherent, Recent, Table, Slice, IsChain, AllClusters, SectorAddress,
      Flat;
    var g := part.geometry;
    ClusterSizes(g);
    ChainClusters(g, part.T(), ch);
    ok, data, pos', k' := true, [], pos, k;
    SliceNone(FlatOf(part, ch), p);
    var left := remain;
    while left >= BytesPerCluster(g) && ok
      invariant part.Valid() && part.cache.view == old(part.cache.view)
      invariant |data| + left == remain && left >= 0 && p + |data| <= Chunk(g, |ch|)
      invariant if ok then PosAt(g, ch, pos', k', p + |data|) && Ready(g, pos', left)
                else left > 0 && p + |data| == Chunk(g, |ch|)
      invariant data == Slice(FlatOf(part, ch), p, |data|)
      invariant ok && pos'.sector == g.sectorsPerCluster ==>
                  pos' == pos || (left == 0 && pos'.byte == 0 && p + remain == Chunk(g, |ch|))
      decreases ok, left
    {
      var run, next, end;
      ghost var m;
      run, next, end, m := ReadGroup(part, pos', left, ch, k', p + |data|);
      SliceAppend(FlatOf(part, ch), p, |data|, |run|);
      data := data + run;
      left := left - |run|;
      ok, pos', k' := AfterGroup(part, pos', left, next, end, ch, k' + m, p + |data|);
    }
  }

  /** Where a position is after a group of whole clusters. */
  method AfterGroup(part: P.Partition, pos: FilePosition, remain: nat, next: nat, end: nat,
                    ghost ch: seq<nat>, ghost k: nat, ghost p: nat)
    returns (ok: bool, pos': FilePosition, ghost k': nat)
    requires part.Valid() && ChainIn(part, ch) && 1 <= k <= |ch|
    requires end == ch[k - 1] && next == part.T()[end] && pos.byte == 0
    requires p == Chunk(part.geometry, k)
    ensures if ok then PosAt(part.geometry, ch, pos', k', p) && Ready(part.geometry, pos', remain)
            else remain > 0 && p == Chunk(part.geometry, |ch|)
    ensures ok && pos'.sector == part.geometry.sectorsPerCluster ==>
              remain == 0 && pos'.byte == 0 && p == Chunk(part.geometry, |ch|)
  {
    hide ValidGeometry, Chunk, BytesPerCluster, Coherent, Recent, Table, IsChain, SectorAddress;
    var g := part.geometry;
    ClusterSizes(g);
    SectorSpan(g, 0);
    SectorSpan(g, g.sectorsPerCluster);
    ChunkStep(g, k - 1);
    ChainStep(part.T(), ch, k - 1);
    ok, pos', k' := true, pos, k;
    if remain == 0 && next == CLUSTER_EOF {
      pos' := pos.(sector := g.sectorsPerCluster, cluster := end);
      k' := k - 1;
    } else if !(CLUSTER_FIRST <= next <= g.lastCluster) {
      ok := false;
    } else {
      pos' := pos.(sector := 0, cluster := next);
    }
  }

  /** The whole sectors that are left, then the start of one more. */
  method ReadTail(part: P.Partition, pos: FilePosition, remain: nat, ghost ch: seq<nat>, ghost k: nat, ghost p: nat)
    returns (data: seq<byte>, pos': FilePosition)
    requires part.Valid() && AllClusters(part.geometry, ch) && PosAt(part.geometry, ch, pos, k, p)
    requires remain < BytesPerCluster(part.geometry) && Ready(part.geometry, pos, remain)
             && p <= Chunk(part.geometry, |ch|)
    modifies part.cache`accessCounter, part.cache`ticks, part.cache`touched, part.cache.entries, part.cache.disc
    ensures part.Valid() && PosAt(part.geometry, ch, pos', k, p + remain) && p + remain <= Chunk(part.geometry, |ch|)
    ensures data == Slice(FlatOf(part, ch), p, remain)
    ensures remain > 0 ==> pos'.sector < part.geometry.sectorsPerCluster
    ensures remain == 0 ==> pos' == pos
  {
    hide ValidGeometry, Chunk, Slice, SectorAddress, BytesPerCluster, Coherent, Recent, AllClusters, Flat;
    var g := part.geometry;
    ClusterSizes(g);
    data, pos' := [], pos;
    TailInChain(g, ch, pos, k, p, remain);
    SliceNone(FlatOf(part, ch), p);
    SectorsIn(g, remain);
    var left: nat := remain;
    var n := remain / g.bytesPerSector;
    if n > 0 {
      data, pos' := ReadTailSectors(part, pos, remain, n, ch, k, p);
      left := remain - |data|;
    }
    if left > 0 {
      var last;
      SliceAppend(FlatOf(part, ch), p, |data|, left);
      last, pos' := ReadLast(part, pos', left, ch, k, p + |data|);
      data := data + last;
    }
  }

  /** What is left of a transfer ends in the cluster that it is in. */
  lemma TailInChain(g: Geometry, ch: seq<nat>, pos: FilePosition, k: nat, p: nat, remain: nat)
    requires ValidGeometry(g) && PosAt(g, ch, pos, k, p) && Ready(g, pos, remain) && remain < BytesPerCluster(g)
    requires p <= Chunk(g, |ch|)
    ensures p + remain <= Chunk(g, |ch|)
  {
    if remain > 0 {
      SectorSpan(g, pos.sector);
      SectorSpan(g, 0);
      ChunkStep(g, k);
      ChunkMonotone(g, k + 1, |ch|);
    }
  }

  method ReadLast(part: P.Partition, pos: FilePosition, remain: nat, ghost ch: seq<nat>, ghost k: nat, ghost p: nat)
    returns (data: seq<byte>, pos': FilePosition)
    requires part.Valid() && AllClusters(part.geometry, ch) && PosAt(part.geometry, ch, pos, k, p)
    requires 0 < remain < part.geometry.bytesPerSector && pos.byte == 0 && pos.sector < part.geometry.sectorsPerCluster
    modifies part.cache`accessCounter, part.cache`ticks, part.cache`touched, part.cache.entries, part.cache.disc
    ensures part.Valid() && PosAt(part.geometry, ch, pos', k, p + remain) && pos'.sector == pos.sector
    ensures p + remain <= Chunk(part.geometry, |ch|) && data == Slice(FlatOf(part, ch), p, remain)
  {
    hide ValidGeometry, Flat, Chunk, Slice, SectorAddress, ClusterToSector, ClusterAddress, BytesPerCluster, Coherent,
      Recent;
    var g := part.geometry;
    SectorSpan(g, pos.sector);
    ReadPlace(g, part.cache.view, ch, pos, k, p, remain);
    data := part.ReadPart(ClusterToSector(g, pos.cluster) + pos.sector, 0, remain);
    pos' := pos.(byte := pos.byte + remain);
  }

  method ReadTailSectors(part: P.Partition, pos: FilePosition, remain: nat, n: nat, ghost ch: seq<nat>, ghost k: nat,
                         ghost p: nat)
    returns (data: seq<byte>, pos': FilePosition)
    requires part.Valid() && AllClusters(part.geometry, ch) && PosAt(part.geometry, ch, pos, k, p)
    requires remain < BytesPerCluster(part.geometry) && pos.byte == 0 && pos.sector == 0
    requires p + remain <= Chunk(part.geometry, |ch|) && n == remain / part.geometry.bytesPerSector && n > 0
    modifies part.cache`accessCounter, part.cache`ticks, part.cache`touched, part.cache.entries, part.cache.disc
    ensures part.Valid() && remain - part.geometry.bytesPerSector < |data| <= remain
    ensures PosAt(part.geometry, ch, pos', k, p + |data|) && pos'.byte == 0
            && pos'.sector < part.geometry.sectorsPerCluster
    ensures data == Slice(FlatOf(part, ch), p, |data|)
  {
    hide ValidGeometry, Flat, Chunk, Slice, SectorAddress, ClusterToSector, ClusterAddress, BytesPerCluster, Coherent,
      Recent;
    var g := part.geometry;
    ClusterSizes(g);
    SectorsIn(g, remain);
    TailSectors(g, remain);
    SectorRange(g, ch[k], 0, n);
    SectorSpan(g, 0);
    ReadPlace(g, part.cache.view, ch, pos, k, p, SectorAddress(g, n));
    data := part.ReadSectorRun(ClusterToSector(g, pos.cluster), n);
    pos' := pos.(sector := pos.sector + n);
  }

  lemma TailSectors(g: Geometry, remain: nat)
    requires ValidGeometry(g) && remain < BytesPerCluster(g)
    ensures remain / g.bytesPerSector < g.sectorsPerCluster
  {
    SectorsIn(g, remain);
    var n := remain / g.bytesPerSector;
    if n >= g.sectorsPerCluster { MulMonotone(g.sectorsPerCluster, n, g.bytesPerSector); }
  }

  /** A position past the end of its cluster, and less than a sector wanted from there. */
  predicate PastCluster(g: Geometry, pos: FilePosition, remain: nat) {
    pos.sector == g.sectorsPerCluster && remain < g.bytesPerSector
  }

  /** A whole transfer. It is what the chain says from `p` on, except that less than a sector from
      a position past the end of its cluster comes from the sector that follows the cluster. */
  method Fetch(part: P.Partition, pos: FilePosition, remain: nat, ghost ch: seq<nat>, ghost k: nat, ghost p: nat)
    returns (data: seq<byte>, pos': FilePosition, ghost k': nat)
    requires part.Valid() && ChainIn(part, ch) && PosAt(part.geometry, ch, pos, k, p)
    requires remain > 0 && p < Chunk(part.geometry, |ch|)
    requires pos.sector == part.geometry.sectorsPerCluster ==> pos.byte == 0
    requires PastCluster(part.geometry, pos, remain) ==>
               ClusterToSector(part.geometry, pos.cluster) + pos.sector < part.geometry.endOfPartition
    modifies part.cache`accessCounter, part.cache`ticks, part.cache`touched, part.cache.entries, part.cache.disc
    ensures part.Valid() && AllClusters(part.geometry, ch)
    ensures |data| <= remain
    ensures |data| == remain ==>
              && PosAt(part.geometry, ch, pos', k', p + remain)
              && (pos'.sector == part.geometry.sectorsPerCluster ==>
                   pos'.byte == 0 && p + remain == Chunk(part.geometry, |ch|))
    ensures !PastCluster(part.geometry, pos, remain) ==>
              && p + |data| <= Chunk(part.geometry, |ch|) && data == Slice(FlatOf(part, ch), p, |data|)
              && (|data| < remain ==> p + |data| == Chunk(part.geometry, |ch|))
    ensures PastCluster(part.geometry, pos, remain) ==>
              && |data| == remain && p + remain <= Chunk(part.geometry, |ch|)
              && ClusterAddress(part.geometry, pos.cluster) + BytesPerCluster(part.geometry)
                 + remain <= |part.cache.view|
              && data == Slice(part.cache.view, ClusterAddress(part.geometry, pos.cluster)
                 + BytesPerCluster(part.geometry), remain)
  {
    hide ValidGeometry, Chunk, Slice, SectorAddress, BytesPerCluster, Coherent, Recent, AllClusters, Flat, Table,
      IsChain, ClusterToSector, ClusterAddress, Ready;
    var g := part.geometry;
    HeldChain(part, ch);
    var d1, d2, d3, d4, ok;
    d1, pos' := ReadHead(part, pos, remain, ch, k, p);
    d2, pos' := ReadClusterHead(part, pos', remain - |d1|, ch, k, p + |d1|);
    ghost var n := |d1| + |d2|;
    HeadEnds(g, ch, pos, pos', k, p, p + n, remain);
    ok, pos', k' := ReadNext(part, pos', remain - |d1| - |d2|, ch, k, p + n);
    data := d1 + d2;
    if ok {
      d3, pos', d4, k' := ReadRest(part, pos', remain - |d1| - |d2|, ch, k', p + n);
      data := data + (d3 + d4);
      FourParts(FlatOf(part, ch), p, d1, d2, d3 + d4, PastCluster(g, pos, remain));
    } else {
      SliceNone(FlatOf(part, ch), p + n);
      FourParts(FlatOf(part, ch), p, d1, d2, [], false);
      assert d1 + d2 + [] == d1 + d2;
    }
  }

  /** After the first two phases the position is in the chain, also after a read past a cluster. */
  lemma HeadEnds(g: Geometry, ch: seq<nat>, pos: FilePosition, pos': FilePosition, k: nat, p: nat, q: nat, remain: nat)
    requires ValidGeometry(g) && PosAt(g, ch, pos, k, p) && PosAt(g, ch, pos', k, q) && p < Chunk(g, |ch|)
    requires pos.sector == g.sectorsPerCluster ==> pos.byte == 0
    requires pos'.sector == g.sectorsPerCluster && pos'.byte > 0 ==> PastCluster(g, pos, remain) && q == p + remain
    ensures q <= Chunk(g, |ch|)
    ensures PastCluster(g, pos, remain) && q == p + remain ==> k + 1 < |ch|
  {
    ClusterSizes(g);
    PlaceInChain(g, ch, pos, k, p);
    if pos.sector == g.sectorsPerCluster && k + 1 < |ch| { ChunkMonotone(g, k + 1, |ch|); }
    if pos'.sector < g.sectorsPerCluster || pos'.byte == 0 { PlaceInChain(g, ch, pos', k, q); }
  }

  lemma FourParts(f: seq<byte>, p: nat, a: seq<byte>, b: seq<byte>, c: seq<byte>, past: bool)
    requires p + |a| + |b| + |c| <= |f|
    requires !past ==> a == Slice(f, p, |a|)
    requires b != [] ==> b == Slice(f, p + |a|, |b|)
    requires c == Slice(f, p + |a| + |b|, |c|)
    ensures !past ==> a + b + c == Slice(f, p, |a| + |b| + |c|)
    ensures b == [] && c == [] ==> a + b + c == a
  {
    if !past {
      SliceAppend(f, p, |a|, |b|);
      SliceAppend(f, p, |a| + |b|, |c|);
    }
  }

  method ReadRest(part: P.Partition, pos: FilePosition, remain: nat, ghost ch: seq<nat>, ghost k: nat, ghost p: nat)
    returns (whole: seq<byte>, pos': FilePosition, tail: seq<byte>, ghost k': nat)
    requires part.Valid() && ChainIn(part, ch) && PosAt(part.geometry, ch, pos, k, p)
    requires p <= Chunk(part.geometry, |ch|) && Ready(part.geometry, pos, remain)
    requires pos.sector == part.geometry.sectorsPerCluster ==>
               remain == 0 && pos.byte == 0 && p == Chunk(part.geometry, |ch|)
    modifies part.cache`accessCounter, part.cache`ticks, part.cache`touched, part.cache.entries, part.cache.disc
    ensures part.Valid() && AllClusters(part.geometry, ch)
    ensures |whole + tail| <= remain && p + |whole + tail| <= Chunk(part.geometry, |ch|)
    ensures whole + tail == Slice(FlatOf(part, ch), p, |whole + tail|)
    ensures if |whole + tail| == remain then PosAt(part.geometry, ch, pos', k', p + remain)
            else p + |whole + tail| == Chunk(part.geometry, |ch|)
    ensures |whole + tail| == remain && pos'.sector == part.geometry.sectorsPerCluster ==>
              pos'.byte == 0 && p + remain == Chunk(part.geometry, |ch|)
  {
    hide ValidGeometry, Chunk, Slice, SectorAddress, BytesPerCluster, Coherent, Recent, AllClusters, Flat, Table,
      IsChain;
    ChainClusters(part.geometry, part.T(), ch);
    var ok;
    ok, whole, pos', k' := ReadClusters(part, pos, remain, ch, k, p);
    tail := [];
    if ok {
      tail, pos' := ReadTail(part, pos', remain - |whole|, ch, k', p + |whole|);
      SliceAppend(FlatOf(part, ch), p, |whole|, remain - |whole|);
    } else {
      assert whole + tail == whole;
    }
  }

  /** Reading `n` bytes past the end of the `k`-th cluster gives what the chain says there. */
  ghost predicate PastClusterRight(g: Geometry, v: seq<byte>, ch: seq<nat>, k: nat, n: nat)
    requires ValidGeometry(g) && IsImage(g, v) && AllClusters(g, ch) && k < |ch|
  {
    var a := ClusterAddress(g, ch[k]) + BytesPerCluster(g);
    a + n <= |v| && Chunk(g, k + 1) + n <= |Flat(g, v, ch)|
        && Slice(v, a, n) == Slice(Flat(g, v, ch), Chunk(g, k + 1), n)
  }

  /** It does, whatever the table's clusters hold, exactly if the next cluster of the chain is the next one
      on the disc. */
  lemma PastClusterRightIffAdjacent(g: Geometry, v0: seq<byte>, ch: seq<nat>, k: nat, n: nat)
    requires ValidGeometry(g) && IsImage(g, v0) && IsChain(Table(g, v0), ch) && k + 1 < |ch| && 0 < n < g.bytesPerSector
    requires ClusterToSector(g, ch[k]) + g.sectorsPerCluster < g.endOfPartition
    ensures AllClusters(g, ch)
    ensures (forall v :: IsImage(g, v) && Table(g, v) == Table(g, v0) ==> PastClusterRight(g, v, ch, k, n))
       <==> ch[k + 1] == ch[k] + 1
  {
    hide ValidGeometry, ClusterAddress, BytesPerCluster, Flat, Slice, Chunk, PastClusterByte, Splice, Table, IsChain;
    ImageChain(g, v0, ch);
    if ch[k + 1] == ch[k] + 1 {
      forall v | IsImage(g, v) ensures PastClusterRight(g, v, ch, k, n) {
        PastClusterPlace(g, v, ch, k, n);
      }
    } else {
      var v := OtherByte(g, v0, ch, k);
      PastClusterPlace(g, v, ch, k, n);
      OneByteTells(v, PastClusterByte(g, ch, k), ClusterAddress(g, ch[k + 1]), n);
    }
  }

  /** The same table, and behind the `k`-th cluster another byte than at the start of the next one. */
  lemma OtherByte(g: Geometry, v0: seq<byte>, ch: seq<nat>, k: nat) returns (v: seq<byte>)
    requires ValidGeometry(g) && IsImage(g, v0) && AllClusters(g, ch) && k + 1 < |ch| && ch[k + 1] != ch[k] + 1
    requires ClusterToSector(g, ch[k]) + g.sectorsPerCluster < g.endOfPartition
    ensures IsImage(g, v) && Table(g, v) == Table(g, v0)
    ensures PastClusterByte(g, ch, k) < |v| && ClusterAddress(g, ch[k + 1]) < |v|
    ensures v[PastClusterByte(g, ch, k)] != v[ClusterAddress(g, ch[k + 1])]
  {
    hide ClusterAddress, BytesPerCluster, Table, FatBase, FatEnd;
    ClusterSizes(g);
    ClusterExtent(g, v0, ch[k]);
    ClusterExtent(g, v0, ch[k + 1]);
    AddressesDiffer(g, ch[k], ch[k + 1]);
    var a, b := PastClusterByte(g, ch, k), ClusterAddress(g, ch[k + 1]);
    v := Splice(v0, a, [if v0[b] == 0 then 1 else 0]);
    TableFrame(g, v0, v);
  }

  lemma OneByteTells(v: seq<byte>, a: nat, b: nat, n: nat)
    requires a + n <= |v| && b + n <= |v| && n > 0 && v[a] != v[b]
    ensures Slice(v, a, n) != Slice(v, b, n)
  {
    assert Slice(v, a, n)[0] == v[a] && Slice(v, b, n)[0] == v[b];
  }

  /** The first byte behind the `k`-th cluster of the chain. */
  function PastClusterByte(g: Geometry, ch: seq<nat>, k: nat): (a: nat)
    requires ValidGeometry(g) && AllClusters(g, ch) && k < |ch|
    requires ClusterToSector(g, ch[k]) + g.sectorsPerCluster < g.endOfPartition
    ensures a < SectorAddress(g, g.endOfPartition) && a == ClusterAddress(g, ch[k]) + BytesPerCluster(g)
  {
    SectorOfCluster(g, ch[k], g.sectorsPerCluster);
    ImageCovers(g, Zeros(SectorAddress(g, g.endOfPartition)), ClusterToSector(g, ch[k]) + g.sectorsPerCluster);
    ClusterAddress(g, ch[k]) + BytesPerCluster(g)
  }

  lemma PastClusterPlace(g: Geometry, v: seq<byte>, ch: seq<nat>, k: nat, n: nat)
    requires ValidGeometry(g) && IsImage(g, v) && AllClusters(g, ch) && k + 1 < |ch| && 0 < n < g.bytesPerSector
    requires ClusterToSector(g, ch[k]) + g.sectorsPerCluster < g.endOfPartition
    ensures ClusterAddress(g, ch[k]) + BytesPerCluster(g) + n <= |v|
    ensures Chunk(g, k + 1) + n <= |Flat(g, v, ch)| && ClusterAddress(g, ch[k + 1]) + n <= |v|
    ensures Slice(Flat(g, v, ch), Chunk(g, k + 1), n) == Slice(v, ClusterAddress(g, ch[k + 1]), n)
    ensures ch[k + 1] == ch[k] + 1 <==> ClusterAddress(g, ch[k + 1]) == ClusterAddress(g, ch[k]) + BytesPerCluster(g)
  {
    ClusterSizes(g);
    SectorOfCluster(g, ch[k], g.sectorsPerCluster);
    ImageCovers(g, v, ClusterToSector(g, ch[k]) + g.sectorsPerCluster);
    AddressesDiffer(g, ch[k], ch[k + 1]);
    hide ClusterAddress, BytesPerCluster, Chunk, Flat, Slice, ValidGeometry;
    FlatSlice(g, v, ch, k + 1, 0, n);
  }

  lemma AddressesDiffer(g: Geometry, c: nat, d: nat)
    requires ValidGeometry(g) && IsCluster(g, c) && IsCluster(g, d)
    ensures d == c + 1 <==> ClusterAddress(g, d) == ClusterAddress(g, c) + BytesPerCluster(g)
  {
    var s, t := ClusterToSector(g, c) + g.sectorsPerCluster, ClusterToSector(g, d);
    Distribute(ClusterToSector(g, c), g.sectorsPerCluster, g.bytesPerSector);
    Distribute(c - CLUSTER_FIRST, 1, g.sectorsPerCluster);
    if d < c + 1 {
      MulMonotone(d - CLUSTER_FIRST, c + 1 - CLUSTER_FIRST, g.sectorsPerCluster); MulMonotone(t, s, g.bytesPerSector);
    }
    if d > c + 1 {
      MulMonotone(c + 1 - CLUSTER_FIRST, d - CLUSTER_FIRST, g.sectorsPerCluster); MulMonotone(s, t, g.bytesPerSector);
    }
  }
}
