/** The phases of a write (FAT_write, modules/libfat/fatfile.c). Every phase is passed the bytes
    that are still to be written and reports how many it took. */
module FileWrite {
  import opened Arith
  import opened Bytes
  import opened CachePages
  import opened CacheRecency
  import opened FatTable
  import opened Chains
  import opened DataRegion
  import opened FileModel
  import opened FileRead
  import opened WriteModel
  import Cache
  import P = Partition

  /** `ch` is one of the partition's chains and `others` are all the others. */
  ghost predicate Held(part: P.Partition, others: set<seq<nat>>, ch: seq<nat>)
    reads part, part.cache, part.cache.entries, part.cache.disc
  {
    part.Valid() && Owns(part.geometry, part.cache.view, others, ch)
  }

  /** The start of a cluster. */
  predicate AtStart(pos: FilePosition) { pos.sector == 0 && pos.byte == 0 }

  /** Moves a position at the end of a cluster to the next cluster, which is allocated if the
      chain ends there. Nothing is done when nothing is left to write or an error is pending. */
  method NextForWrite(part: P.Partition, pos: FilePosition, remain: nat, flag: bool,
                      ghost others: set<seq<nat>>, ghost ch: seq<nat>, ghost k: nat, ghost p: nat)
    returns (flag': bool, pos': FilePosition, ghost ch': seq<nat>, ghost k': nat)
    requires Held(part, others, ch) && PosAt(part.geometry, ch, pos, k, p)
    requires flag ==> Searchable(part.geometry, part.cache.view, part.firstFree)
    requires p <= Chunk(part.geometry, |ch|)
    requires pos.sector == part.geometry.sectorsPerCluster ==> pos.byte == 0
    modifies part, part.cache, part.cache.entries, part.cache.disc
    ensures Held(part, others, ch') && (flag' ==> Searchable(part.geometry, part.cache.view, part.firstFree))
    ensures remain == 0 || !flag ==>
              flag' == flag && pos' == pos && ch' == ch && k' == k && part.cache.view == old(part.cache.view)
    ensures flag' ==> flag
    ensures flag' && remain > 0 ==> pos'.sector < part.geometry.sectorsPerCluster
    ensures pos.sector < part.geometry.sectorsPerCluster ==> flag' == flag && pos' == pos && k' == k && ch' == ch
    ensures pos.sector == part.geometry.sectorsPerCluster && flag' && remain > 0 ==>
              pos'.sector == 0 && pos'.byte == 0 && k' == k + 1
    ensures !flag' && flag ==>
              && Full(part.geometry, part.cache.view) && pos' == pos && ch' == ch && k' == k && k + 1 == |ch|
              && pos.sector == part.geometry.sectorsPerCluster && remain > 0
    ensures PosAt(part.geometry, ch', pos', k', p) && p <= Chunk(part.geometry, |ch'|)
    ensures ch' == ch || (|ch'| == |ch| + 1 && k' == |ch| && remain > 0)
    ensures k <= k' <= k + 1
    ensures Wrote(part.geometry, old(part.cache.view), ch, part.cache.view, ch', p, [])
  {
    hide Held, Searchable, Full, Wrote, Chunk, SectorAddress;
    flag', pos', ch', k' := flag, pos, ch, k;
    if remain == 0 || !flag || pos.sector < part.geometry.sectorsPerCluster {
      NothingYet(part, others, ch, p);
      return;
    }
    flag', pos', ch', k' := Advance(part, pos, others, ch, k, p);
  }

  lemma HeldFacts(part: P.Partition, others: set<seq<nat>>, ch: seq<nat>)
    requires Held(part, others, ch)
    ensures part.Valid() && ValidGeometry(part.geometry) && IsImage(part.geometry, part.cache.view)
    ensures part.geometry.sectorsPerCluster >= 1 && BytesPerCluster(part.geometry) >= part.geometry.bytesPerSector > 0
    ensures |ch| > 0 && AllClusters(part.geometry, ch) && Distinct(ch) && IsChain(part.T(), ch)
  {
    OwnsChain(part.geometry, part.cache.view, others, ch);
    ClusterSizes(part.geometry);
  }

  lemma NothingYet(part: P.Partition, others: set<seq<nat>>, ch: seq<nat>, p: nat)
    requires Held(part, others, ch) && p <= Chunk(part.geometry, |ch|)
    ensures Wrote(part.geometry, part.cache.view, ch, part.cache.view, ch, p, [])
  {
    OwnsChain(part.geometry, part.cache.view, others, ch);
    WroteNothing(part.geometry, part.cache.view, ch, p);
  }

  method Advance(part: P.Partition, pos: FilePosition, ghost others: set<seq<nat>>, ghost ch: seq<nat>, ghost k: nat,
                 ghost p: nat)
    returns (ok: bool, pos': FilePosition, ghost ch': seq<nat>, ghost k': nat)
    requires Held(part, others, ch) && Searchable(part.geometry, part.cache.view, part.firstFree)
             && PosAt(part.geometry, ch, pos, k, p)
    requires p <= Chunk(part.geometry, |ch|)
    requires pos.sector == part.geometry.sectorsPerCluster && pos.byte == 0
    modifies part, part.cache, part.cache.entries, part.cache.disc
    ensures Held(part, others, ch') && (ok ==> Searchable(part.geometry, part.cache.view, part.firstFree))
    ensures ok ==> pos'.sector == 0 < part.geometry.sectorsPerCluster && pos'.byte == 0 && k' == k + 1
    ensures !ok ==> Full(part.geometry, part.cache.view) && pos' == pos && ch' == ch && k' == k && k + 1 == |ch|
    ensures PosAt(part.geometry, ch', pos', k', p) && p <= Chunk(part.geometry, |ch'|)
    ensures ch' == ch || (|ch'| == |ch| + 1 && k' == |ch|)
    ensures Wrote(part.geometry, old(part.cache.view), ch, part.cache.view, ch', p, [])
  {
    hide Held, Searchable, Full, Wrote, Chunk, SectorAddress, ValidGeometry;
    HeldFacts(part, others, ch);
    EdgeMeansNext(part.geometry, pos, k, p);
    pos', k' := pos, k;
    var next;
    ok, next, ch' := NextOrNew(part, pos.cluster, others, ch, k, p);
    if ok {
      pos' := pos.(sector := 0, cluster := next);
      k' := k + 1;
    }
  }

  /** The end of one cluster is the start of the next. */
  lemma EdgeMeansNext(g: Geometry, pos: FilePosition, k: nat, p: nat)
    requires ValidGeometry(g) && pos.sector == g.sectorsPerCluster && p == Chunk(g, k) + SectorAddress(g, pos.sector)
    ensures p == Chunk(g, k + 1) && SectorAddress(g, 0) == 0
  {
    SectorSpan(g, pos.sector);
    SectorSpan(g, 0);
    ChunkStep(g, k);
  }

  /** The cluster after `ch[k]`, a new one if there is none. */
  method NextOrNew(part: P.Partition, cluster: nat, ghost others: set<seq<nat>>, ghost ch: seq<nat>, ghost k: nat,
                   ghost p: nat)
    returns (ok: bool, next: nat, ghost ch': seq<nat>)
    requires Held(part, others, ch) && Searchable(part.geometry, part.cache.view, part.firstFree) && k < |ch|
             && cluster == ch[k]
    requires p <= Chunk(part.geometry, |ch|)
    modifies part, part.cache, part.cache.entries, part.cache.disc
    ensures Held(part, others, ch') && (ok ==> Searchable(part.geometry, part.cache.view, part.firstFree))
    ensures ok ==> k + 1 < |ch'| && next == ch'[k + 1]
    ensures !ok ==> Full(part.geometry, part.cache.view) && ch' == ch && k + 1 == |ch|
    ensures ch' == ch || (|ch'| == |ch| + 1 && k + 1 == |ch|)
    ensures p <= Chunk(part.geometry, |ch'|)
    ensures Wrote(part.geometry, old(part.cache.view), ch, part.cache.view, ch', p, [])
  {
    var g := part.geometry;
    ghost var t := part.T();
    OwnsChain(g, part.cache.view, others, ch);
    WroteNothing(g, part.cache.view, ch, p);
    hide ValidGeometry, Wrote, Coherent, Recent, Table, Owns, Chunk, IsChain, AllClusters;
    hide Full;
    ok, ch' := true, ch;
    ChainStep(t, ch, k);
    next := part.NextCluster(cluster);
    if next == CLUSTER_EOF || next == CLUSTER_FREE {
      ok, next, ch' := Extend(part, cluster, others, ch, p);
    } else if !(CLUSTER_FIRST <= next <= g.lastCluster) {
      ok := false;
    }
  }

  /** A new cluster at the end of the chain. */
  method Extend(part: P.Partition, cluster: nat, ghost others: set<seq<nat>>, ghost ch: seq<nat>, ghost p: nat)
    returns (ok: bool, next: nat, ghost ch': seq<nat>)
    requires Held(part, others, ch) && Searchable(part.geometry, part.cache.view, part.firstFree) && |ch| > 0
             && cluster == ch[|ch| - 1]
    requires p <= Chunk(part.geometry, |ch|)
    modifies part, part.cache, part.cache.entries, part.cache.disc
    ensures Held(part, others, ch') && (ok ==> Searchable(part.geometry, part.cache.view, part.firstFree))
    ensures ok ==> ch' == ch + [next]
    ensures !ok ==> Full(part.geometry, part.cache.view) && ch' == ch
    ensures p <= Chunk(part.geometry, |ch'|)
    ensures Wrote(part.geometry, old(part.cache.view), ch, part.cache.view, ch', p, [])
  {
    var g := part.geometry;
    ghost var t, v := part.T(), part.cache.view;
    OwnsChain(g, part.cache.view, others, ch);
    WroteNothing(g, v, ch, p);
    LinkSoundIffNotStray(t, cluster, part.firstFree, part.Beyond());
    hide ValidGeometry, Wrote, Coherent, Recent, Table, Owns, Chunk, IsChain, AllClusters, Attach, FreeSet, FatBase,
      FatEnd, Link;
    ok, ch' := true, ch;
    ChainStep(t, ch, |ch| - 1);
    next := part.LinkFreeCluster(cluster);
    if !(CLUSTER_FIRST <= next <= g.lastCluster) {
      ok := false;
    } else {
      FreeIsValid(t, next);
      OwnsExtends(g, v, part.cache.view, others, ch, next);
      ChunkMonotone(g, |ch|, |ch| + 1);
      WroteGrow(g, v, part.cache.view, ch, next, p);
      ch' := ch + [next];
    }
  }

  /** The table after a cluster was attached to the end of the chain. */
  lemma OwnsExtends(g: Geometry, v: seq<byte>, v': seq<byte>, others: set<seq<nat>>, ch: seq<nat>, next: nat)
    requires Owns(g, v, others, ch) && IsImage(g, v') && next in FreeSet(Table(g, v)) && |ch| > 0
    requires Valid(Table(g, v), next) && Table(g, v') == Attach(Table(g, v), ch[|ch| - 1], next)
    ensures Owns(g, v', others, ch + [next]) && IsCluster(g, next)
  {
    hide Table, Forest, FreeSet, Attach, IsChain;
    var t := Table(g, v);
    AttachExtends(t, others + {ch}, ch, next);
    assert others + {ch} - {ch} + {ch + [next]} == others + {ch + [next]};
    UsedNotFree(t, others + {ch}, next);
    assert next in ch + [next] by { assert (ch + [next])[|ch|] == next; }
  }

  // ----- stores inside the chain -----

  /** The image after `data` was stored at a position, as far as the file can tell. */
  lemma Stored(g: Geometry, v: seq<byte>, v': seq<byte>, others: set<seq<nat>>, ch: seq<nat>, pos: FilePosition,
               k: nat, p: nat, data: seq<byte>)
    requires Owns(g, v, others, ch) && PosAt(g, ch, pos, k, p)
    requires SectorAddress(g, pos.sector) + pos.byte + |data| <= BytesPerCluster(g)
    requires var a := SectorAddress(g, ClusterToSector(g, pos.cluster) + pos.sector) + pos.byte;
             a + |data| <= |v| && v' == Splice(v, a, data)
    ensures Owns(g, v', others, ch) && Wrote(g, v, ch, v', ch, p, data) && SameTable(g, v, v')
  {
    hide ValidGeometry, Wrote, Table, Owns, Chunk, SectorAddress, IsChain, AllClusters, BytesPerCluster,
      ClusterToSector, Splice;
    OwnsChain(g, v, others, ch);
    OwnsImage(g, v, others, ch);
    WroteStore(g, v, ch, pos, k, p, data);
    TableKept(g, v, v', others, ch, 0);
  }

  lemma OwnsImage(g: Geometry, v: seq<byte>, others: set<seq<nat>>, ch: seq<nat>)
    requires Owns(g, v, others, ch)
    ensures ValidGeometry(g) && IsImage(g, v)
  {
  }

  /** Bytes inside one sector. */
  method StorePart(part: P.Partition, data: seq<byte>, pos: FilePosition, ghost others: set<seq<nat>>,
                   ghost ch: seq<nat>, ghost k: nat, ghost p: nat)
    requires Held(part, others, ch) && PosAt(part.geometry, ch, pos, k, p)
    requires pos.sector < part.geometry.sectorsPerCluster && pos.byte + |data| <= part.geometry.bytesPerSector
    modifies part.cache, part.cache.entries, part.cache.disc
    ensures Held(part, others, ch)
    ensures Wrote(part.geometry, old(part.cache.view), ch, part.cache.view, ch, p, data)
    ensures SameTable(part.geometry, old(part.cache.view), part.cache.view)
  {
    hide Owns, SameTable, ValidGeometry, Wrote, Chunk, SectorAddress, ClusterToSector, BytesPerCluster, AllClusters,
      Coherent, Recent, Splice, IsChain;
    ghost var v := part.cache.view;
    HeldFacts(part, others, ch);
    InClusterFacts(part, others, ch, pos, k);
    TakeAll(data);
    part.WritePart(Cache.Buffer(data), ClusterToSector(part.geometry, pos.cluster) + pos.sector, pos.byte, |data|);
    Stored(part.geometry, v, part.cache.view, others, ch, pos, k, p, data);
  }

  /** Zeros inside one sector: the NULL buffer. */
  method StoreZeros(part: P.Partition, n: nat, pos: FilePosition, ghost others: set<seq<nat>>, ghost ch: seq<nat>,
                    ghost k: nat, ghost p: nat)
    requires Held(part, others, ch) && PosAt(part.geometry, ch, pos, k, p)
    requires pos.sector < part.geometry.sectorsPerCluster && pos.byte + n <= part.geometry.bytesPerSector
    modifies part.cache, part.cache.entries, part.cache.disc
    ensures Held(part, others, ch)
    ensures Wrote(part.geometry, old(part.cache.view), ch, part.cache.view, ch, p, Zeros(n))
    ensures SameTable(part.geometry, old(part.cache.view), part.cache.view)
  {
    hide Owns, SameTable, ValidGeometry, Wrote, Chunk, SectorAddress, ClusterToSector, BytesPerCluster, AllClusters,
      Coherent, Recent, Splice, IsChain;
    ghost var v := part.cache.view;
    HeldFacts(part, others, ch);
    InClusterFacts(part, others, ch, pos, k);
    part.WritePart(Cache.Null, ClusterToSector(part.geometry, pos.cluster) + pos.sector, pos.byte, n);
    Stored(part.geometry, v, part.cache.view, others, ch, pos, k, p, Zeros(n));
  }

  /** The start of a sector, with the rest of that sector zeroed. */
  method StoreErased(part: P.Partition, data: seq<byte>, pos: FilePosition, ghost others: set<seq<nat>>,
                     ghost ch: seq<nat>, ghost k: nat, ghost p: nat)
    requires Held(part, others, ch) && PosAt(part.geometry, ch, pos, k, p)
    requires pos.sector < part.geometry.sectorsPerCluster && pos.byte == 0 && |data| <= part.geometry.bytesPerSector
    modifies part.cache, part.cache.entries, part.cache.disc
    ensures Held(part, others, ch)
    ensures Wrote(part.geometry, old(part.cache.view), ch, part.cache.view, ch, p, data
            + Zeros(part.geometry.bytesPerSector - |data|))
    ensures SameTable(part.geometry, old(part.cache.view), part.cache.view)
  {
    hide Owns, SameTable, ValidGeometry, Wrote, Chunk, SectorAddress, ClusterToSector, BytesPerCluster, AllClusters,
      Coherent, Recent, Splice, IsChain;
    ghost var v := part.cache.view;
    HeldFacts(part, others, ch);
    InClusterFacts(part, others, ch, pos, k);
    TakeAll(data);
    part.EraseWritePart(Cache.Buffer(data), ClusterToSector(part.geometry, pos.cluster) + pos.sector, |data|);
    Stored(part.geometry, v, part.cache.view, others, ch, pos, k, p, data
        + Zeros(part.geometry.bytesPerSector - |data|));
  }

  /** Whole sectors inside one cluster. */
  method StoreSectors(part: P.Partition, src: Cache.Source, n: nat, pos: FilePosition, ghost others: set<seq<nat>>,
                      ghost ch: seq<nat>, ghost k: nat, ghost p: nat)
    requires Held(part, others, ch) && PosAt(part.geometry, ch, pos, k, p)
    requires pos.sector + n <= part.geometry.sectorsPerCluster && pos.byte == 0
    requires Cache.Supplies(src, SectorAddress(part.geometry, n))
    modifies part.cache, part.cache.entries, part.cache.disc
    ensures Held(part, others, ch)
    ensures Wrote(part.geometry, old(part.cache.view), ch, part.cache.view, ch, p,
            Cache.Taken(src, 0, SectorAddress(part.geometry, n)))
    ensures SameTable(part.geometry, old(part.cache.view), part.cache.view)
  {
    hide Owns, SameTable, ValidGeometry, Wrote, Chunk, SectorAddress, ClusterToSector, BytesPerCluster, Cache.Supplies,
      Cache.Taken, Coherent, Recent, Splice, IsChain;
    ghost var v := part.cache.view;
    HeldFacts(part, others, ch);
    SectorRange(part.geometry, ch[k], pos.sector, n);
    part.WriteSectorRun(ClusterToSector(part.geometry, pos.cluster) + pos.sector, n, src);
    Stored(part.geometry, v, part.cache.view, others, ch, pos, k, p,
        Cache.Taken(src, 0, SectorAddress(part.geometry, n)));
  }

  lemma InClusterFacts(part: P.Partition, others: set<seq<nat>>, ch: seq<nat>, pos: FilePosition, k: nat)
    requires Held(part, others, ch) && k < |ch| && pos.cluster == ch[k] && pos.sector < part.geometry.sectorsPerCluster
    ensures ClusterToSector(part.geometry, pos.cluster) + pos.sector < part.geometry.endOfPartition
    ensures SectorAddress(part.geometry, pos.sector) + part.geometry.bytesPerSector <= BytesPerCluster(part.geometry)
  {
    HeldFacts(part, others, ch);
    SectorOfCluster(part.geometry, ch[k], pos.sector);
    SectorSpan(part.geometry, pos.sector);
  }

  lemma TakeAll(data: seq<byte>)
    ensures Cache.Supplies(Cache.Buffer(data), |data|) && Cache.Taken(Cache.Buffer(data), 0, |data|) == data
  {
  }

  /** A group of whole consecutive clusters. */
  method StoreGroup(part: P.Partition, data: seq<byte>, cluster: nat, ghost others: set<seq<nat>>, ghost ch: seq<nat>,
                    ghost k: nat, ghost m: nat)
    requires Held(part, others, ch) && Run(ch, k, m) && m >= 1 && cluster == ch[k]
    requires |data| == Chunk(part.geometry, m)
    modifies part.cache, part.cache.entries, part.cache.disc
    ensures Held(part, others, ch)
    ensures Wrote(part.geometry, old(part.cache.view), ch, part.cache.view, ch, Chunk(part.geometry, k), data)
    ensures SameTable(part.geometry, old(part.cache.view), part.cache.view)
  {
    hide Owns, SameTable, ValidGeometry, Wrote, Chunk, SectorAddress, ClusterToSector, BytesPerCluster, AllClusters,
      Coherent, Recent, Splice, IsChain, Run;
    ghost var g, v := part.geometry, part.cache.view;
    HeldFacts(part, others, ch);
    GroupPlace(g, v, others, ch, k, m);
    TakeAll(data);
    part.WriteSectorRun(ClusterToSector(part.geometry, cluster), |data| / part.geometry.bytesPerSector,
        Cache.Buffer(data));
    GroupStored(g, v, part.cache.view, others, ch, k, m, data);
  }

  lemma GroupPlace(g: Geometry, v: seq<byte>, others: set<seq<nat>>, ch: seq<nat>, k: nat, m: nat)
    requires Owns(g, v, others, ch) && Run(ch, k, m) && m >= 1
    ensures g.bytesPerSector > 0 && ClusterToSector(g, ch[k]) + Chunk(g, m) / g.bytesPerSector <= g.endOfPartition
    ensures SectorAddress(g, Chunk(g, m) / g.bytesPerSector) == Chunk(g, m)
  {
    hide Owns, Chunk, Run, SectorAddress, Table, BytesPerCluster;
    OwnsImage(g, v, others, ch);
    OwnsChain(g, v, others, ch);
    ChunkSectors(g, m);
    RunSectors(g, v, ch, k, m);
  }

  lemma GroupStored(g: Geometry, v: seq<byte>, v': seq<byte>, others: set<seq<nat>>, ch: seq<nat>, k: nat, m: nat,
                    data: seq<byte>)
    requires Owns(g, v, others, ch) && Run(ch, k, m) && m >= 1 && |data| == Chunk(g, m)
    requires SectorAddress(g, ClusterToSector(g, ch[k])) + |data| <= |v|
    requires v' == Splice(v, SectorAddress(g, ClusterToSector(g, ch[k])), data)
    ensures Owns(g, v', others, ch) && Wrote(g, v, ch, v', ch, Chunk(g, k), data) && SameTable(g, v, v')
  {
    hide Owns, Wrote, Chunk, Run, SectorAddress, ClusterToSector, IsChain, AllClusters, BytesPerCluster, Splice,
      ValidGeometry, Table;
    OwnsImage(g, v, others, ch);
    OwnsChain(g, v, others, ch);
    WroteRun(g, v, ch, k, m, data);
    TableKept(g, v, v', others, ch, 0);
  }

  // ----- the phases -----

  /** To the end of the sector, if the position is inside one or little is left. */
  method WriteHead(part: P.Partition, src: seq<byte>, pos: FilePosition, flag: bool,
                   ghost others: set<seq<nat>>, ghost ch: seq<nat>, ghost k: nat, ghost p: nat)
    returns (n: nat, pos': FilePosition)
    requires Held(part, others, ch) && PosAt(part.geometry, ch, pos, k, p) && p <= Chunk(part.geometry, |ch|)
    requires flag ==> pos.sector < part.geometry.sectorsPerCluster
    requires pos.sector == part.geometry.sectorsPerCluster ==> pos.byte == 0
    modifies part.cache, part.cache.entries, part.cache.disc
    ensures Held(part, others, ch) && SameTable(part.geometry, old(part.cache.view), part.cache.view)
    ensures n <= |src| && PosAt(part.geometry, ch, pos', k, p + n)
    ensures Wrote(part.geometry, old(part.cache.view), ch, part.cache.view, ch, p, src[..n])
    ensures !flag ==> n == 0 && pos' == pos
    ensures flag && n < |src| ==> pos'.byte == 0
    ensures pos'.sector == part.geometry.sectorsPerCluster ==> pos'.byte == 0
    ensures flag && |src| > 0 ==> n > 0 || (pos' == pos && pos.byte == 0)
    ensures n > 0 ==> !AtStart(pos')
  {
    hide Owns, SameTable, ValidGeometry, Wrote, Chunk, SectorAddress, ClusterToSector, BytesPerCluster, AllClusters,
      Coherent, Recent, Splice, IsChain;
    var bps := part.geometry.bytesPerSector;
    ghost var g, v := part.geometry, part.cache.view;
    HeldFacts(part, others, ch);
    n, pos' := 0, pos;
    var take := if bps - pos.byte > |src| then |src| else bps - pos.byte;
    if take < bps && flag {
      StorePart(part, src[..take], pos, others, ch, k, p);
      n := take;
      SectorAdd(g, pos.sector, 1);
      pos' := pos.(byte := pos.byte + take);
      if pos'.byte >= bps {
        pos' := pos.(byte := 0, sector := pos.sector + 1);
      }
    } else {
      NothingYet(part, others, ch, p);
      NoChange(part, others, ch);
      assert src[..0] == [];
    }
  }

  lemma NoChange(part: P.Partition, others: set<seq<nat>>, ch: seq<nat>)
    requires Held(part, others, ch)
    ensures SameTable(part.geometry, part.cache.view, part.cache.view)
  {
  }

  /** The bytes that fit into whole sectors before the end of the cluster; a whole cluster is
      left to the next phase. */
  method WriteClusterHead(part: P.Partition, src: seq<byte>, pos: FilePosition, flag: bool,
                          ghost others: set<seq<nat>>, ghost ch: seq<nat>, ghost k: nat, ghost p: nat)
    returns (n: nat, pos': FilePosition)
    requires Held(part, others, ch) && PosAt(part.geometry, ch, pos, k, p) && p <= Chunk(part.geometry, |ch|)
    requires flag && |src| > 0 ==> pos.byte == 0
    requires pos.sector == part.geometry.sectorsPerCluster ==> pos.byte == 0
    modifies part.cache, part.cache.entries, part.cache.disc
    ensures Held(part, others, ch) && SameTable(part.geometry, old(part.cache.view), part.cache.view)
    ensures n <= |src| && PosAt(part.geometry, ch, pos', k, p + n)
    ensures Wrote(part.geometry, old(part.cache.view), ch, part.cache.view, ch, p, src[..n])
    ensures !flag ==> n == 0 && pos' == pos
    ensures flag && n < |src| ==> pos'.byte == 0
    ensures flag && |src| - n >= part.geometry.bytesPerSector ==>
              pos'.sector == part.geometry.sectorsPerCluster
                  || (pos'.sector == 0 && |src| - n >= BytesPerCluster(part.geometry))
    ensures pos'.sector == part.geometry.sectorsPerCluster ==> pos'.byte == 0
    ensures if n > 0 then !AtStart(pos') else pos' == pos
  {
    hide Owns, SameTable, ValidGeometry, Wrote, Chunk, SectorAddress, ClusterToSector, BytesPerCluster, AllClusters,
      Coherent, Recent, Splice, IsChain;
    var g := part.geometry;
    HeldFacts(part, others, ch);
    HeadTake(g, pos.sector, |src|);
    var rest := g.sectorsPerCluster - pos.sector;
    var sectors := if |src| > SectorAddress(g, rest) then rest else |src| / g.bytesPerSector;
    n, pos' := 0, pos;
    if 0 < sectors < g.sectorsPerCluster && flag {
      n := SectorAddress(g, sectors);
      TakePrefix(src, n);
      StoreSectors(part, Cache.Buffer(src), sectors, pos, others, ch, k, p);
      SectorAdd(g, pos.sector, sectors);
      pos' := pos.(sector := pos.sector + sectors);
    } else {
      NothingYet(part, others, ch, p);
      NoChange(part, others, ch);
      assert src[..0] == [];
    }
  }

  lemma TakePrefix(data: seq<byte>, n: nat)
    requires n <= |data|
    ensures Cache.Supplies(Cache.Buffer(data), n) && Cache.Taken(Cache.Buffer(data), 0, n) == data[..n]
  {
  }

  /** How many sectors that phase takes, and what is then left. */
  lemma HeadTake(g: Geometry, s: nat, remain: nat)
    requires ValidGeometry(g) && s <= g.sectorsPerCluster
    ensures var rest := g.sectorsPerCluster - s;
            var n := if remain > SectorAddress(g, rest) then rest else remain / g.bytesPerSector;
            && s + n <= g.sectorsPerCluster && SectorAddress(g, n) <= remain
            && (s + n < g.sectorsPerCluster ==> remain - SectorAddress(g, n) < g.bytesPerSector)
            && (n == 0 ==> SectorAddress(g, n) == 0) && (n > 0 ==> SectorAddress(g, n) > 0)
            && (n == g.sectorsPerCluster ==> s == 0 && SectorAddress(g, n) == BytesPerCluster(g))
  {
    var rest := g.sectorsPerCluster - s;
    var n := if remain > SectorAddress(g, rest) then rest else remain / g.bytesPerSector;
    SectorsIn(g, remain);
    HeadSectors(g, s, remain, n);
  }

  /** The group of consecutive clusters that the next whole-cluster write fills, allocated as far
      as needed. `next` is the cluster after the group if one was reached that does not follow on. */
  method GroupForWrite(part: P.Partition, cluster: nat, remain: nat,
                       ghost others: set<seq<nat>>, ghost ch: seq<nat>, ghost k: nat)
    returns (flag: bool, chunkSize: nat, chunkEnd: nat, next: nat, ghost ch': seq<nat>, ghost m: nat)
    requires Held(part, others, ch) && Searchable(part.geometry, part.cache.view, part.firstFree)
    requires k < |ch| && cluster == ch[k] && remain >= BytesPerCluster(part.geometry)
    modifies part, part.cache, part.cache.entries, part.cache.disc
    ensures Held(part, others, ch')
    ensures if flag then Searchable(part.geometry, part.cache.view, part.firstFree)
            else Full(part.geometry, part.cache.view)
    ensures m >= 1 && k + m <= |ch'| && Run(ch', k, m) && chunkSize == Chunk(part.geometry, m) <= remain
            && chunkEnd == ch'[k + m - 1]
    ensures next == chunkEnd || (flag && k + m < |ch'| && next == ch'[k + m] && chunkSize < remain)
    ensures |ch'| == |ch| || |ch'| == k + m + (if next == chunkEnd then 0 else 1)
    ensures !flag ==> chunkSize < remain && next == chunkEnd && k + m == |ch'|
    ensures Wrote(part.geometry, old(part.cache.view), ch, part.cache.view, ch', 0, [])
  {
    hide Owns, SameTable, ValidGeometry, Wrote, Chunk, SectorAddress, BytesPerCluster, AllClusters, Coherent, Recent,
      IsChain, Searchable, Full;
    var g := part.geometry;
    HeldFacts(part, others, ch);
    NothingYet(part, others, ch, 0);
    flag, chunkSize, chunkEnd, next, ch', m := true, BytesPerCluster(g), cluster, cluster, ch, 1;
    ChunkStep(g, 0);
    assert Run(ch, k, 1);
    while flag && chunkSize + BytesPerCluster(g) < remain
      invariant Held(part, others, ch') && flag && Searchable(g, part.cache.view, part.firstFree)
      invariant m >= 1 && Run(ch', k, m) && chunkSize == Chunk(g, m) <= remain
      invariant chunkEnd == ch'[k + m - 1] && next == chunkEnd
      invariant |ch'| == |ch| || |ch'| == k + m
      invariant Wrote(g, old(part.cache.view), ch, part.cache.view, ch', 0, [])
      decreases remain - chunkSize
    {
      ghost var v1, ch1 := part.cache.view, ch';
      HeldFacts(part, others, ch1);
      flag, next, ch' := NextInGroup(part, chunkEnd, others, ch1, k + m - 1);
      WroteAfterNothing(g, old(part.cache.view), ch, v1, ch1, part.cache.view, ch', 0, 0, []);
      KeepsRun(g, v1, ch1, part.cache.view, ch', k, m);
      if !flag {
        next := chunkEnd;
        break;
      }
      if next != chunkEnd + 1 {
        HeldFacts(part, others, ch');
        assert next != chunkEnd;
        break;
      }
      chunkEnd := next;
      ChunkStep(g, m);
      chunkSize := chunkSize + BytesPerCluster(g);
      m := m + 1;
    }
  }

  lemma KeepsRun(g: Geometry, v: seq<byte>, ch: seq<nat>, v': seq<byte>, ch': seq<nat>, k: nat, m: nat)
    requires Wrote(g, v, ch, v', ch', 0, []) && Run(ch, k, m) && m >= 1
    ensures Run(ch', k, m) && ch'[k + m - 1] == ch[k + m - 1]
  {
    WroteBounds(g, v, ch, v', ch', 0, []);
    hide Wrote;
    assert forall j :: k <= j < k + m ==> ch'[j] == ch[j];
  }

  /** The cluster after the `k`-th, by way of a position at the end of that one. */
  method NextInGroup(part: P.Partition, cluster: nat, ghost others: set<seq<nat>>, ghost ch: seq<nat>, ghost k: nat)
    returns (flag: bool, next: nat, ghost ch': seq<nat>)
    requires Held(part, others, ch) && Searchable(part.geometry, part.cache.view, part.firstFree)
    requires k < |ch| && cluster == ch[k]
    modifies part, part.cache, part.cache.entries, part.cache.disc
    ensures Held(part, others, ch')
    ensures if flag then Searchable(part.geometry, part.cache.view, part.firstFree)
            else Full(part.geometry, part.cache.view)
    ensures flag ==> k + 1 < |ch'| && next == ch'[k + 1]
    ensures !flag ==> k + 1 == |ch'|
    ensures ch' == ch || (flag && |ch'| == |ch| + 1 == k + 2)
    ensures Wrote(part.geometry, old(part.cache.view), ch, part.cache.view, ch', 0, [])
  {
    hide Owns, SameTable, ValidGeometry, Wrote, Chunk, SectorAddress, BytesPerCluster, AllClusters, Coherent, Recent,
      IsChain, Searchable, Full;
    var g := part.geometry;
    HeldFacts(part, others, ch);
    var pos := FilePosition(cluster, g.sectorsPerCluster, 0);
    ghost var p := Chunk(g, k) + SectorAddress(g, g.sectorsPerCluster);
    EdgeMeansNext(g, pos, k, p);
    ChunkMonotone(g, k + 1, |ch|);
    ChunkMonotone(g, 0, |ch|);
    var pos';
    ghost var k';
    flag, pos', ch', k' := NextForWrite(part, pos, 1, true, others, ch, k, p);
    next := pos'.cluster;
    WroteBounds(g, old(part.cache.view), ch, part.cache.view, ch', p, []);
    WroteNowhere(g, old(part.cache.view), ch, part.cache.view, ch', p, 0);
  }

  /** One round of the whole-cluster loop. */
  method WriteOneGroup(part: P.Partition, src: seq<byte>, pos: FilePosition,
                       ghost others: set<seq<nat>>, ghost ch: seq<nat>, ghost k: nat, ghost p: nat)
    returns (n: nat, flag: bool, pos': FilePosition, ghost ch': seq<nat>, ghost k': nat)
    requires Held(part, others, ch) && Searchable(part.geometry, part.cache.view, part.firstFree)
    requires PosAt(part.geometry, ch, pos, k, p) && p <= Chunk(part.geometry, |ch|)
    requires pos.byte == 0 && (pos.sector == part.geometry.sectorsPerCluster || pos.sector == 0)
    requires |src| >= BytesPerCluster(part.geometry)
    modifies part, part.cache, part.cache.entries, part.cache.disc
    ensures Held(part, others, ch')
    ensures if flag then Searchable(part.geometry, part.cache.view, part.firstFree)
            else Full(part.geometry, part.cache.view)
    ensures n <= |src| && (flag ==> n > 0)
    ensures !flag ==> n < |src| && pos'.sector == part.geometry.sectorsPerCluster && k' + 1 == |ch'|
    ensures n == |src| ==> pos'.sector == part.geometry.sectorsPerCluster
    ensures PosAt(part.geometry, ch', pos', k', p + n)
    ensures pos'.byte == 0 && (pos'.sector == part.geometry.sectorsPerCluster || pos'.sector == 0)
    ensures Wrote(part.geometry, old(part.cache.view), ch, part.cache.view, ch', p, src[..n])
    ensures k <= k' && (n == 0 ==> pos' == pos && ch' == ch && k' == k)
    ensures Tight(part.geometry, ch, ch', k', p + n, |src| - n)
  {
    hide Owns, SameTable, ValidGeometry, Wrote, Chunk, SectorAddress, BytesPerCluster, AllClusters, Coherent, Recent,
      IsChain, Searchable, Full, Run;
    var g := part.geometry;
    ghost var v0 := part.cache.view;
    HeldFacts(part, others, ch);
    n := 0;
    flag, pos', ch', k' := NextForWrite(part, pos, |src|, true, others, ch, k, p);
    if !flag {
      assert src[..0] == [];
      return;
    }
    ghost var v1, ch1 := part.cache.view, ch';
    HeldFacts(part, others, ch1);
    AtClusterStart(g, ch1, pos', k', p);
    n, flag, pos', ch', k' := WriteGroupAt(part, src, pos', others, ch1, k');
    WroteAfterNothing(g, v0, ch, v1, ch1, part.cache.view, ch', p, p, src[..n]);
  }

  method WriteGroupAt(part: P.Partition, src: seq<byte>, pos: FilePosition,
                      ghost others: set<seq<nat>>, ghost ch: seq<nat>, ghost k: nat)
    returns (n: nat, flag: bool, pos': FilePosition, ghost ch': seq<nat>, ghost k': nat)
    requires Held(part, others, ch) && Searchable(part.geometry, part.cache.view, part.firstFree)
    requires k < |ch| && pos == FilePosition(ch[k], 0, 0) && |src| >= BytesPerCluster(part.geometry)
    modifies part, part.cache, part.cache.entries, part.cache.disc
    ensures Held(part, others, ch')
    ensures if flag then Searchable(part.geometry, part.cache.view, part.firstFree)
            else Full(part.geometry, part.cache.view)
    ensures 0 < n <= |src| && (!flag ==> n < |src| && pos'.sector == part.geometry.sectorsPerCluster && k' + 1 == |ch'|)
    ensures n == |src| ==> pos'.sector == part.geometry.sectorsPerCluster
    ensures PosAt(part.geometry, ch', pos', k', Chunk(part.geometry, k) + n)
    ensures pos'.byte == 0 && (pos'.sector == part.geometry.sectorsPerCluster || pos'.sector == 0)
    ensures Wrote(part.geometry, old(part.cache.view), ch, part.cache.view, ch', Chunk(part.geometry, k), src[..n])
    ensures k <= k' < |ch'|
    ensures |ch'| == |ch| || (|ch'| == k' + 1 && (Chunk(part.geometry, k) + n > Chunk(part.geometry, k') || n < |src|))
  {
    hide Owns, SameTable, ValidGeometry, Wrote, Chunk, SectorAddress, BytesPerCluster, AllClusters, Coherent, Recent,
      IsChain, Searchable, Full, Run;
    var g := part.geometry;
    ghost var v0 := part.cache.view;
    HeldFacts(part, others, ch);
    ChunkMonotone(g, k, |ch|);
    var chunkEnd, next;
    ghost var m;
    flag, n, chunkEnd, next, ch', m := GroupForWrite(part, pos.cluster, |src|, others, ch, k);
    ghost var v2 := part.cache.view;
    GroupStart(g, v0, ch, v2, ch', k);
    StoreGroup(part, src[..n], pos.cluster, others, ch', k, m);
    TableKept(g, v2, part.cache.view, others, ch', part.firstFree);
    WroteAfterNothing(g, v0, ch, v2, ch', part.cache.view, ch', Chunk(g, k), 0, src[..n]);
    HeldFacts(part, others, ch');
    GroupEnd(g, ch', k, m);
    if chunkEnd != next && CLUSTER_FIRST <= next <= g.lastCluster {
      pos' := pos.(cluster := next, sector := 0);
      k' := k + m;
    } else {
      InRange(part, others, ch', k + m, chunkEnd != next, next);
      pos' := pos.(cluster := chunkEnd, sector := g.sectorsPerCluster);
      k' := k + m - 1;
    }
  }

  lemma InRange(part: P.Partition, others: set<seq<nat>>, ch: seq<nat>, i: nat, moved: bool, next: nat)
    requires Held(part, others, ch) && (moved ==> i < |ch| && next == ch[i])
    ensures moved ==> IsCluster(part.geometry, next)
  {
    HeldFacts(part, others, ch);
  }

  lemma GroupStart(g: Geometry, v: seq<byte>, ch: seq<nat>, v': seq<byte>, ch': seq<nat>, k: nat)
    requires Wrote(g, v, ch, v', ch', 0, []) && k < |ch|
    ensures k < |ch'| && ch'[k] == ch[k]
    ensures Chunk(g, k) <= Chunk(g, |ch'|)
  {
    WroteBounds(g, v, ch, v', ch', 0, []);
    ChunkMonotone(g, k, |ch'|);
  }

  lemma AtClusterStart(g: Geometry, ch: seq<nat>, pos: FilePosition, k: nat, p: nat)
    requires ValidGeometry(g) && PosAt(g, ch, pos, k, p) && pos.sector == 0 && pos.byte == 0
    ensures p == Chunk(g, k) && pos.cluster == ch[k] && BytesPerCluster(g) > 0
  {
    ClusterSizes(g);
    SectorSpan(g, 0);
  }

  /** Where a group ends, in both ways of writing the position. */
  lemma GroupEnd(g: Geometry, ch: seq<nat>, k: nat, m: nat)
    requires ValidGeometry(g) && Run(ch, k, m) && m >= 1
    ensures Chunk(g, k) + Chunk(g, m) == Chunk(g, k + m) == Chunk(g, k + m - 1) + SectorAddress(g, g.sectorsPerCluster)
    ensures SectorAddress(g, 0) == 0 && Chunk(g, k + m - 1) < Chunk(g, k + m) && Chunk(g, m) > 0
  {
    ClusterSizes(g);
    ChunkAdd(g, k, m);
    ChunkStep(g, k + m - 1);
    ChunkMonotone(g, 0, m);
    SectorSpan(g, g.sectorsPerCluster);
    SectorSpan(g, 0);
  }

  /** Whole clusters, one group of consecutive ones at a time. */
  method WriteClusters(part: P.Partition, src: seq<byte>, pos: FilePosition, flag: bool,
                       ghost others: set<seq<nat>>, ghost ch: seq<nat>, ghost k: nat, ghost p: nat)
    returns (n: nat, flag': bool, pos': FilePosition, ghost ch': seq<nat>, ghost k': nat)
    requires Held(part, others, ch) && PosAt(part.geometry, ch, pos, k, p) && p <= Chunk(part.geometry, |ch|)
    requires flag ==> Searchable(part.geometry, part.cache.view, part.firstFree)
    requires flag && |src| >= BytesPerCluster(part.geometry) ==>
               pos.byte == 0 && (pos.sector == part.geometry.sectorsPerCluster || pos.sector == 0)
    modifies part, part.cache, part.cache.entries, part.cache.disc
    ensures Held(part, others, ch') && (flag' ==> flag && Searchable(part.geometry, part.cache.view, part.firstFree))
    ensures flag && !flag' ==>
              Full(part.geometry, part.cache.view) && n < |src| && pos'.sector == part.geometry.sectorsPerCluster
                  && k' + 1 == |ch'|
    ensures 0 < n == |src| ==> pos'.sector == part.geometry.sectorsPerCluster
    ensures n <= |src| && PosAt(part.geometry, ch', pos', k', p + n) && k <= k'
    ensures Wrote(part.geometry, old(part.cache.view), ch, part.cache.view, ch', p, src[..n])
    ensures n == 0 ==> pos' == pos && ch' == ch && k' == k
    ensures !flag ==> part.cache.view == old(part.cache.view) && n == 0
    ensures n > 0 ==> pos'.byte == 0 && (pos'.sector == part.geometry.sectorsPerCluster || pos'.sector == 0)
    ensures flag' ==> |src| - n < BytesPerCluster(part.geometry)
    ensures Tight(part.geometry, ch, ch', k', p + n, |src| - n)
  {
    hide Owns, SameTable, ValidGeometry, Wrote, Chunk, SectorAddress, BytesPerCluster, AllClusters, Coherent, Recent,
      IsChain, Searchable, Full, Tight;
    var g := part.geometry;
    HeldFacts(part, others, ch);
    NothingYet(part, others, ch, p);
    TightStart(g, ch, k, p, |src|);
    n, flag', pos', ch', k' := 0, flag, pos, ch, k;
    assert src[..0] == [];
    while |src| - n >= BytesPerCluster(g) && flag'
      invariant Held(part, others, ch') && (flag' ==> flag && Searchable(g, part.cache.view, part.firstFree))
      invariant flag && !flag' ==>
                  Full(g, part.cache.view) && n < |src| && pos'.sector == g.sectorsPerCluster && k' + 1 == |ch'|
      invariant 0 < n == |src| ==> pos'.sector == g.sectorsPerCluster
      invariant n <= |src| && PosAt(g, ch', pos', k', p + n) && k <= k' && p + n <= Chunk(g, |ch'|)
      invariant Wrote(g, old(part.cache.view), ch, part.cache.view, ch', p, src[..n])
      invariant n == 0 ==> pos' == pos && ch' == ch && k' == k
      invariant !flag ==> !flag' && part.cache.view == old(part.cache.view) && n == 0
      invariant n > 0 ==> pos'.byte == 0 && (pos'.sector == g.sectorsPerCluster || pos'.sector == 0)
      invariant Tight(g, ch, ch', k', p + n, |src| - n)
      decreases |src| - n, flag'
    {
      n, flag', pos', ch', k' := AnotherGroup(part, src, n, pos', old(part.cache.view), others, ch, ch', k', p);
    }
  }

  lemma TightStart(g: Geometry, ch: seq<nat>, k: nat, p: nat, left: nat)
    ensures Tight(g, ch, ch, k, p, left)
  {
  }

  method AnotherGroup(part: P.Partition, src: seq<byte>, n: nat, pos: FilePosition, ghost v0: seq<byte>,
                      ghost others: set<seq<nat>>, ghost ch0: seq<nat>, ghost ch: seq<nat>, ghost k: nat, ghost p: nat)
    returns (n': nat, flag: bool, pos': FilePosition, ghost ch': seq<nat>, ghost k': nat)
    requires Held(part, others, ch) && Searchable(part.geometry, part.cache.view, part.firstFree)
    requires n <= |src| && PosAt(part.geometry, ch, pos, k, p + n) && p + n <= Chunk(part.geometry, |ch|)
    requires pos.byte == 0 && (pos.sector == part.geometry.sectorsPerCluster || pos.sector == 0)
    requires |src| - n >= BytesPerCluster(part.geometry)
    requires Wrote(part.geometry, v0, ch0, part.cache.view, ch, p, src[..n])
    requires Tight(part.geometry, ch0, ch, k, p + n, |src| - n)
    modifies part, part.cache, part.cache.entries, part.cache.disc
    ensures Held(part, others, ch')
    ensures if flag then Searchable(part.geometry, part.cache.view, part.firstFree)
            else Full(part.geometry, part.cache.view)
    ensures n <= n' <= |src| && (flag ==> n' > n)
    ensures !flag ==> n' < |src| && pos'.sector == part.geometry.sectorsPerCluster && k' + 1 == |ch'|
    ensures n' == |src| ==> pos'.sector == part.geometry.sectorsPerCluster
    ensures PosAt(part.geometry, ch', pos', k', p + n') && k <= k' && p + n' <= Chunk(part.geometry, |ch'|)
    ensures n' == n ==> pos' == pos && ch' == ch && k' == k
    ensures pos'.byte == 0 && (pos'.sector == part.geometry.sectorsPerCluster || pos'.sector == 0)
    ensures Wrote(part.geometry, v0, ch0, part.cache.view, ch', p, src[..n'])
    ensures Tight(part.geometry, ch0, ch', k', p + n', |src| - n')
  {
    hide Owns, SameTable, ValidGeometry, Wrote, Chunk, SectorAddress, BytesPerCluster, AllClusters, Coherent, Recent,
      IsChain, Searchable, Full, Tight;
    var g := part.geometry;
    ghost var v := part.cache.view;
    var more;
    more, flag, pos', ch', k' := WriteOneGroup(part, src[n..], pos, others, ch, k, p + n);
    n' := n + more;
    assert src[n..][..more] == src[n..n'] && src[..n] + src[n..n'] == src[..n'];
    WroteThen(g, v0, ch0, v, ch, part.cache.view, ch', p, src[..n], src[n..n']);
    WroteBounds(g, v0, ch0, part.cache.view, ch', p, src[..n']);
    TightThen(g, v0, ch0, v, ch, part.cache.view, ch', k, k', p, p + n, p
        + n', |src| - n, |src| - n', src[..n], src[n..n']);
  }

  /** The whole sectors that are left over. */
  method WriteTailSectors(part: P.Partition, src: seq<byte>, pos: FilePosition, flag: bool,
                          ghost others: set<seq<nat>>, ghost ch: seq<nat>, ghost k: nat, ghost p: nat)
    returns (n: nat, pos': FilePosition)
    requires Held(part, others, ch) && PosAt(part.geometry, ch, pos, k, p) && p <= Chunk(part.geometry, |ch|)
    requires flag ==> |src| < BytesPerCluster(part.geometry)
    requires flag && |src| > 0 ==> pos.byte == 0 && pos.sector < part.geometry.sectorsPerCluster
    requires flag && |src| >= part.geometry.bytesPerSector ==> pos.sector == 0
    modifies part.cache, part.cache.entries, part.cache.disc
    ensures Held(part, others, ch) && SameTable(part.geometry, old(part.cache.view), part.cache.view)
    ensures n <= |src| && PosAt(part.geometry, ch, pos', k, p + n)
    ensures Wrote(part.geometry, old(part.cache.view), ch, part.cache.view, ch, p, src[..n])
    ensures if n > 0 then !AtStart(pos') else pos' == pos
    ensures !flag ==> n == 0
    ensures flag ==> |src| - n < part.geometry.bytesPerSector
    ensures flag && |src| > 0 ==> pos'.byte == 0 && pos'.sector < part.geometry.sectorsPerCluster
  {
    hide Owns, SameTable, ValidGeometry, Wrote, Chunk, SectorAddress, ClusterToSector, BytesPerCluster, AllClusters,
      Coherent, Recent, Splice, IsChain;
    var g := part.geometry;
    HeldFacts(part, others, ch);
    SectorsIn(g, |src|);
    SectorSpan(g, 0);
    var sectors := |src| / g.bytesPerSector;
    n, pos' := 0, pos;
    if sectors > 0 && flag {
      TailFits(g, |src|);
      n := SectorAddress(g, sectors);
      WholeSectors(part, src, sectors, pos, others, ch, k, p);
      pos' := pos.(sector := pos.sector + sectors);
    } else {
      NothingYet(part, others, ch, p);
      NoChange(part, others, ch);
      assert src[..0] == [];
    }
  }

  method WholeSectors(part: P.Partition, src: seq<byte>, n: nat, pos: FilePosition,
                      ghost others: set<seq<nat>>, ghost ch: seq<nat>, ghost k: nat, ghost p: nat)
    requires Held(part, others, ch) && PosAt(part.geometry, ch, pos, k, p)
    requires pos.sector + n <= part.geometry.sectorsPerCluster && pos.byte == 0
    requires SectorAddress(part.geometry, n) <= |src|
    modifies part.cache, part.cache.entries, part.cache.disc
    ensures Held(part, others, ch) && SameTable(part.geometry, old(part.cache.view), part.cache.view)
    ensures Wrote(part.geometry, old(part.cache.view), ch, part.cache.view, ch, p,
            src[..SectorAddress(part.geometry, n)])
  {
    hide Held, SameTable, Wrote, PosAt, SectorAddress;
    TakePrefix(src, SectorAddress(part.geometry, n));
    StoreSectors(part, Cache.Buffer(src), n, pos, others, ch, k, p);
  }

  lemma TailFits(g: Geometry, remain: nat)
    requires ValidGeometry(g) && remain < BytesPerCluster(g)
    ensures remain / g.bytesPerSector < g.sectorsPerCluster
    ensures SectorAddress(g, remain / g.bytesPerSector) <= remain
    ensures remain / g.bytesPerSector > 0 ==> SectorAddress(g, remain / g.bytesPerSector) > 0
  {
    TailSectors(g, remain);
    SectorsIn(g, remain);
    if remain / g.bytesPerSector > 0 { MulMonotone(1, remain / g.bytesPerSector, g.bytesPerSector); }
  }

  /** The start of the last sector. When the file ends here the rest of the sector is zeroed. */
  method WriteLast(part: P.Partition, src: seq<byte>, pos: FilePosition, flag: bool, appending: bool,
                   ghost others: set<seq<nat>>, ghost ch: seq<nat>, ghost k: nat, ghost p: nat)
    returns (n: nat, pos': FilePosition, ghost slack: nat)
    requires Held(part, others, ch) && PosAt(part.geometry, ch, pos, k, p) && p <= Chunk(part.geometry, |ch|)
    requires flag ==> |src| < part.geometry.bytesPerSector
    requires flag && |src| > 0 ==> pos.byte == 0 && pos.sector < part.geometry.sectorsPerCluster
    modifies part.cache, part.cache.entries, part.cache.disc
    ensures Held(part, others, ch) && SameTable(part.geometry, old(part.cache.view), part.cache.view)
    ensures n == (if flag then |src| else 0) && PosAt(part.geometry, ch, pos', k, p + n)
    ensures n == 0 ==> pos' == pos && slack == 0
    ensures n > 0 ==> pos'.sector < part.geometry.sectorsPerCluster && !AtStart(pos')
    ensures slack > 0 ==> appending
    ensures Wrote(part.geometry, old(part.cache.view), ch, part.cache.view, ch, p, src[..n] + Zeros(slack))
  {
    hide Owns, SameTable, ValidGeometry, Wrote, Chunk, SectorAddress, BytesPerCluster, AllClusters, Coherent, Recent,
      Splice, IsChain;
    n, pos', slack := 0, pos, 0;
    if |src| > 0 && flag {
      n := |src|;
      assert src[..n] == src && src + Zeros(0) == src;
      if appending {
        StoreErased(part, src, pos, others, ch, k, p);
        slack := part.geometry.bytesPerSector - |src|;
      } else {
        StorePart(part, src, pos, others, ch, k, p);
      }
      pos' := pos.(byte := pos.byte + n);
    } else {
      NothingYet(part, others, ch, p);
      NoChange(part, others, ch);
      assert src[..0] + Zeros(0) == [];
    }
  }

  /** Up to the first whole cluster. */
  method WriteFront(part: P.Partition, src: seq<byte>, pos: FilePosition,
                    ghost others: set<seq<nat>>, ghost ch: seq<nat>, ghost k: nat, ghost p: nat)
    returns (n: nat, flag: bool, pos': FilePosition, ghost ch': seq<nat>, ghost k': nat)
    requires Held(part, others, ch) && Searchable(part.geometry, part.cache.view, part.firstFree)
    requires PosAt(part.geometry, ch, pos, k, p) && p <= Chunk(part.geometry, |ch|) && |src| > 0
    requires pos.sector == part.geometry.sectorsPerCluster ==> pos.byte == 0
    modifies part, part.cache, part.cache.entries, part.cache.disc
    ensures Held(part, others, ch')
    ensures if flag then Searchable(part.geometry, part.cache.view, part.firstFree)
            else Full(part.geometry, part.cache.view)
    ensures n <= |src| && PosAt(part.geometry, ch', pos', k', p + n) && k <= k'
    ensures Wrote(part.geometry, old(part.cache.view), ch, part.cache.view, ch', p, src[..n])
    ensures !flag ==> n == 0 && pos'.sector == part.geometry.sectorsPerCluster && k' + 1 == |ch'|
    ensures n > 0 ==> !AtStart(pos')
    ensures pos'.sector == part.geometry.sectorsPerCluster ==> pos'.byte == 0
    ensures flag && n < |src| ==> pos'.byte == 0
    ensures flag && |src| - n >= part.geometry.bytesPerSector ==>
              pos'.sector == part.geometry.sectorsPerCluster
                  || (pos'.sector == 0 && |src| - n >= BytesPerCluster(part.geometry))
    ensures Tight(part.geometry, ch, ch', k', p + n, |src| - n)
  {
    hide Owns, SameTable, ValidGeometry, Wrote, Chunk, SectorAddress, BytesPerCluster, AllClusters, Coherent, Recent,
      IsChain, Searchable, Full;
    var g := part.geometry;
    ghost var v0 := part.cache.view;
    flag, pos', ch', k' := NextForWrite(part, pos, |src|, true, others, ch, k, p);
    ghost var v1 := part.cache.view;
    var a, b;
    a, pos' := WriteHead(part, src, pos', flag, others, ch', k', p);
    ghost var v2 := part.cache.view;
    TableKept(g, v1, v2, others, ch', part.firstFree);
    WroteAfterNothing(g, v0, ch, v1, ch', v2, ch', p, p, src[..a]);
    WroteBounds(g, v0, ch, v2, ch', p, src[..a]);
    b, pos' := WriteClusterHead(part, src[a..], pos', flag, others, ch', k', p + a);
    n := a + b;
    assert src[a..][..b] == src[a..n] && src[..a] + src[a..n] == src[..n];
    TableKept(g, v2, part.cache.view, others, ch', part.firstFree);
    WroteThen(g, v0, ch, v2, ch', part.cache.view, ch', p, src[..a], src[a..n]);
  }

  /** What is left after the whole clusters. */
  method WriteBack(part: P.Partition, src: seq<byte>, pos: FilePosition, flag: bool, appending: bool,
                   ghost others: set<seq<nat>>, ghost ch: seq<nat>, ghost k: nat, ghost p: nat)
    returns (n: nat, flag': bool, pos': FilePosition, ghost ch': seq<nat>, ghost k': nat, ghost slack: nat)
    requires Held(part, others, ch) && PosAt(part.geometry, ch, pos, k, p) && p <= Chunk(part.geometry, |ch|)
    requires if flag then Searchable(part.geometry, part.cache.view, part.firstFree)
             else Full(part.geometry, part.cache.view)
    requires pos.sector == part.geometry.sectorsPerCluster ==> pos.byte == 0
    requires flag ==> |src| < BytesPerCluster(part.geometry)
    requires flag && |src| > 0 ==> pos.byte == 0
    requires flag && |src| >= part.geometry.bytesPerSector ==>
               pos.sector == part.geometry.sectorsPerCluster || pos.sector == 0
    requires !flag ==> pos.sector == part.geometry.sectorsPerCluster && |src| > 0 && k + 1 == |ch|
    modifies part, part.cache, part.cache.entries, part.cache.disc
    ensures Held(part, others, ch')
    ensures if flag' then Searchable(part.geometry, part.cache.view, part.firstFree)
            else Full(part.geometry, part.cache.view)
    ensures n == (if flag' then |src| else 0)
    ensures !flag' ==> |src| > 0 && pos'.sector == part.geometry.sectorsPerCluster && k' + 1 == |ch'|
    ensures n > 0 ==> !AtStart(pos')
    ensures PosAt(part.geometry, ch', pos', k', p + n) && k <= k'
    ensures pos'.sector == part.geometry.sectorsPerCluster ==> pos'.byte == 0
    ensures slack > 0 ==> appending && flag' && n > 0
    ensures Wrote(part.geometry, old(part.cache.view), ch, part.cache.view, ch', p, src[..n] + Zeros(slack))
    ensures ch' == ch || (|ch'| == |ch| + 1 && k' == |ch| && flag' && |src| > 0)
    ensures !flag' || |src| == 0 ==> pos' == pos && k' == k
    ensures p >= Chunk(part.geometry, k')
  {
    hide Owns, SameTable, ValidGeometry, Wrote, Chunk, SectorAddress, BytesPerCluster, AllClusters, Coherent, Recent,
      IsChain, Searchable, Full;
    var g := part.geometry;
    ghost var v0 := part.cache.view;
    flag', pos', ch', k' := NextForWrite(part, pos, |src|, flag, others, ch, k, p);
    ghost var v1 := part.cache.view;
    n, pos', slack := WriteEnd(part, src, pos', flag', appending, others, ch', k', p);
    TableKept(g, v1, part.cache.view, others, ch', part.firstFree);
    WroteAfterNothing(g, v0, ch, v1, ch', part.cache.view, ch', p, p, src[..n] + Zeros(slack));
  }

  method WriteEnd(part: P.Partition, src: seq<byte>, pos: FilePosition, flag: bool, appending: bool,
                  ghost others: set<seq<nat>>, ghost ch: seq<nat>, ghost k: nat, ghost p: nat)
    returns (n: nat, pos': FilePosition, ghost slack: nat)
    requires Held(part, others, ch) && PosAt(part.geometry, ch, pos, k, p) && p <= Chunk(part.geometry, |ch|)
    requires flag ==> |src| < BytesPerCluster(part.geometry)
    requires flag && |src| > 0 ==> pos.byte == 0 && pos.sector < part.geometry.sectorsPerCluster
    requires flag && |src| >= part.geometry.bytesPerSector ==> pos.sector == 0
    modifies part.cache, part.cache.entries, part.cache.disc
    ensures Held(part, others, ch) && SameTable(part.geometry, old(part.cache.view), part.cache.view)
    ensures n == (if flag then |src| else 0) && PosAt(part.geometry, ch, pos', k, p + n)
    ensures n == 0 ==> pos' == pos && slack == 0
    ensures n > 0 ==> pos'.sector < part.geometry.sectorsPerCluster && !AtStart(pos')
    ensures slack > 0 ==> appending
    ensures Wrote(part.geometry, old(part.cache.view), ch, part.cache.view, ch, p, src[..n] + Zeros(slack))
  {
    hide Owns, ValidGeometry, Wrote, Chunk, SectorAddress, BytesPerCluster, AllClusters, Coherent, Recent, IsChain,
      Table;
    var g := part.geometry;
    ghost var v0 := part.cache.view;
    var a, b;
    a, pos' := WriteTailSectors(part, src, pos, flag, others, ch, k, p);
    ghost var v1 := part.cache.view;
    WroteBounds(g, v0, ch, v1, ch, p, src[..a]);
    b, pos', slack := WriteLast(part, src[a..], pos', flag, appending, others, ch, k, p + a);
    n := a + b;
    assert src[..a] + (src[a..][..b] + Zeros(slack)) == src[..n] + Zeros(slack);
    WroteThen(g, v0, ch, v1, ch, part.cache.view, ch, p, src[..a], src[a..][..b] + Zeros(slack));
  }

  /** A whole transfer: as much of `src` as there is room for goes to the file from position `p`
      on. If it is not all of it, the chain is full and no cluster is free any more. A transfer that ends
      between two clusters always leaves the position at the end of the first. */
  method Transfer(part: P.Partition, src: seq<byte>, pos: FilePosition, appending: bool,
                  ghost others: set<seq<nat>>, ghost ch: seq<nat>, ghost k: nat, ghost p: nat)
    returns (n: nat, pos': FilePosition, ghost ch': seq<nat>, ghost k': nat, ghost slack: nat)
    requires Held(part, others, ch) && Searchable(part.geometry, part.cache.view, part.firstFree)
    requires PosAt(part.geometry, ch, pos, k, p) && p <= Chunk(part.geometry, |ch|) && |src| > 0
    requires pos.sector == part.geometry.sectorsPerCluster ==> pos.byte == 0
    modifies part, part.cache, part.cache.entries, part.cache.disc
    ensures Held(part, others, ch')
    ensures n <= |src|
    ensures n == |src| ==> Searchable(part.geometry, part.cache.view, part.firstFree)
    ensures n < |src| ==> Full(part.geometry, part.cache.view) && p + n == Chunk(part.geometry, |ch'|)
    ensures n > 0 ==> !AtStart(pos')
    ensures PosAt(part.geometry, ch', pos', k', p + n)
    ensures pos'.sector == part.geometry.sectorsPerCluster ==> pos'.byte == 0
    ensures slack > 0 ==> appending && n == |src|
    ensures Wrote(part.geometry, old(part.cache.view), ch, part.cache.view, ch', p, src[..n] + Zeros(slack))
    ensures |ch'| == |ch| || (|ch'| == k' + 1 && p + n > Chunk(part.geometry, k'))
  {
    hide Owns, SameTable, ValidGeometry, Wrote, Chunk, SectorAddress, BytesPerCluster, AllClusters, Coherent, Recent,
      IsChain, Searchable, Full, Tight;
    var g := part.geometry;
    ghost var v0 := part.cache.view;
    var a, b, c, flag;
    a, flag, pos', ch', k' := WriteFront(part, src, pos, others, ch, k, p);
    ghost var v1, ch1, k1 := part.cache.view, ch', k';
    WroteBounds(g, v0, ch, v1, ch1, p, src[..a]);
    HeldFacts(part, others, ch1);
    b, flag, pos', ch', k' := WriteClusters(part, src[a..], pos', flag, others, ch1, k1, p + a);
    ghost var v2, ch2, k2 := part.cache.view, ch', k';
    JoinFront(g, v0, ch, v1, ch1, v2, ch2, k1, k2, p, src, a, b);
    WroteBounds(g, v0, ch, v2, ch2, p, src[..a + b]);
    c, flag, pos', ch', k', slack := WriteBack(part, src[a + b..], pos', flag, appending, others, ch2, k2, p + (a + b));
    n := a + b + c;
    JoinBack(g, v0, ch, v2, ch2, part.cache.view, ch', p, src, a + b, c, slack);
    TightEnd(g, ch, ch2, ch', k2, k', p, a + b, n, |src|, pos');
    if n < |src| { EdgeMeansNext(g, pos', k', p + n); }
  }
}
