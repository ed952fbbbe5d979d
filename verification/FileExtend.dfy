/** Growing a file with zeros up to a position past its end (_FAT_file_extend,
    modules/libfat/fatfile.c). */
module FileExtend {
  import opened Arith
  import opened Bytes
  import opened CachePages
  import opened CacheRecency
  import opened FatTable
  import opened Chains
  import opened DataRegion
  import opened FileModel
  import opened WriteModel
  import opened FileWrite
  import Cache
  import P = Partition

  /** The chain has no cluster that a file of this size does not need. */
  ghost predicate Snug(g: Geometry, ch: seq<nat>, size: nat) {
    |ch| <= 1 || Chunk(g, |ch| - 1) < size
  }

  /** A chain has grown at most as far as its first `p` bytes need. */
  ghost predicate AsNeeded(g: Geometry, ch: seq<nat>, ch': seq<nat>, p: int) {
    |ch'| == |ch| || (|ch'| > 0 && Chunk(g, |ch'| - 1) < p)
  }

  /** Where the end of a file is in its last cluster. At the end of a full cluster this is the
      start of that cluster, to be replaced by a new one. */
  function EndPosition(g: Geometry, last: nat, size: nat): FilePosition
    requires BytesPerCluster(g) > 0 && g.bytesPerSector > 0
  {
    FilePosition(last, size % BytesPerCluster(g) / g.bytesPerSector, size % g.bytesPerSector)
  }

  /** A size split into clusters, sectors and bytes. */
  lemma SplitSize(g: Geometry, size: nat)
    requires g.sectorsPerCluster > 0 && g.bytesPerSector > 0
    ensures BytesPerCluster(g) > 0
    ensures SplitAs(g, size, size / BytesPerCluster(g), size % BytesPerCluster(g) / g.bytesPerSector,
            size % g.bytesPerSector)
    ensures size % BytesPerCluster(g) == 0 <==>
              size % BytesPerCluster(g) / g.bytesPerSector == 0 && size % g.bytesPerSector == 0
  {
    SplitNumber(size, g.sectorsPerCluster, g.bytesPerSector);
    hide SplitAs;
    SplitHolds(g, size, size / BytesPerCluster(g), size % BytesPerCluster(g) / g.bytesPerSector,
        size % g.bytesPerSector);
  }

  lemma SplitHolds(g: Geometry, size: nat, k: nat, s: nat, b: nat)
    requires s < g.sectorsPerCluster && b < g.bytesPerSector
    requires size == k * BytesPerCluster(g) + s * g.bytesPerSector + b && s * g.bytesPerSector + b < BytesPerCluster(g)
    ensures SplitAs(g, size, k, s, b)
  {
    ChunkStep(g, k);
  }

  /** `size` is `k` whole clusters, `sector` whole sectors and `byteOffset` bytes. */
  ghost predicate SplitAs(g: Geometry, size: nat, k: nat, sector: nat, byteOffset: nat) {
    && sector < g.sectorsPerCluster && byteOffset < g.bytesPerSector
    && size == Chunk(g, k) + SectorAddress(g, sector) + byteOffset
    && size < Chunk(g, k + 1)
    && (sector == 0 && byteOffset == 0 ==> size == Chunk(g, k))
  }

  lemma SplitNumber(size: nat, spc: nat, bps: nat)
    requires spc > 0 && bps > 0
    ensures spc * bps > 0
    ensures var k, s, b := size / (spc * bps), size % (spc * bps) / bps, size % bps;
            && s < spc && b < bps && size == k * (spc * bps) + s * bps + b
            && (size % (spc * bps) == 0 <==> s == 0 && b == 0)
            && s * bps + b < spc * bps
  {
    MulMonotone(1, spc, bps);
    var k, r := size / (spc * bps), size % (spc * bps);
    assert size == k * (spc * bps) + r;
    SplitRemainder(size, k, r, spc, bps);
  }

  lemma SplitRemainder(size: nat, k: nat, r: nat, spc: nat, bps: nat)
    requires spc > 0 && bps > 0 && size == k * (spc * bps) + r && r < spc * bps
    ensures r / bps < spc && r == r / bps * bps + size % bps && (r == 0 <==> r / bps == 0 && size % bps == 0)
  {
    var s, b := r / bps, r % bps;
    assert r == s * bps + b;
    if s >= spc { MulMonotone(spc, s, bps); }
    assert k * (spc * bps) == k * spc * bps;
    Distribute(k * spc, s, bps);
    DivModUnique(size, bps, k * spc + s, b);
  }

  /** Where that is in a chain of `n` clusters: as far into the last one as the end of the file is into its own, or
      behind the last one if the file fills its clusters. */
  function EndIn(g: Geometry, n: nat, size: nat): nat {
    if BytesPerCluster(g) == 0 || n == 0 then 0
    else if size > 0 && size % BytesPerCluster(g) == 0 then Chunk(g, n)
    else Chunk(g, n - 1) + size % BytesPerCluster(g)
  }

  /** `pos` is the place of position `p` in the last cluster, or if `p` is the end of the chain its start. */
  ghost predicate EndAt(g: Geometry, ch: seq<nat>, pos: FilePosition, size: nat, p: nat) {
    if size > 0 && pos.sector == 0 && pos.byte == 0 then p == Chunk(g, |ch|)
    else |ch| > 0 && PosAt(g, ch, pos, |ch| - 1, p) && pos.sector < g.sectorsPerCluster
  }

  /** The computed place is that of the end of the file exactly if the chain has no superfluous clusters. In any case it
      is in the last cluster or behind it, and not before the end of the file. */
  lemma EndPlace(g: Geometry, ch: seq<nat>, size: nat)
    requires ValidGeometry(g) && |ch| > 0 && size <= Chunk(g, |ch|)
    ensures BytesPerCluster(g) > 0 && g.bytesPerSector > 0
    ensures EndAt(g, ch, EndPosition(g, ch[|ch| - 1], size), size, EndIn(g, |ch|, size))
    ensures EndAt(g, ch, EndPosition(g, ch[|ch| - 1], size), size, size) <==> Snug(g, ch, size)
    ensures size <= EndIn(g, |ch|, size) <= Chunk(g, |ch|)
    ensures EndIn(g, |ch|, size) == size <==> Snug(g, ch, size)
  {
    hide BytesPerCluster, Chunk;
    ClusterSizes(g);
    SplitSize(g, size);
    var k := size / BytesPerCluster(g);
    RestOfSize(g, size);
    ChunkStep(g, 0);
    ChunkStep(g, |ch| - 1);
    if k < |ch| - 1 { ChunkMonotone(g, k + 1, |ch| - 1); }
    if k > |ch| { ChunkMonotone(g, |ch|, k); }
  }

  /** The end of the chain's bytes moves with the end of the file. */
  lemma EndMoves(g: Geometry, n: nat, n': nat, size: nat, m: nat)
    requires ValidGeometry(g) && 0 < n <= n' && size <= Chunk(g, n) && m > 0
    requires EndIn(g, n, size) + m <= Chunk(g, n')
    requires n' == n || Chunk(g, n' - 1) < EndIn(g, n, size) + m
    ensures EndIn(g, n', size + m) == EndIn(g, n, size) + m
  {
    hide Chunk;
    ClusterSizes(g);
    hide BytesPerCluster;
    var bpc, end, k := BytesPerCluster(g), EndIn(g, n, size), size / BytesPerCluster(g);
    assert size == k * bpc + size % bpc;
    ChunkStep(g, n - 1);
    ChunkStep(g, n' - 1);
    var r := end + m - Chunk(g, n' - 1);
    ChunkTimes(g, n);
    ChunkTimes(g, n - 1);
    ChunkTimes(g, n' - 1);
    var q := if size > 0 && size % bpc == 0 then n else n - 1;
    assert end == q * bpc + size % bpc;
    assert size + m == (k + (n' - 1) - q) * bpc + r by {
      Distribute(k, n' - 1, bpc);
      Distribute(k + (n' - 1) - q, q, bpc);
    }
    if r == bpc {
      Distribute(k + (n' - 1) - q, 1, bpc);
      DivModUnique(size + m, bpc, k + n' - q, 0);
    } else {
      DivModUnique(size + m, bpc, k + (n' - 1) - q, r);
    }
  }

  lemma ChunkTimes(g: Geometry, n: nat)
    ensures Chunk(g, n) == n * BytesPerCluster(g)
  {
  }

  lemma RestOfSize(g: Geometry, size: nat)
    requires BytesPerCluster(g) > 0 && g.bytesPerSector > 0 && g.sectorsPerCluster > 0
    ensures size == Chunk(g, size / BytesPerCluster(g)) + size % BytesPerCluster(g)
    ensures size % BytesPerCluster(g)
         == SectorAddress(g, size % BytesPerCluster(g) / g.bytesPerSector)
            + size % g.bytesPerSector < BytesPerCluster(g)
  {
    hide SplitAs;
    SplitNumber(size, g.sectorsPerCluster, g.bytesPerSector);
    assert size == size / BytesPerCluster(g) * BytesPerCluster(g) + size % BytesPerCluster(g);
  }

  /** One sector of zeros at the end of the file, in a new cluster if the last one is full. */
  method ZeroSector(part: P.Partition, pos: FilePosition, ghost others: set<seq<nat>>, ghost ch: seq<nat>, ghost p: nat)
    returns (ok: bool, pos': FilePosition, ghost ch': seq<nat>)
    requires Held(part, others, ch) && Searchable(part.geometry, part.cache.view, part.firstFree)
    requires |ch| > 0 && PosAt(part.geometry, ch, pos, |ch| - 1, p) && pos.byte == 0 && p <= Chunk(part.geometry, |ch|)
    modifies part, part.cache, part.cache.entries, part.cache.disc
    ensures Held(part, others, ch')
    ensures if ok then Searchable(part.geometry, part.cache.view, part.firstFree)
            else Full(part.geometry, part.cache.view)
    ensures !ok ==> ch' == ch && p == Chunk(part.geometry, |ch|)
                    && Wrote(part.geometry, old(part.cache.view), ch, part.cache.view, ch, p, [])
    ensures ok ==>
              && |ch'| > 0 && PosAt(part.geometry, ch', pos', |ch'| - 1, p + part.geometry.bytesPerSector)
              && pos'.byte == 0 && p + part.geometry.bytesPerSector <= Chunk(part.geometry, |ch'|)
              && (|ch'| == |ch| || (|ch'| == |ch| + 1 && p == Chunk(part.geometry, |ch|)))
              && Wrote(part.geometry, old(part.cache.view), ch, part.cache.view, ch', p,
                 Zeros(part.geometry.bytesPerSector))
  {
    hide Owns, SameTable, ValidGeometry, Wrote, Chunk, SectorAddress, ClusterToSector, BytesPerCluster, AllClusters,
      Coherent, Recent, IsChain, Searchable, Full;
    ghost var g, v0 := part.geometry, part.cache.view;
    HeldFacts(part, others, ch);
    ok, pos', ch' := true, pos, ch;
    NothingYet(part, others, ch, p);
    SectorSpan(g, 0);
    if pos.sector >= part.geometry.sectorsPerCluster {
      EdgeMeansNext(g, pos, |ch| - 1, p);
      var next;
      ok, next, ch' := Extend(part, pos.cluster, others, ch, p);
      if !ok { return; }
      pos' := FilePosition(next, 0, 0);
      HeldFacts(part, others, ch');
    }
    ghost var v1 := part.cache.view;
    ZeroFrom(part, pos', others, ch', p);
    TableKept(g, v1, part.cache.view, others, ch', part.firstFree);
    WroteAfterNothing(g, v0, ch, v1, ch', part.cache.view, ch', p, p, Zeros(g.bytesPerSector));
    WroteBounds(g, v0, ch, part.cache.view, ch', p, Zeros(g.bytesPerSector));
    SectorAdd(g, pos'.sector, 1);
    pos' := pos'.(sector := pos'.sector + 1);
  }

  method ZeroFrom(part: P.Partition, pos: FilePosition, ghost others: set<seq<nat>>, ghost ch: seq<nat>, ghost p: nat)
    requires Held(part, others, ch) && |ch| > 0 && PosAt(part.geometry, ch, pos, |ch| - 1, p)
    requires pos.byte == 0 && pos.sector < part.geometry.sectorsPerCluster
    modifies part.cache, part.cache.entries, part.cache.disc
    ensures Held(part, others, ch) && SameTable(part.geometry, old(part.cache.view), part.cache.view)
    ensures Wrote(part.geometry, old(part.cache.view), ch, part.cache.view, ch, p, Zeros(part.geometry.bytesPerSector))
  {
    hide Held, SameTable, Wrote, PosAt;
    SectorAdd(part.geometry, 0, 1);
    assert Cache.Taken(Cache.Null, 0, SectorAddress(part.geometry, 1)) == Zeros(part.geometry.bytesPerSector);
    assert Cache.Supplies(Cache.Null, SectorAddress(part.geometry, 1));
    StoreSectors(part, Cache.Null, 1, pos, others, ch, |ch| - 1, p);
  }

  lemma ZerosAppend(n: nat, m: nat)
    ensures Zeros(n) + Zeros(m) == Zeros(n + m)
  {
  }

  /** Whole sectors of zeros. */
  method ZeroSectors(part: P.Partition, pos: FilePosition, remain: nat, ghost others: set<seq<nat>>,
                     ghost ch: seq<nat>, ghost p: nat)
    returns (ok: bool, pos': FilePosition, left: nat, ghost ch': seq<nat>)
    requires Held(part, others, ch) && Searchable(part.geometry, part.cache.view, part.firstFree)
    requires |ch| > 0 && PosAt(part.geometry, ch, pos, |ch| - 1, p) && p <= Chunk(part.geometry, |ch|)
    requires remain > 0 ==> pos.byte == 0
    modifies part, part.cache, part.cache.entries, part.cache.disc
    ensures Held(part, others, ch') && left <= remain && |ch'| > 0
    ensures if ok then Searchable(part.geometry, part.cache.view, part.firstFree)
            else Full(part.geometry, part.cache.view)
    ensures !ok ==> left > 0 && p + (remain - left) == Chunk(part.geometry, |ch'|)
    ensures ok ==>
              left < part.geometry.bytesPerSector && PosAt(part.geometry, ch', pos', |ch'| - 1, p + (remain - left))
                   && (pos.byte == 0 ==> pos'.byte == 0) && (remain == 0 ==> pos' == pos)
    ensures p + (remain - left) <= Chunk(part.geometry, |ch'|)
    ensures |ch'| == |ch| || (|ch'| > |ch| && Chunk(part.geometry, |ch'| - 1) < p + (remain - left))
    ensures Wrote(part.geometry, old(part.cache.view), ch, part.cache.view, ch', p, Zeros(remain - left))
  {
    hide Owns, SameTable, ValidGeometry, Wrote, Chunk, SectorAddress, ClusterToSector, BytesPerCluster, AllClusters,
      Coherent, Recent, IsChain, Searchable, Full;
    var g := part.geometry;
    ghost var v0 := part.cache.view;
    HeldFacts(part, others, ch);
    ok, pos', left, ch' := true, pos, remain, ch;
    NothingYet(part, others, ch, p);
    while left >= g.bytesPerSector
      invariant Held(part, others, ch') && Searchable(g, part.cache.view, part.firstFree) && ok
      invariant left <= remain && |ch'| > 0 && PosAt(g, ch', pos', |ch'| - 1, p + (remain - left))
      invariant remain > 0 ==> pos'.byte == 0
      invariant remain == 0 ==> pos' == pos
      invariant p + (remain - left) <= Chunk(g, |ch'|)
      invariant |ch'| == |ch| || (|ch'| > |ch| && Chunk(g, |ch'| - 1) < p + (remain - left))
      invariant Wrote(g, v0, ch, part.cache.view, ch', p, Zeros(remain - left))
      decreases left
    {
      ghost var v1, ch1, q := part.cache.view, ch', p + (remain - left);
      ok, pos', ch' := ZeroSector(part, pos', others, ch1, q);
      if !ok {
        WroteAfterNothingAt(g, v0, ch, v1, ch1, part.cache.view, p, Zeros(remain - left));
        return;
      }
      ZerosAppend(remain - left, g.bytesPerSector);
      WroteThen(g, v0, ch, v1, ch1, part.cache.view, ch', p, Zeros(remain - left), Zeros(g.bytesPerSector));
      left := left - g.bytesPerSector;
    }
  }

  lemma WroteAfterNothingAt(g: Geometry, v0: seq<byte>, ch0: seq<nat>, v1: seq<byte>, ch: seq<nat>, v2: seq<byte>,
                            p: nat, data: seq<byte>)
    requires Wrote(g, v0, ch0, v1, ch, p, data) && Wrote(g, v1, ch, v2, ch, p + |data|, [])
    ensures Wrote(g, v0, ch0, v2, ch, p, data)
  {
    hide Wrote;
    WroteThen(g, v0, ch0, v1, ch, v2, ch, p, data, []);
    assert data + [] == data;
  }

  /** The zeros that do not fill a sector. */
  method ZeroTail(part: P.Partition, pos: FilePosition, remain: nat, ghost others: set<seq<nat>>, ghost ch: seq<nat>,
                  ghost p: nat)
    returns (ok: bool, pos': FilePosition, ghost ch': seq<nat>, ghost k': nat)
    requires Held(part, others, ch) && Searchable(part.geometry, part.cache.view, part.firstFree)
    requires |ch| > 0 && PosAt(part.geometry, ch, pos, |ch| - 1, p) && p <= Chunk(part.geometry, |ch|)
    requires remain < part.geometry.bytesPerSector && pos.byte == 0
    modifies part, part.cache, part.cache.entries, part.cache.disc
    ensures Held(part, others, ch')
    ensures if ok then Searchable(part.geometry, part.cache.view, part.firstFree)
            else Full(part.geometry, part.cache.view)
    ensures !ok ==> remain > 0 && ch' == ch && p == Chunk(part.geometry, |ch|)
                    && Wrote(part.geometry, old(part.cache.view), ch, part.cache.view, ch, p, [])
    ensures ok ==>
              && PosAt(part.geometry, ch', pos', k', p + remain)
              && (pos'.sector == part.geometry.sectorsPerCluster ==> pos'.byte == 0)
              && (|ch'| == |ch| || (|ch'| == |ch| + 1 && remain > 0 && p == Chunk(part.geometry, |ch|)))
              && Wrote(part.geometry, old(part.cache.view), ch, part.cache.view, ch', p, Zeros(remain))
  {
    hide Owns, SameTable, ValidGeometry, Wrote, Chunk, SectorAddress, ClusterToSector, BytesPerCluster, AllClusters,
      Coherent, Recent, IsChain, Searchable, Full;
    ghost var g, v0 := part.geometry, part.cache.view;
    if pos.sector == part.geometry.sectorsPerCluster {
      HeldFacts(part, others, ch);
      EdgeMeansNext(g, pos, |ch| - 1, p);
    }
    ok, pos', ch', k' := NextForWrite(part, pos, remain, true, others, ch, |ch| - 1, p);
    if ok {
      ghost var v1 := part.cache.view;
      if remain > 0 {
        StoreZeros(part, remain, pos', others, ch', k', p);
        TableKept(g, v1, part.cache.view, others, ch', part.firstFree);
        WroteAfterNothing(g, v0, ch, v1, ch', part.cache.view, ch', p, p, Zeros(remain));
        pos' := pos'.(byte := remain);
      }
    }
  }

  /** Zeros from a position in the last cluster on. */
  method ZeroAll(part: P.Partition, pos: FilePosition, remain: nat, ghost others: set<seq<nat>>, ghost ch: seq<nat>,
                 ghost p: nat)
    returns (ok: bool, pos': FilePosition, ghost ch': seq<nat>, ghost k': nat, ghost written: nat)
    requires Held(part, others, ch) && Searchable(part.geometry, part.cache.view, part.firstFree)
    requires |ch| > 0 && PosAt(part.geometry, ch, pos, |ch| - 1, p) && p <= Chunk(part.geometry, |ch|)
    requires pos.sector < part.geometry.sectorsPerCluster && remain > 0
    modifies part, part.cache, part.cache.entries, part.cache.disc
    ensures Held(part, others, ch')
    ensures if ok then Searchable(part.geometry, part.cache.view, part.firstFree)
            else Full(part.geometry, part.cache.view)
    ensures !ok ==> written < remain && |ch'| > 0 && p + written == Chunk(part.geometry, |ch'|)
    ensures ok ==> written == remain && PosAt(part.geometry, ch', pos', k', p + remain)
                   && (pos'.sector == part.geometry.sectorsPerCluster ==> pos'.byte == 0)
    ensures p + written <= Chunk(part.geometry, |ch'|)
    ensures |ch'| == |ch| || (|ch'| > |ch| && Chunk(part.geometry, |ch'| - 1) < p + written)
    ensures Wrote(part.geometry, old(part.cache.view), ch, part.cache.view, ch', p, Zeros(written))
  {
    hide Owns, SameTable, ValidGeometry, Wrote, Chunk, SectorAddress, ClusterToSector, BytesPerCluster, AllClusters,
      Coherent, Recent, IsChain, Searchable, Full;
    var g := part.geometry;
    ghost var v0 := part.cache.view;
    HeldFacts(part, others, ch);
    var head := if remain + pos.byte < g.bytesPerSector then remain
        else if pos.byte > 0 then g.bytesPerSector - pos.byte else 0;
    pos' := ZeroHead(part, pos, head, others, ch, p);
    ghost var v1 := part.cache.view;
    TableKept(g, v0, v1, others, ch, part.firstFree);
    WroteBounds(g, v0, ch, v1, ch, p, Zeros(head));
    var left;
    ghost var ch1;
    ok, pos', left, ch1 := ZeroSectors(part, pos', remain - head, others, ch, p + head);
    ghost var v2, done := part.cache.view, remain - head - left;
    ch', k', written := ch1, 0, head + done;
    ZerosAppend(head, done);
    WroteThen(g, v0, ch, v1, ch, v2, ch1, p, Zeros(head), Zeros(done));
    if !ok { return; }
    if remain + pos.byte < g.bytesPerSector {
      k' := |ch1| - 1;
      return;
    }
    ok, pos', ch', k' := ZeroTail(part, pos', left, others, ch1, p + written);
    if !ok {
      WroteAfterNothingAt(g, v0, ch, v2, ch1, part.cache.view, p, Zeros(written));
    } else {
      ZerosAppend(written, left);
      WroteThen(g, v0, ch, v2, ch1, part.cache.view, ch', p, Zeros(written), Zeros(left));
      written := remain;
      WroteBounds(g, v0, ch, part.cache.view, ch', p, Zeros(written));
    }
  }

  /** Zeros inside one sector. */
  method ZeroHead(part: P.Partition, pos: FilePosition, n: nat, ghost others: set<seq<nat>>, ghost ch: seq<nat>,
                  ghost p: nat)
    returns (pos': FilePosition)
    requires Held(part, others, ch) && |ch| > 0 && PosAt(part.geometry, ch, pos, |ch| - 1, p)
             && p <= Chunk(part.geometry, |ch|)
    requires pos.sector < part.geometry.sectorsPerCluster && pos.byte + n <= part.geometry.bytesPerSector
    modifies part.cache, part.cache.entries, part.cache.disc
    ensures Held(part, others, ch) && SameTable(part.geometry, old(part.cache.view), part.cache.view)
    ensures Wrote(part.geometry, old(part.cache.view), ch, part.cache.view, ch, p, Zeros(n))
    ensures PosAt(part.geometry, ch, pos', |ch| - 1, p + n)
    ensures pos.byte + n < part.geometry.bytesPerSector ==> pos' == pos.(byte := pos.byte + n)
    ensures pos.byte + n == part.geometry.bytesPerSector ==> pos'.byte == 0
  {
    hide Owns, SameTable, ValidGeometry, Wrote, Chunk, SectorAddress, ClusterToSector, BytesPerCluster, AllClusters,
      Coherent, Recent, IsChain;
    if n > 0 {
      StoreZeros(part, n, pos, others, ch, |ch| - 1, p);
    } else {
      NothingYet(part, others, ch, p);
      NoChange(part, others, ch);
    }
    SectorAdd(part.geometry, pos.sector, 1);
    pos' := pos.(byte := pos.byte + n);
    if pos'.byte >= part.geometry.bytesPerSector {
      pos' := pos.(byte := 0, sector := pos.sector + 1);
    }
  }

  lemma StartInUse(part: P.Partition, others: set<seq<nat>>, ch: seq<nat>)
    requires Held(part, others, ch) && |ch| > 0
    ensures IsCluster(part.geometry, ch[0]) && ch[0] in ch
  {
    HeldFacts(part, others, ch);
  }

  /** Where the first new byte goes: a new cluster if the file ends on a cluster edge. */
  method EndOfFile(part: P.Partition, start: nat, size: nat, ghost others: set<seq<nat>>, ghost ch: seq<nat>)
    returns (ok: bool, pos: FilePosition, ghost ch': seq<nat>)
    requires Held(part, others, ch) && Searchable(part.geometry, part.cache.view, part.firstFree)
    requires |ch| > 0 && start == ch[0] && size <= Chunk(part.geometry, |ch|)
    modifies part, part.cache, part.cache.entries, part.cache.disc
    ensures Held(part, others, ch')
    ensures if ok then Searchable(part.geometry, part.cache.view, part.firstFree)
            else Full(part.geometry, part.cache.view)
    ensures var end := EndIn(part.geometry, |ch|, size);
            && size <= end <= Chunk(part.geometry, |ch'|) && (end == size <==> Snug(part.geometry, ch, size))
            && (!ok ==> ch' == ch && end == Chunk(part.geometry, |ch|))
            && (ok ==> |ch'| > 0 && PosAt(part.geometry, ch', pos, |ch'| - 1, end)
                       && pos.sector < part.geometry.sectorsPerCluster
                       && (|ch'| == |ch| || (|ch'| == |ch| + 1 && end == Chunk(part.geometry, |ch|))))
            && Wrote(part.geometry, old(part.cache.view), ch, part.cache.view, ch', end, [])
  {
    hide Owns, SameTable, ValidGeometry, Wrote, Chunk, SectorAddress, ClusterToSector, BytesPerCluster, AllClusters,
      Coherent, Recent, IsChain, Searchable, Full, Table, Snug;
    var g := part.geometry;
    HeldFacts(part, others, ch);
    EndPlace(g, ch, size);
    ghost var end := EndIn(g, |ch|, size);
    NothingYet(part, others, ch, end);
    StartInUse(part, others, ch);
    var last := part.LastCluster(start, ch);
    ok, pos, ch' := true, EndPosition(g, last, size), ch;
    if size > 0 && pos.sector == 0 && pos.byte == 0 {
      var next;
      ok, next, ch' := Extend(part, pos.cluster, others, ch, end);
      pos := pos.(cluster := next, sector := 0);
      SectorSpan(g, 0);
    }
  }

  lemma LastChunk(part: P.Partition, others: set<seq<nat>>, ch: seq<nat>)
    requires Held(part, others, ch) && |ch| > 0
    ensures Chunk(part.geometry, |ch| - 1) < Chunk(part.geometry, |ch|)
  {
    hide Owns, ValidGeometry, Coherent, Recent, IsChain, BytesPerCluster, Chunk;
    HeldFacts(part, others, ch);
    ClusterSizes(part.geometry);
    ChunkStep(part.geometry, |ch| - 1);
  }

  /** Grows a file of `size` bytes to `target` bytes: as many zeros as it grows by are stored from the computed end on,
      the other bytes stay, and the position is where the zeros end. With no superfluous clusters that is the end of the
      file, before and after. It fails exactly when the clusters run out. */
  method ExtendTo(part: P.Partition, start: nat, size: nat, target: nat, ghost others: set<seq<nat>>,
                  ghost ch: seq<nat>)
    returns (ok: bool, pos: FilePosition, ghost ch': seq<nat>, ghost k: nat, ghost written: nat)
    requires Held(part, others, ch) && Searchable(part.geometry, part.cache.view, part.firstFree)
    requires |ch| > 0 && start == ch[0] && size <= Chunk(part.geometry, |ch|)
    requires size < target
    modifies part, part.cache, part.cache.entries, part.cache.disc
    ensures Held(part, others, ch') && |ch'| > 0 && ch <= ch'
    ensures if ok then Searchable(part.geometry, part.cache.view, part.firstFree)
            else Full(part.geometry, part.cache.view)
    ensures size + written <= target
    ensures var end := EndIn(part.geometry, |ch|, size);
            && size <= end && end + written <= Chunk(part.geometry, |ch'|)
               && (end == size <==> Snug(part.geometry, ch, size))
            && (if ok then size + written == target
               else end + written == Chunk(part.geometry, |ch'|) < end + (target - size))
            && (ok ==> PosAt(part.geometry, ch', pos, k, end + written)
                       && (pos.sector == part.geometry.sectorsPerCluster ==> pos.byte == 0))
            && AsNeeded(part.geometry, ch, ch', end + written)
            && Wrote(part.geometry, old(part.cache.view), ch, part.cache.view, ch', end, Zeros(written))
  {
    hide Owns, SameTable, ValidGeometry, Wrote, Chunk, SectorAddress, ClusterToSector, BytesPerCluster, AllClusters,
      Coherent, Recent, IsChain, Searchable, Full, Table;
    ghost var g, v0 := part.geometry, part.cache.view;
    HeldFacts(part, others, ch);
    ok, pos, ch' := EndOfFile(part, start, size, others, ch);
    k, written := 0, 0;
    ghost var end := EndIn(g, |ch|, size);
    WroteBounds(g, v0, ch, part.cache.view, ch', end, []);
    if ok {
      ghost var v1, ch1 := part.cache.view, ch';
      ok, pos, ch', k, written := ZeroAll(part, pos, target - size, others, ch1, end);
      WroteAfterNothing(g, v0, ch, v1, ch1, part.cache.view, ch', end, end, Zeros(written));
      WroteBounds(g, v0, ch, part.cache.view, ch', end, Zeros(written));
      LastChunk(part, others, ch');
    }
  }
}
