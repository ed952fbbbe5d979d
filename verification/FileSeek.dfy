/** Finding the cluster, sector and byte of a position (FAT_seek, modules/libfat/fatfile.c). */
module FileSeek {
  import opened Arith
  import opened CachePages
  import opened CacheRecency
  import opened FatTable
  import opened Chains
  import opened DataRegion
  import opened FileModel
  import opened FileRead
  import opened FileExtend
  import P = Partition

  const INT_LIMIT: int := 0x8000_0000
  const WORD: int := 0x1_0000_0000

  /** A number as a signed 32-bit word holds it. */
  function Signed(n: int): (r: int)
    ensures -INT_LIMIT <= r < INT_LIMIT
  {
    var w := n % WORD;
    if w >= INT_LIMIT then w - WORD else w
  }

  datatype Target = Absolute(position: nat) | BadOffset

  /** The position that `offset` bytes from `base` is taken for: the sum is formed in 32-bit
      signed words. */
  function SeekTarget(base: nat, offset: int): Target {
    var position := Signed(Signed(base) + offset);
    if position < 0 then BadOffset else Absolute(position)
  }

  /** The position is right exactly if it is below 2^32; from 2^31 on it is refused. */
  lemma SeekTargetExact(base: nat, offset: int)
    requires base < WORD && -INT_LIMIT <= offset < INT_LIMIT
    ensures SeekTarget(base, offset) ==
            if base + offset < 0 || INT_LIMIT <= base + offset < WORD then BadOffset
            else if base + offset < INT_LIMIT then Absolute(base + offset)
            else Absolute(base + offset - WORD)
  {
    var s := Signed(base) + offset;
    var wraps := if s >= INT_LIMIT then 1 else if s < -INT_LIMIT then -1 else 0;
    DivModUnique(s, WORD, s / WORD, s % WORD);
  }

  /** The position reached by walking from the first cluster of the chain. */
  function WalkFromStart(g: Geometry, ch: seq<nat>, p: nat): FilePosition
    requires BytesPerCluster(g) > 0 && g.bytesPerSector > 0 && |ch| > 0 && p <= Chunk(g, |ch|)
  {
    if p > 0 && p == Chunk(g, |ch|) then FilePosition(ch[|ch| - 1], g.sectorsPerCluster, 0)
    else
      InsideChain(g, ch, p);
      FilePosition(ch[p / BytesPerCluster(g)], p % BytesPerCluster(g) / g.bytesPerSector, p % g.bytesPerSector)
  }

  lemma InsideChain(g: Geometry, ch: seq<nat>, p: nat)
    requires BytesPerCluster(g) > 0 && |ch| > 0 && p <= Chunk(g, |ch|)
    ensures p / BytesPerCluster(g) <= |ch|
    ensures p / BytesPerCluster(g) == |ch| <==> p == Chunk(g, |ch|)
  {
    var bpc := BytesPerCluster(g);
    var k := p / bpc;
    assert p == k * bpc + p % bpc;
    if k > |ch| { MulMonotone(|ch|, k, bpc); }
    if p == Chunk(g, |ch|) { MultipleMod(|ch|, bpc); }
    if k < |ch| { MulMonotone(k, |ch|, bpc); }
  }

  /** That position is where it should be. */
  lemma WalkArrives(g: Geometry, ch: seq<nat>, p: nat)
    requires ValidGeometry(g) && |ch| > 0 && p <= Chunk(g, |ch|)
    ensures BytesPerCluster(g) > 0 && g.bytesPerSector > 0
    ensures var pos := WalkFromStart(g, ch, p);
            && (exists k :: PosAt(g, ch, pos, k, p)) && pos.sector <= g.sectorsPerCluster
            && (pos.sector == g.sectorsPerCluster <==> p > 0 && p == Chunk(g, |ch|))
            && (pos.sector == g.sectorsPerCluster ==> pos.byte == 0)
  {
    hide BytesPerCluster, Chunk;
    ClusterSizes(g);
    SplitSize(g, p);
    InsideChain(g, ch, p);
    ChunkStep(g, |ch| - 1);
    SectorSpan(g, g.sectorsPerCluster);
    var pos := WalkFromStart(g, ch, p);
    var k := if p > 0 && p == Chunk(g, |ch|) then |ch| - 1 else p / BytesPerCluster(g);
    ChunkStep(g, 0);
    assert PosAt(g, ch, pos, k, p);
  }

  /** The number of the cluster a position lies in, as the shortcut computes it. */
  lemma CurrentCount(g: Geometry, ch: seq<nat>, pos: FilePosition, k: nat, p: nat)
    requires ValidGeometry(g) && PosAt(g, ch, pos, k, p)
    requires pos.sector == g.sectorsPerCluster ==> pos.byte == 0
    ensures BytesPerCluster(g) > 0
    ensures p / BytesPerCluster(g) - (if pos.sector == g.sectorsPerCluster then 1 else 0) == k
  {
    hide ValidGeometry;
    ClusterSizes(g);
    SectorSpan(g, pos.sector);
    hide BytesPerCluster;
    if pos.sector == g.sectorsPerCluster {
      ChunkStep(g, k);
      MultipleMod(k + 1, BytesPerCluster(g));
    } else {
      DivModUnique(p, BytesPerCluster(g), k, SectorAddress(g, pos.sector) + pos.byte);
    }
  }

  /** Follows `count` links of a chain, or as many as it has. */
  method FollowLinks(part: P.Partition, cluster: nat, count: nat, ghost ch: seq<nat>, ghost k: nat)
    returns (cluster': nat, left: nat)
    requires part.Valid() && ChainIn(part, ch) && k < |ch| && cluster == ch[k]
    modifies part.cache`accessCounter, part.cache`ticks, part.cache`touched, part.cache.entries, part.cache.disc
    ensures part.Valid() && left == if k + count < |ch| then 0 else k + count - (|ch| - 1)
    ensures cluster' == ch[k + count - left]
  {
    hide ValidGeometry, Coherent, Recent, Table;
    ghost var t, i := part.T(), k;
    cluster', left := cluster, count;
    ChainStep(t, ch, i);
    var next := part.NextCluster(cluster');
    while left > 0 && next != CLUSTER_FREE && next != CLUSTER_EOF
      invariant part.Valid() && part.T() == t
      invariant k <= i < |ch| && i + left == k + count && left >= 0
      invariant cluster' == ch[i] && next == t[cluster']
      decreases left
    {
      ChainStep(t, ch, i);
      left, i := left - 1, i + 1;
      cluster' := next;
      ChainStep(t, ch, i);
      next := part.NextCluster(cluster');
    }
    ChainStep(t, ch, i);
  }

  /** The position of `target`, found from the current cluster if it does not lie behind the
      current position. It is the one that the walk from the first cluster finds. */
  method Locate(part: P.Partition, start: nat, size: nat, current: nat, rwPosition: FilePosition, target: nat,
                ghost ch: seq<nat>, ghost k: nat)
    returns (ok: bool, pos: FilePosition)
    requires part.Valid() && ChainIn(part, ch) && start == ch[0] && size <= Chunk(part.geometry, |ch|) && target <= size
    requires target >= current ==>
               && PosAt(part.geometry, ch, rwPosition, k, current)
               && (rwPosition.sector == part.geometry.sectorsPerCluster ==> rwPosition.byte == 0)
    modifies part.cache`accessCounter, part.cache`ticks, part.cache`touched, part.cache.entries, part.cache.disc
    ensures part.Valid() && ok
    ensures BytesPerCluster(part.geometry) > 0 && part.geometry.bytesPerSector > 0
    ensures pos == WalkFromStart(part.geometry, ch, target)
  {
    hide ValidGeometry, Coherent, Recent, Table, Chunk, IsChain, BytesPerCluster;
    StartOfChain(part, ch);
    ClusterSizes(part.geometry);
    var cluster, clusCount;
    ghost var from;
    cluster, clusCount, from := CountClusters(part.geometry, start, current, rwPosition, target, ch, k);
    ok, pos := FinishSeek(part, cluster, clusCount, size, target, ch, from);
  }

  /** How many links to follow, and from where. */
  method CountClusters(g: Geometry, start: nat, current: nat, rwPosition: FilePosition, target: nat,
                       ghost ch: seq<nat>, ghost k: nat)
    returns (cluster: nat, clusCount: nat, ghost from: nat)
    requires ValidGeometry(g) && |ch| > 0 && start == ch[0]
    requires target >= current ==>
               PosAt(g, ch, rwPosition, k, current)
                   && (rwPosition.sector == g.sectorsPerCluster ==> rwPosition.byte == 0)
    ensures BytesPerCluster(g) > 0
    ensures from < |ch| && cluster == ch[from] && from + clusCount == target / BytesPerCluster(g)
  {
    hide ValidGeometry, Chunk, BytesPerCluster, PosAt;
    ClusterSizes(g);
    var count: int := target / BytesPerCluster(g);
    cluster, from := start, 0;
    if target >= current {
      CurrentCount(g, ch, rwPosition, k, current);
      CountsUp(current, target, BytesPerCluster(g));
      PlaceOf(g, ch, rwPosition, k, current);
      var currentCount: int := current / BytesPerCluster(g);
      if rwPosition.sector == g.sectorsPerCluster {
        currentCount := currentCount - 1;
      }
      count := count - currentCount;
      cluster, from := rwPosition.cluster, k;
    }
    clusCount := count;
  }

  lemma PlaceOf(g: Geometry, ch: seq<nat>, pos: FilePosition, k: nat, p: nat)
    requires PosAt(g, ch, pos, k, p)
    ensures k < |ch| && pos.cluster == ch[k]
  {
  }

  lemma CountsUp(current: nat, target: nat, n: nat)
    requires current <= target && n > 0
    ensures current / n <= target / n
  {
    var a, b := current / n, target / n;
    assert current == a * n + current % n && target == b * n + target % n;
    if b < a { MulMonotone(b, a, n); }
  }

  lemma StartOfChain(part: P.Partition, ch: seq<nat>)
    requires part.Valid() && ChainIn(part, ch)
    ensures |ch| > 0 && ValidGeometry(part.geometry)
  {
  }

  method FinishSeek(part: P.Partition, cluster: nat, clusCount: nat, size: nat, target: nat, ghost ch: seq<nat>,
                    ghost k: nat)
    returns (ok: bool, pos: FilePosition)
    requires part.Valid() && ChainIn(part, ch) && size <= Chunk(part.geometry, |ch|) && target <= size
    requires BytesPerCluster(part.geometry) > 0 && part.geometry.bytesPerSector > 0
    requires k < |ch| && cluster == ch[k] && k + clusCount == target / BytesPerCluster(part.geometry)
    modifies part.cache`accessCounter, part.cache`ticks, part.cache`touched, part.cache.entries, part.cache.disc
    ensures part.Valid() && ok
    ensures BytesPerCluster(part.geometry) > 0 && part.geometry.bytesPerSector > 0
    ensures pos == WalkFromStart(part.geometry, ch, target)
  {
    hide ValidGeometry, Coherent, Recent, Table, IsChain, BytesPerCluster, Chunk;
    var g := part.geometry;
    InsideChain(g, ch, target);
    EdgeOffset(g, ch, target);
    ok, pos := true, FilePosition(cluster, target % BytesPerCluster(g) / g.bytesPerSector, target % g.bytesPerSector);
    var last, left := FollowLinks(part, cluster, clusCount, ch, k);
    if left > 0 {
      if left == 1 && size == target && pos.sector == 0 {
        pos := pos.(sector := g.sectorsPerCluster, byte := 0);
      } else {
        ok := false;
        return;
      }
    }
    pos := pos.(cluster := last);
  }

  lemma EdgeOffset(g: Geometry, ch: seq<nat>, p: nat)
    requires BytesPerCluster(g) > 0 && g.bytesPerSector > 0 && |ch| > 0 && p <= Chunk(g, |ch|)
    ensures p == Chunk(g, |ch|) ==> p % BytesPerCluster(g) / g.bytesPerSector == 0 && p > 0
  {
    if p == Chunk(g, |ch|) {
      MultipleMod(|ch|, BytesPerCluster(g));
      ChunkStep(g, 0);
      ChunkMonotone(g, 0, |ch|);
    }
  }
}
