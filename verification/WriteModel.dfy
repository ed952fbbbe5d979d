/** What a write has done so far: the relation between the image and chain before it and the
    image and chain now. */
module WriteModel {
  import opened Bytes
  import opened FatTable
  import opened Chains
  import opened DataRegion
  import opened FileModel

  /** `ch` is one of the partition's chains and `others` are all the others. */
  ghost predicate Owns(g: Geometry, v: seq<byte>, others: set<seq<nat>>, ch: seq<nat>) {
    && ValidGeometry(g) && IsImage(g, v)
    && ch !in others && Forest(Table(g, v), others + {ch})
  }

  lemma OwnsChain(g: Geometry, v: seq<byte>, others: set<seq<nat>>, ch: seq<nat>)
    requires Owns(g, v, others, ch)
    ensures IsChain(Table(g, v), ch) && |ch| > 0 && AllClusters(g, ch) && Distinct(ch)
    ensures forall a :: a in others ==> IsChain(Table(g, v), a) && Apart(a, ch)
  {
    assert ch in others + {ch};
  }

  /** A free search that starts at `hint` starts inside the table, or finds the entry after it
      in use. */
  ghost predicate Searchable(g: Geometry, v: seq<byte>, hint: nat) {
    && ValidGeometry(g) && IsImage(g, v)
    && hint <= g.lastCluster + 1 && !Stray(Table(g, v), hint)
  }

  /** No cluster is free. */
  ghost predicate Full(g: Geometry, v: seq<byte>) {
    ValidGeometry(g) && IsImage(g, v) && FreeSet(Table(g, v)) == {}
  }

  /** How many clusters are free. */
  ghost function FreeCount(g: Geometry, v: seq<byte>): nat {
    if ValidGeometry(g) && IsImage(g, v) then |FreeSet(Table(g, v))| else 0
  }

  /** The table's chains are `others` and `ch`, which may be empty. */
  ghost predicate Chained(g: Geometry, v: seq<byte>, others: set<seq<nat>>, ch: seq<nat>) {
    ValidGeometry(g) && IsImage(g, v) && ch !in others && Forest(Table(g, v), With(others, ch))
  }

  /** A chain grows, or shrinks, by as many clusters as stop, or start, being free. */
  lemma GrowthUsesFree(g: Geometry, v: seq<byte>, v': seq<byte>, others: set<seq<nat>>, ch: seq<nat>, ch': seq<nat>)
    requires Chained(g, v, others, ch) && Chained(g, v', others, ch') && ch <= ch'
    ensures |ch| + FreeCount(g, v) == |ch'| + FreeCount(g, v')
  {
    hide Table, Forest;
    assert ch' == ch + ch'[|ch|..];
    FreeAfterGrowth(Table(g, v), Table(g, v'), others, ch, ch'[|ch|..]);
  }

  lemma OwnsChained(g: Geometry, v: seq<byte>, others: set<seq<nat>>, ch: seq<nat>)
    requires Owns(g, v, others, ch)
    ensures Chained(g, v, others, ch)
  {
    OwnsChain(g, v, others, ch);
  }

  ghost predicate SameTable(g: Geometry, v: seq<byte>, v': seq<byte>) {
    ValidGeometry(g) && IsImage(g, v) && IsImage(g, v') && Table(g, v') == Table(g, v)
  }

  lemma TableKept(g: Geometry, v: seq<byte>, v': seq<byte>, others: set<seq<nat>>, ch: seq<nat>, hint: nat)
    requires SameTable(g, v, v')
    ensures Owns(g, v, others, ch) ==> Owns(g, v', others, ch)
    ensures Searchable(g, v, hint) ==> Searchable(g, v', hint)
    ensures Full(g, v) ==> Full(g, v')
  {
  }

  /** From image `v0` and chain `ch0` to `v` and `ch`: the chain has only grown at its end, the
      bytes from `p` on are `data`, every other byte the chain had before is the same, and so
      is every byte of the image outside the table and the chain. */
  ghost predicate Wrote(g: Geometry, v0: seq<byte>, ch0: seq<nat>, v: seq<byte>, ch: seq<nat>, p: nat,
                        data: seq<byte>) {
    && ValidGeometry(g) && IsImage(g, v0) && IsImage(g, v) && AllClusters(g, ch0) && AllClusters(g, ch)
    && ch0 <= ch
    && Chunk(g, |ch0|) <= Chunk(g, |ch|) && p + |data| <= Chunk(g, |ch|)
    && Slice(Flat(g, v, ch), p, |data|) == data
    && (forall i :: 0 <= i < Chunk(g, |ch0|) && !(p <= i < p + |data|) ==> Flat(g, v, ch)[i] == Flat(g, v0, ch0)[i])
    && SameOutside(g, ch, v0, v)
  }

  lemma WroteNothing(g: Geometry, v: seq<byte>, ch: seq<nat>, p: nat)
    requires ValidGeometry(g) && IsImage(g, v) && AllClusters(g, ch) && p <= Chunk(g, |ch|)
    ensures Wrote(g, v, ch, v, ch, p, [])
  {
    hide Flat;
  }

  lemma WroteThen(g: Geometry, v0: seq<byte>, ch0: seq<nat>, v1: seq<byte>, ch1: seq<nat>, v2: seq<byte>, ch2: seq<nat>,
                  p: nat, data: seq<byte>, more: seq<byte>)
    requires Wrote(g, v0, ch0, v1, ch1, p, data) && Wrote(g, v1, ch1, v2, ch2, p + |data|, more)
    ensures Wrote(g, v0, ch0, v2, ch2, p, data + more)
  {
    hide Flat, SameOutside, Chunk, ValidGeometry, AllClusters;
    SameOutsideTrans(g, ch1, ch2, v0, v1, v2);
    var f1, f2 := Flat(g, v1, ch1), Flat(g, v2, ch2);
    var d := data + more;
    forall i | 0 <= i < |d| ensures Slice(f2, p, |d|)[i] == d[i] {
      if i < |data| {
        assert f2[p + i] == f1[p + i] == Slice(f1, p, |data|)[i];
      } else {
        assert f2[p + i] == Slice(f2, p + |data|, |more|)[i - |data|];
      }
    }
    assert Slice(f2, p, |d|) == d;
  }

  /** With nothing written the position is of no account. */
  lemma WroteNowhere(g: Geometry, v0: seq<byte>, ch0: seq<nat>, v: seq<byte>, ch: seq<nat>, p: nat, q: nat)
    requires Wrote(g, v0, ch0, v, ch, p, []) && q <= Chunk(g, |ch|)
    ensures Wrote(g, v0, ch0, v, ch, q, [])
  {
    hide Flat, SameOutside, Chunk, ValidGeometry, AllClusters;
  }

  /** The same with nothing before or after. */
  lemma WroteAfterNothing(g: Geometry, v0: seq<byte>, ch0: seq<nat>, v1: seq<byte>, ch1: seq<nat>, v2: seq<byte>,
                          ch2: seq<nat>,
                          p: nat, q: nat, data: seq<byte>)
    requires Wrote(g, v0, ch0, v1, ch1, q, []) && Wrote(g, v1, ch1, v2, ch2, p, data) && p <= Chunk(g, |ch1|)
    ensures Wrote(g, v0, ch0, v2, ch2, p, data)
  {
    hide Wrote;
    WroteNowhere(g, v0, ch0, v1, ch1, q, p);
    WroteThen(g, v0, ch0, v1, ch1, v2, ch2, p, [], data);
    assert [] + data == data;
  }

  lemma WroteBounds(g: Geometry, v0: seq<byte>, ch0: seq<nat>, v: seq<byte>, ch: seq<nat>, p: nat, data: seq<byte>)
    requires Wrote(g, v0, ch0, v, ch, p, data)
    ensures ch0 <= ch && p + |data| <= Chunk(g, |ch|) && Chunk(g, |ch0|) <= Chunk(g, |ch|)
  {
  }

  /** A write inside the chain. */
  lemma WroteStore(g: Geometry, v: seq<byte>, ch: seq<nat>, pos: FilePosition, k: nat, p: nat, data: seq<byte>)
    requires ValidGeometry(g) && IsImage(g, v) && AllClusters(g, ch) && Distinct(ch) && PosAt(g, ch, pos, k, p)
    requires SectorAddress(g, pos.sector) + pos.byte + |data| <= BytesPerCluster(g)
    ensures var a := SectorAddress(g, ClusterToSector(g, pos.cluster) + pos.sector) + pos.byte;
            && a + |data| <= |v|
            && Wrote(g, v, ch, Splice(v, a, data), ch, p, data)
            && Table(g, Splice(v, a, data)) == Table(g, v)
  {
    hide Flat, SameOutside, Chunk, ValidGeometry, AllClusters, Table, BytesPerCluster, ClusterToSector, SectorAddress;
    StorePlace(g, v, ch, pos, k, p, data);
    SpliceSays(Flat(g, v, ch), p, data);
  }

  lemma SpliceSays(f: seq<byte>, p: nat, data: seq<byte>)
    requires p + |data| <= |f|
    ensures Slice(Splice(f, p, data), p, |data|) == data
  {
  }

  lemma WroteRun(g: Geometry, v: seq<byte>, ch: seq<nat>, k: nat, m: nat, data: seq<byte>)
    requires ValidGeometry(g) && IsImage(g, v) && AllClusters(g, ch) && Distinct(ch)
    requires Run(ch, k, m) && m >= 1 && |data| == Chunk(g, m)
    ensures ClusterAddress(g, ch[k]) + |data| <= |v|
    ensures var v' := Splice(v, ClusterAddress(g, ch[k]), data);
            Wrote(g, v, ch, v', ch, Chunk(g, k), data) && Table(g, v') == Table(g, v)
  {
    hide Flat, SameOutside, Chunk, ValidGeometry, AllClusters, Table, BytesPerCluster, ClusterAddress;
    StoreRun(g, v, ch, k, m, data);
    SpliceSays(Flat(g, v, ch), Chunk(g, k), data);
  }

  /** One more cluster at the end of the chain, with whatever is in it. */
  lemma WroteGrow(g: Geometry, v: seq<byte>, v': seq<byte>, ch: seq<nat>, c: nat, p: nat)
    requires ValidGeometry(g) && IsImage(g, v) && IsImage(g, v') && AllClusters(g, ch) && IsCluster(g, c)
    requires SameOutsideFat(g, v, v') && p <= Chunk(g, |ch| + 1)
    ensures AllClusters(g, ch + [c])
    ensures Wrote(g, v, ch, v', ch + [c], p, [])
  {
    hide Chunk, ValidGeometry;
    FatWriteFrame(g, v, v', ch);
    ChunkMonotone(g, |ch|, |ch| + 1);
    FlatGrow(g, v', ch, c);
    hide Flat;
    assert SameOutside(g, ch + [c], v, v');
  }

  /** Changes to the table leave all file bytes alone. */
  lemma FatWriteFrame(g: Geometry, v: seq<byte>, v': seq<byte>, ch: seq<nat>)
    requires ValidGeometry(g) && IsImage(g, v) && IsImage(g, v') && AllClusters(g, ch) && SameOutsideFat(g, v, v')
    ensures Flat(g, v', ch) == Flat(g, v, ch)
  {
    forall a, i | 0 <= a < |v| && 0 <= i < |ch| && InCluster(g, ch[i], a) ensures v'[a] == v[a] {
      ClusterExtent(g, v, ch[i]);
    }
    FlatFrame(g, v, v', ch);
  }

  /** A chain with no cluster in common with the written one reads as before. */
  lemma OthersRead(g: Geometry, v0: seq<byte>, v: seq<byte>, ch: seq<nat>, other: seq<nat>)
    requires ValidGeometry(g) && IsImage(g, v0) && IsImage(g, v) && AllClusters(g, ch) && AllClusters(g, other)
    requires SameOutside(g, ch, v0, v) && Apart(other, ch)
    ensures Flat(g, v, other) == Flat(g, v0, other)
  {
    forall a, i | 0 <= a < |v0| && 0 <= i < |other| && InCluster(g, other[i], a) ensures v[a] == v0[a] {
      ClusterExtent(g, v0, other[i]);
      NotInChain(g, ch, other[i], a);
    }
    FlatFrame(g, v0, v, other);
  }

  lemma NotInChain(g: Geometry, ch: seq<nat>, c: nat, a: nat)
    requires ValidGeometry(g) && AllClusters(g, ch) && IsCluster(g, c) && c !in ch && InCluster(g, c, a)
    ensures !InChain(g, ch, a)
  {
    forall i | 0 <= i < |ch| ensures !InCluster(g, ch[i], a) {
      ClustersApart(g, c, ch[i]);
    }
  }

  /** The chain grew only as far as the write needed. */
  ghost predicate Tight(g: Geometry, ch0: seq<nat>, ch: seq<nat>, k: nat, p: nat, left: nat) {
    |ch| == |ch0| || (|ch| == k + 1 && (p > Chunk(g, k) || left > 0))
  }

  lemma TightThen(g: Geometry, v: seq<byte>, ch0: seq<nat>, v1: seq<byte>, ch1: seq<nat>, v2: seq<byte>, ch2: seq<nat>,
                  k1: nat, k2: nat, p0: nat, p1: nat, p2: nat, left1: nat, left2: nat, d: seq<byte>, e: seq<byte>)
    requires Tight(g, ch0, ch1, k1, p1, left1) && Tight(g, ch1, ch2, k2, p2, left2)
    requires Wrote(g, v, ch0, v1, ch1, p0, d) && Wrote(g, v1, ch1, v2, ch2, p1, e)
    requires k1 < |ch1| && k2 < |ch2| && k1 <= k2 && p1 <= p2 && (left1 > 0 ==> left2 > 0 || p2 > p1)
    requires p1 >= Chunk(g, k1)
    ensures Tight(g, ch0, ch2, k2, p2, left2)
  {
  }

  lemma JoinFront(g: Geometry, v0: seq<byte>, ch: seq<nat>, v1: seq<byte>, ch1: seq<nat>, v2: seq<byte>, ch2: seq<nat>,
                  k1: nat, k2: nat, p: nat, src: seq<byte>, a: nat, b: nat)
    requires a + b <= |src|
    requires Wrote(g, v0, ch, v1, ch1, p, src[..a]) && Wrote(g, v1, ch1, v2, ch2, p + a, src[a..][..b])
    requires Tight(g, ch, ch1, k1, p + a, |src| - a) && Tight(g, ch1, ch2, k2, p + a + b, |src| - a - b)
    requires k1 < |ch1| && k2 < |ch2| && k1 <= k2 && p + a >= Chunk(g, k1)
    ensures Wrote(g, v0, ch, v2, ch2, p, src[..a + b]) && p + (a + b) <= Chunk(g, |ch2|)
    ensures Tight(g, ch, ch2, k2, p + (a + b), |src| - (a + b))
  {
    hide Wrote, Tight, Chunk;
    assert src[a..][..b] == src[a..a + b] && src[..a] + src[a..a + b] == src[..a + b];
    WroteThen(g, v0, ch, v1, ch1, v2, ch2, p, src[..a], src[a..a + b]);
    WroteBounds(g, v0, ch, v2, ch2, p, src[..a + b]);
    TightThen(g, v0, ch, v1, ch1, v2, ch2, k1, k2, p, p + a, p + a
        + b, |src| - a, |src| - a - b, src[..a], src[a..a + b]);
  }

  lemma JoinBack(g: Geometry, v0: seq<byte>, ch: seq<nat>, v1: seq<byte>, ch1: seq<nat>, v2: seq<byte>, ch2: seq<nat>,
                 p: nat, src: seq<byte>, a: nat, b: nat, slack: nat)
    requires a + b <= |src|
    requires Wrote(g, v0, ch, v1, ch1, p, src[..a])
    requires Wrote(g, v1, ch1, v2, ch2, p + a, src[a..][..b] + Zeros(slack))
    ensures Wrote(g, v0, ch, v2, ch2, p, src[..a + b] + Zeros(slack))
  {
    hide Wrote;
    assert src[..a] + (src[a..][..b] + Zeros(slack)) == src[..a + b] + Zeros(slack);
    WroteThen(g, v0, ch, v1, ch1, v2, ch2, p, src[..a], src[a..][..b] + Zeros(slack));
  }

  /** At the end of a transfer the last cluster of a chain that grew has been written to. */
  lemma TightEnd(g: Geometry, ch: seq<nat>, ch2: seq<nat>, ch3: seq<nat>, k2: nat, k3: nat, p: nat, n2: nat, n: nat,
                 total: nat, pos: FilePosition)
    requires n2 <= n <= total && ch <= ch2
    requires ValidGeometry(g) && Tight(g, ch, ch2, k2, p + n2, total - n2)
    requires ch3 == ch2 || (|ch3| == |ch2| + 1 && k3 == |ch2|)
    requires PosAt(g, ch3, pos, k3, p + n) && k2 <= k3 && k2 < |ch2|
    requires n == n2 ==> k3 == k2
    requires n > n2 ==> n == total
    requires n < total ==> pos.sector == g.sectorsPerCluster
    requires p + n2 >= Chunk(g, k2)
    requires ch3 != ch2 ==> n > n2
    requires n > n2 && k3 == |ch2| ==> p + n2 >= Chunk(g, k3)
    ensures |ch3| == |ch| || (|ch3| == k3 + 1 && p + n > Chunk(g, k3))
  {
    ClusterSizes(g);
    SectorSpan(g, g.sectorsPerCluster);
  }
}
