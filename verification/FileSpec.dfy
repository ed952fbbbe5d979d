/** What a file is to its user: a byte string and a position. */
module FileSpec {
  import opened Bytes
  import opened FatTable
  import opened DataRegion
  import opened WriteModel

  const FILE_MAX_SIZE: nat := 0xFFFF_FFFF

  /** Storing `data` at position `at`: a gap before it is zeros, the bytes behind it stay. */
  function WriteAt(bytes: seq<byte>, at: nat, data: seq<byte>): (r: seq<byte>)
    ensures |r| == if at + |data| > |bytes| then at + |data| else |bytes|
    ensures forall i :: at <= i < at + |data| ==> r[i] == data[i - at]
    ensures forall i :: 0 <= i < |bytes| && !(at <= i < at + |data|) ==> r[i] == bytes[i]
    ensures forall i :: |bytes| <= i < at ==> r[i] == 0
  {
    if at >= |bytes| then bytes + Zeros(at - |bytes|) + data
    else if at + |data| >= |bytes| then bytes[..at] + data
    else bytes[..at] + data + bytes[at + |data|..]
  }

  /** The bytes that were just written are read back, and bytes elsewhere are not affected. */
  lemma WrittenThenRead(bytes: seq<byte>, at: nat, data: seq<byte>, from: nat, n: nat)
    requires from + n <= |bytes|
    ensures Slice(WriteAt(bytes, at, data), at, |data|) == data
    ensures from + n <= at || at + |data| <= from ==> Slice(WriteAt(bytes, at, data), from, n) == Slice(bytes, from, n)
  {
  }

  /** Two writes, one behind the other, are one. */
  lemma WritesJoin(bytes: seq<byte>, at: nat, data: seq<byte>, more: seq<byte>)
    ensures WriteAt(WriteAt(bytes, at, data), at + |data|, more) == WriteAt(bytes, at, data + more)
  {
    var a, b := WriteAt(WriteAt(bytes, at, data), at + |data|, more), WriteAt(bytes, at, data + more);
    assert |a| == |b|;
    forall i | 0 <= i < |a| ensures a[i] == b[i] {
      if i < at + |data| { assert a[i] == WriteAt(bytes, at, data)[i]; }
    }
  }

  // ----- from chains to contents -----

  /** The bytes of a file of the given size. */
  ghost function ContentsOf(g: Geometry, v: seq<byte>, ch: seq<nat>, size: nat): (b: seq<byte>) {
    if ValidGeometry(g) && IsImage(g, v) && AllClusters(g, ch) && size <= Chunk(g, |ch|) then Flat(g, v, ch)[..size]
    else []
  }

  lemma ContentsSize(g: Geometry, v: seq<byte>, ch: seq<nat>, size: nat)
    requires ValidGeometry(g) && IsImage(g, v) && AllClusters(g, ch) && size <= Chunk(g, |ch|)
    ensures |ContentsOf(g, v, ch, size)| == size
    ensures forall i :: 0 <= i < size ==> ContentsOf(g, v, ch, size)[i] == Flat(g, v, ch)[i]
  {
  }

  lemma ContentsSlice(g: Geometry, v: seq<byte>, ch: seq<nat>, size: nat, p: nat, n: nat)
    requires ValidGeometry(g) && IsImage(g, v) && AllClusters(g, ch) && size <= Chunk(g, |ch|) && p + n <= size
    ensures |ContentsOf(g, v, ch, size)| == size
    ensures Slice(Flat(g, v, ch), p, n) == Slice(ContentsOf(g, v, ch, size), p, n)
  {
    hide Flat, Chunk, ValidGeometry, AllClusters;
    SlicePrefix(Flat(g, v, ch), size, p, n);
  }

  lemma SlicePrefix(f: seq<byte>, size: nat, p: nat, n: nat)
    requires p + n <= size <= |f|
    ensures Slice(f, p, n) == Slice(f[..size], p, n)
  {
  }

  /** What a write to the chain means for the file: with `n` bytes of `data` in it, and the
      rest of `data` beyond its end. */
  lemma WroteContents(g: Geometry, v0: seq<byte>, ch0: seq<nat>, v: seq<byte>, ch: seq<nat>,
                      size: nat, size': nat, p: nat, n: nat, data: seq<byte>)
    requires Wrote(g, v0, ch0, v, ch, p, data) && n <= |data|
    requires p <= size <= Chunk(g, |ch0|) && size' == (if p + n > size then p + n else size)
    requires n < |data| ==> p + n >= size
    ensures size' <= Chunk(g, |ch|)
    ensures ContentsOf(g, v, ch, size') == WriteAt(ContentsOf(g, v0, ch0, size), p, data[..n])
  {
    hide Flat, SameOutside, Chunk, ValidGeometry, AllClusters;
    var f := Flat(g, v, ch);
    var a, b := ContentsOf(g, v, ch, size'), WriteAt(ContentsOf(g, v0, ch0, size), p, data[..n]);
    assert |a| == |b|;
    forall i | 0 <= i < |a| ensures a[i] == b[i] {
      if p <= i < p + n { assert f[i] == Slice(f, p, |data|)[i - p]; }
    }
  }

  /** Storing `data` at position `at`, and what of it a size of `size` bytes covers. */
  function CutWrite(bytes: seq<byte>, at: nat, data: seq<byte>, size: nat): seq<byte> {
    var w := WriteAt(bytes, at, data);
    if size <= |w| then w[..size] else w
  }

  /** The same for the bytes of a chain and a file that ends anywhere in it. */
  lemma WroteChain(g: Geometry, v0: seq<byte>, ch0: seq<nat>, v: seq<byte>, ch: seq<nat>, size: nat, p: nat, n: nat,
                   data: seq<byte>)
    requires Wrote(g, v0, ch0, v, ch, p, data) && n <= |data| && p <= Chunk(g, |ch0|)
    requires (size <= Chunk(g, |ch0|) || size <= p + n) && (n < |data| ==> size <= p + n)
    ensures size <= Chunk(g, |ch|)
    ensures ContentsOf(g, v, ch, size) == CutWrite(ContentsOf(g, v0, ch0, Chunk(g, |ch0|)), p, data[..n], size)
  {
    hide Flat, SameOutside, Chunk, ValidGeometry, AllClusters;
    var f := Flat(g, v, ch);
    var a, b := ContentsOf(g, v, ch, size), CutWrite(ContentsOf(g, v0, ch0, Chunk(g, |ch0|)), p, data[..n], size);
    assert |a| == |b|;
    forall i | 0 <= i < |a| ensures a[i] == b[i] {
      if p <= i < p + n { assert f[i] == Slice(f, p, |data|)[i - p]; }
    }
  }

  /** What is stored behind the end of a file does not change it. */
  lemma WroteBehind(g: Geometry, v0: seq<byte>, ch0: seq<nat>, v: seq<byte>, ch: seq<nat>, size: nat, p: nat,
                    data: seq<byte>)
    requires Wrote(g, v0, ch0, v, ch, p, data) && size <= p && size <= Chunk(g, |ch0|)
    ensures size <= Chunk(g, |ch|) && ContentsOf(g, v, ch, size) == ContentsOf(g, v0, ch0, size)
  {
    hide Flat, SameOutside, Chunk, ValidGeometry, AllClusters;
  }

  /** The other chains' bytes. */
  ghost predicate OthersKept(g: Geometry, v: seq<byte>, v': seq<byte>, others: set<seq<nat>>) {
    ValidGeometry(g) && IsImage(g, v) && IsImage(g, v') && forall a :: a in others && AllClusters(g, a) ==>
          Flat(g, v', a) == Flat(g, v, a)
  }

  lemma OthersKeptThen(g: Geometry, v: seq<byte>, v': seq<byte>, v'': seq<byte>, others: set<seq<nat>>)
    requires OthersKept(g, v, v', others) && OthersKept(g, v', v'', others)
    ensures OthersKept(g, v, v'', others)
  {
    hide Flat;
  }

  lemma OthersSame(g: Geometry, v: seq<byte>, others: set<seq<nat>>)
    requires ValidGeometry(g) && IsImage(g, v)
    ensures OthersKept(g, v, v, others)
  {
  }

  lemma WroteOthers(g: Geometry, v0: seq<byte>, ch0: seq<nat>, v: seq<byte>, ch: seq<nat>, p: nat, data: seq<byte>,
                    others: set<seq<nat>>)
    requires Wrote(g, v0, ch0, v, ch, p, data) && Owns(g, v, others, ch)
    ensures OthersKept(g, v0, v, others)
  {
    hide Flat, SameOutside, Chunk, Table, AllClusters;
    OwnsChain(g, v, others, ch);
    forall a | a in others && AllClusters(g, a) ensures Flat(g, v, a) == Flat(g, v0, a) {
      OthersRead(g, v0, v, ch, a);
    }
  }

  lemma FatOthers(g: Geometry, v: seq<byte>, v': seq<byte>, others: set<seq<nat>>)
    requires ValidGeometry(g) && IsImage(g, v) && IsImage(g, v') && SameOutsideFat(g, v, v')
    ensures OthersKept(g, v, v', others)
  {
    hide Flat, AllClusters, SameOutsideFat;
    forall a | a in others && AllClusters(g, a) ensures Flat(g, v', a) == Flat(g, v, a) {
      FatWriteFrame(g, v, v', a);
    }
  }

  /** A prefix of a chain says a prefix of what the chain says. */
  lemma {:induction false} FlatPrefix(g: Geometry, v: seq<byte>, ch: seq<nat>, n: nat)
    requires ValidGeometry(g) && IsImage(g, v) && AllClusters(g, ch) && n <= |ch|
    ensures AllClusters(g, ch[..n]) && Chunk(g, n) <= Chunk(g, |ch|)
    ensures Flat(g, v, ch[..n]) == Flat(g, v, ch)[..Chunk(g, n)]
  {
    ChunkMonotone(g, n, |ch|);
    if n < |ch| {
      var rest := ch[..|ch| - 1];
      FlatPrefix(g, v, rest, n);
      assert rest[..n] == ch[..n];
      ChunkMonotone(g, n, |rest|);
      assert Flat(g, v, ch)[..Chunk(g, n)] == Flat(g, v, rest)[..Chunk(g, n)];
    } else {
      assert ch[..n] == ch;
    }
  }

  /** A table change that keeps the first clusters of a chain keeps the start of the file. */
  lemma CutContents(g: Geometry, v: seq<byte>, v': seq<byte>, ch: seq<nat>, n: nat, size: nat, size': nat)
    requires ValidGeometry(g) && IsImage(g, v) && IsImage(g, v') && AllClusters(g, ch) && SameOutsideFat(g, v, v')
    requires n <= |ch| && size <= Chunk(g, |ch|) && size' <= size && size' <= Chunk(g, n)
    ensures AllClusters(g, ch[..n]) && |ContentsOf(g, v, ch, size)| == size
    ensures ContentsOf(g, v', ch[..n], size') == ContentsOf(g, v, ch, size)[..size']
  {
    hide Chunk, ValidGeometry, SameOutsideFat;
    FlatPrefix(g, v, ch, n);
    FatWriteFrame(g, v, v', ch[..n]);
    hide Flat;
    assert Flat(g, v, ch)[..Chunk(g, n)][..size'] == Flat(g, v, ch)[..size'];
    assert ContentsOf(g, v, ch, size)[..size'] == Flat(g, v, ch)[..size'];
  }
}
