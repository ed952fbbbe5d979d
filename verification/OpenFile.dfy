/** An open file (FILE_STRUCT and the FAT_read, FAT_write, FAT_seek and FAT_ftruncate functions
    of modules/libfat/fatfile.c). `others` are the chains of everything else on the partition. */
module OpenFile {
  import opened Arith
  import opened Bytes
  import opened CachePages
  import opened CacheRecency
  import opened FatTable
  import opened Chains
  import opened DataRegion
  import opened FileModel
  import opened FileRead
  import opened WriteModel
  import opened FileWrite
  import opened FileExtend
  import opened FileSeek
  import opened FileSpec
  import P = Partition

  datatype Whence = FromStart | FromCurrent | FromEnd

  /** The table holds the file's chain, if it has one, and the other chains. */
  ghost predicate Allocated(g: Geometry, v: seq<byte>, others: set<seq<nat>>, start: nat, ch: seq<nat>) {
    if ch == [] then ValidGeometry(g) && IsImage(g, v) && start == CLUSTER_FREE && Forest(Table(g, v), others)
    else start == ch[0] && Owns(g, v, others, ch)
  }

  /** A cluster, sector and byte for position `p`. */
  ghost predicate Denotes(g: Geometry, ch: seq<nat>, pos: FilePosition, p: nat) {
    && (pos.sector == g.sectorsPerCluster ==> pos.byte == 0)
    && exists k :: PosAt(g, ch, pos, k, p)
  }

  ghost predicate PlaceIn(g: Geometry, ch: seq<nat>, pos: FilePosition, size: nat) {
    ch != [] ==> exists q: nat :: q <= size && Denotes(g, ch, pos, q)
  }

  /** How much of a read is there to be had. */
  function Available(size: nat, position: nat, len: nat): nat {
    if position >= size then 0 else if len > size - position then size - position else len
  }

  /** The clamp of a read with its 32-bit sum. */
  function ClampedLength(size: nat, position: nat, len: nat): int {
    if Sum32(len, position) > size then size - position else len
  }

  /** A sum of two numbers as a 32-bit word holds it. */
  function Sum32(a: int, b: int): (r: nat)
    ensures r <= FILE_MAX_SIZE
  {
    (a + b) % WORD
  }

  lemma SumFits(a: nat, b: nat)
    ensures a + b < WORD ==> Sum32(a, b) == a + b
  {
  }

  lemma ClampCases(size: nat, position: nat, len: nat)
    requires position < size < WORD && 0 < len < WORD
    ensures ClampedLength(size, position, len)
            == if Wraps(size, position, len) then len else Available(size, position, len)
  {
    if len + position >= WORD { DivModUnique(len + position, WORD, 1, len + position - WORD); }
  }

  /** Length and position together do not fit into 32 bits, and there is something to read. */
  predicate Wraps(size: nat, position: nat, len: nat) { len > 0 && position < size && len + position >= WORD }

  /** `data` is what `b` has from `at` on. */
  ghost predicate PartOf(b: seq<byte>, at: nat, data: seq<byte>) { at + |data| <= |b| && data == Slice(b, at, |data|) }

  function Smaller(a: nat, b: int): int { if a <= b then a else b }

  /** It is right exactly if the sum does not wrap around. */
  lemma ClampRightIffNoWrap(size: nat, position: nat, len: nat)
    requires position < size < WORD && len < WORD
    ensures ClampedLength(size, position, len) == Available(size, position, len) <==> len + position < WORD
  {
    if len + position >= WORD {
      DivModUnique(len + position, WORD, 1, len + position - WORD);
    }
  }

  /** A file with no chain or one in which every position up to the size lies. */
  ghost predicate Fits(g: Geometry, ch: seq<nat>, size: nat) { size <= FILE_MAX_SIZE && size <= Chunk(g, |ch|) }

  lemma AllocatedFacts(part: P.Partition, others: set<seq<nat>>, start: nat, ch: seq<nat>)
    requires part.Valid() && Allocated(part.geometry, part.cache.view, others, start, ch)
    ensures ch == [] ==> start == CLUSTER_FREE
    ensures ch != [] ==> Held(part, others, ch) && start == ch[0] && ChainIn(part, ch) && AllClusters(part.geometry, ch)
                         && IsCluster(part.geometry, start) && start != CLUSTER_FREE
    ensures Chunk(part.geometry, 0) == 0
  {
    ChunkStep(part.geometry, 0);
    if ch != [] { OwnsChain(part.geometry, part.cache.view, others, ch); }
  }

  /** What a write of `room` bytes at `at` stores: as much as the clusters that the file has or can
      have will hold. It is refused if the place is behind them, or if there are none. */
  function WriteCount(capacity: nat, at: nat, room: nat): int {
    if capacity == 0 || at > capacity then -1 else if room <= capacity - at then room else capacity - at
  }

  /** The place where an append position is put: in the last cluster, past it if that is full. */
  function AppendAt(g: Geometry, last: nat, size: nat): FilePosition
    requires BytesPerCluster(g) > 0 && g.bytesPerSector > 0
  {
    var pos := EndPosition(g, last, size);
    if size > 0 && size % BytesPerCluster(g) == 0 then pos.(sector := g.sectorsPerCluster, byte := 0) else pos
  }

  class File {
    const part: P.Partition
    var filesize: nat
    var startCluster: nat
    var currentPosition: nat
    var rwPosition: FilePosition
    var appendPosition: FilePosition
    var read: bool
    var write: bool
    var append: bool
    var inUse: bool
    var modified: bool
    ghost var chain: seq<nat>

    /** The chain is in the table and starts at the start cluster. */
    ghost predicate Linked(others: set<seq<nat>>)
      reads this, part, part.cache, part.cache.entries, part.cache.disc
    {
      part.Valid() && Allocated(part.geometry, part.cache.view, others, startCluster, chain)
    }

    ghost predicate Valid(others: set<seq<nat>>)
      reads this, part, part.cache, part.cache.entries, part.cache.disc
    {
      && Linked(others)
      && Fits(part.geometry, chain, filesize) && currentPosition <= FILE_MAX_SIZE
      && (append && chain != [] ==> Denotes(part.geometry, chain, appendPosition, End()))
    }

    /** Where in its chain the end of the file is taken to be; right exactly if no cluster is superfluous. */
    ghost function End(): nat
      reads this, part
    {
      EndIn(part.geometry, |chain|, filesize)
    }

    /** The zeros that the next write stores first. */
    ghost function Gap(): nat
      reads this
    {
      if !append && currentPosition > filesize then currentPosition - filesize else 0
    }

    /** Where in the chain the next write stores its data. */
    ghost function Place(): nat
      reads this, part
    {
      if append || currentPosition > filesize then End() + Gap() else currentPosition
    }

    /** Where in the file the next write is to store its data. */
    ghost function Start(): nat
      reads this
    {
      if append then filesize else currentPosition
    }

    /** The next write stores at the wrong place: it goes by the end of a file that has superfluous clusters. */
    ghost predicate Misplaces()
      reads this, part
    {
      (append || currentPosition > filesize) && !Snug(part.geometry, chain, filesize)
    }

    /** The bytes of the file after `data` is stored where its end is taken to be, and it has become that much
        longer. */
    ghost function Grown(data: seq<byte>): seq<byte>
      reads this, part, part.cache
    {
      if Snug(part.geometry, chain, filesize) then WriteAt(Contents(), filesize, data)
      else CutWrite(ChainBytes(), End(), data, filesize + |data|)
    }

    /** The saved cluster, sector and byte are those of the current position, unless that lies
        past the end. */
    ghost predicate Placed()
      reads this, part
    {
      chain != [] && currentPosition <= filesize ==> Denotes(part.geometry, chain, rwPosition, currentPosition)
    }

    /** The saved sector is inside its cluster wherever there is something to read. */
    ghost predicate Settled()
      reads this, part
    {
      chain != [] && currentPosition < filesize ==> rwPosition.sector < part.geometry.sectorsPerCluster
    }

    /** The saved place is one of a byte of the file or its end, if perhaps not of the current position. */
    ghost predicate PlaceInside()
      reads this, part
    {
      PlaceIn(part.geometry, chain, rwPosition, filesize)
    }

    /** The bytes that the clusters of the file and all free clusters hold. */
    ghost function Capacity(): nat
      reads this, part, part.cache
    {
      Chunk(part.geometry, |chain| + FreeCount(part.geometry, part.cache.view))
    }

    /** The bytes of the file's clusters, those behind its end included. */
    ghost function ChainBytes(): seq<byte>
      reads this, part, part.cache
    {
      ContentsOf(part.geometry, part.cache.view, chain, Chunk(part.geometry, |chain|))
    }

    /** The bytes of the file. */
    ghost function Contents(): seq<byte>
      reads this, part, part.cache
    {
      ContentsOf(part.geometry, part.cache.view, chain, filesize)
    }

    /** The bytes of the file after the next write has stored `data`. */
    ghost function Written(data: seq<byte>): seq<byte>
      reads this, part, part.cache
    {
      if Misplaces() then Grown(Zeros(Gap()) + data) else WriteAt(Contents(), Start(), data)
    }

    constructor (part: P.Partition)
      ensures this.part == part && !inUse
    {
      this.part := part;
      startCluster, filesize, currentPosition, chain := CLUSTER_FREE, 0, 0, [];
      modified, inUse, read, write, append := false, false, false, false, false;
      rwPosition, appendPosition := FilePosition(0, 0, 0), FilePosition(0, 0, 0);
    }

    /** Frees all clusters of the file. */
    method DropClusters(ghost others: set<seq<nat>>)
      requires Linked(others) && chain != []
      modifies this`startCluster, this`chain, part`firstFree, part`numberFreeCluster, part.cache, part.cache.entries
      modifies part.cache.disc
      ensures Linked(others) && chain == [] && startCluster == CLUSTER_FREE
      ensures OthersKept(part.geometry, old(part.cache.view), part.cache.view, others)
    {
      hide ValidGeometry, Chunk, Coherent, Recent, AllClusters, Table, IsChain, Owns, OthersKept, SameOutsideFat;
      AllocatedFacts(part, others, startCluster, chain);
      ClearFreesAll(part, others, chain);
      ghost var v := part.cache.view;
      var ok := part.ClearLinks(startCluster);
      FatOthers(part.geometry, v, part.cache.view, others);
      startCluster, chain := CLUSTER_FREE, [];
    }

    /** The state after a directory entry with this start cluster and size was opened. */
    method Open(startCluster: nat, filesize: nat, reading: bool, writing: bool, truncating: bool, appending: bool,
                ghost others: set<seq<nat>>, ghost ch: seq<nat>)
      requires part.Valid() && Allocated(part.geometry, part.cache.view, others, startCluster, ch)
      requires Fits(part.geometry, ch, filesize)
      modifies this, part`firstFree, part`numberFreeCluster, part.cache, part.cache.entries, part.cache.disc
      ensures Valid(others) && Placed() && Settled() && PlaceInside()
      ensures Snug(part.geometry, ch, filesize) ==> Snug(part.geometry, chain, this.filesize)
      ensures read == reading && write == writing && append == appending && inUse && currentPosition == 0
      ensures OthersKept(part.geometry, old(part.cache.view), part.cache.view, others)
      ensures if truncating && writing && ch != [] then chain == [] && this.filesize == 0
              else chain == ch && this.filesize == filesize && part.cache.view == old(part.cache.view)
                   && part.firstFree == old(part.firstFree)
    {
      hide Allocated, ValidGeometry, Chunk, Coherent, Recent, AllClusters, Table, IsChain, BytesPerCluster, ContentsOf,
        OthersKept, Fits, Snug, Denotes, EndIn, PlaceIn;
      read, write, append, inUse, modified := reading, writing, appending, true, false;
      this.startCluster, this.filesize, chain := startCluster, filesize, ch;
      EmptyFits(part.geometry);
      TruncateOnOpen(truncating, others);
      SetPositions(others);
    }

    /** An open that truncates frees all clusters. */
    method TruncateOnOpen(truncating: bool, ghost others: set<seq<nat>>)
      requires Linked(others) && Fits(part.geometry, chain, filesize)
      modifies this`startCluster, this`filesize, this`modified, this`chain
      modifies part`firstFree, part`numberFreeCluster, part.cache, part.cache.entries, part.cache.disc
      ensures Linked(others) && Fits(part.geometry, chain, filesize)
      ensures OthersKept(part.geometry, old(part.cache.view), part.cache.view, others)
      ensures if truncating && write && old(chain) != [] then chain == [] && filesize == 0
              else chain == old(chain) && filesize == old(filesize) && part.cache.view == old(part.cache.view)
                   && part.firstFree == old(part.firstFree)
    {
      hide Allocated, ValidGeometry, Chunk, Coherent, Recent, AllClusters, Table, IsChain, BytesPerCluster, OthersKept,
        Fits;
      AllocatedFacts(part, others, startCluster, chain);
      OthersSame(part.geometry, part.cache.view, others);
      EmptyFits(part.geometry);
      if truncating && write && startCluster != CLUSTER_FREE {
        DropClusters(others);
        filesize := 0;
        modified := true;
      }
    }

    /** The position is the start of the file; appending starts at its end. */
    method SetPositions(ghost others: set<seq<nat>>)
      requires Linked(others) && Fits(part.geometry, chain, filesize)
      modifies this`currentPosition, this`rwPosition, this`appendPosition
      modifies part.cache`accessCounter, part.cache`ticks, part.cache`touched, part.cache.entries, part.cache.disc
      ensures Valid(others) && Placed() && Settled() && PlaceInside() && currentPosition == 0
    {
      hide Allocated, ValidGeometry, Chunk, Coherent, Recent, AllClusters, Table, IsChain, BytesPerCluster, Fits, Snug,
        Denotes;
      AllocatedFacts(part, others, startCluster, chain);
      currentPosition := 0;
      rwPosition := FilePosition(startCluster, 0, 0);
      if chain != [] { StartDenotes(part, others, chain); }
      if append {
        appendPosition := AppendPlace(part, startCluster, filesize, others, chain);
      } else {
        appendPosition := rwPosition;
      }
    }

    /** Reads at the current position. What is read is what the file holds there, except that
        less than a sector read from a position that is not settled comes from the sector that
        follows the cluster on the disc. If length and position together wrap around, bytes of the chain
        behind the end of the file are read, as many as there are. */
    method Read(len: nat, ghost others: set<seq<nat>>) returns (ret: int, data: seq<byte>)
      requires Valid(others) && Placed()
      requires len > 0 && inUse && read ==>
                 && len <= FILE_MAX_SIZE
                 && (Settled() || Available(filesize, currentPosition, len) >= part.geometry.bytesPerSector
                     || ClusterToSector(part.geometry, rwPosition.cluster)
                        + part.geometry.sectorsPerCluster < part.geometry.endOfPartition)
      modifies this`rwPosition, this`currentPosition
      modifies part.cache`accessCounter, part.cache`ticks, part.cache`touched, part.cache.entries, part.cache.disc
      ensures Valid(others)
      ensures len > 0 && !(inUse && read) ==> ret == -1
      ensures |data| == if ret < 0 then 0 else ret
      ensures ret <= 0 ==> rwPosition == old(rwPosition) && currentPosition == old(currentPosition)
      ensures !Wraps(filesize, old(currentPosition), len) ==>
                && Placed() && (ret > 0 ==> Settled()) && (old(PlaceInside()) ==> PlaceInside())
                && (len == 0 || (inUse && read) ==> ret == Available(filesize, old(currentPosition), len))
                && currentPosition == old(currentPosition) + |data|
                && (ret > 0 && (old(Settled()) || ret >= part.geometry.bytesPerSector) ==>
                     PartOf(Contents(), old(currentPosition), data))
      ensures inUse && read && len > 0 && !Wraps(filesize, old(currentPosition), len) ==>
                |data| <= len && (|data| == len || currentPosition >= filesize)
      ensures Wraps(filesize, old(currentPosition), len) && inUse && read
              && (old(Settled()) || len >= part.geometry.bytesPerSector) ==>
                && ret == Smaller(len, Chunk(part.geometry, |chain|) - old(currentPosition)) > 0
                && currentPosition == Sum32(old(currentPosition), ret)
                   && PartOf(ChainBytes(), old(currentPosition), data)
      ensures ret > 0 && !old(Settled())
              && ClampedLength(filesize, old(currentPosition), len) < part.geometry.bytesPerSector ==>
                PartOf(part.cache.view, ClusterAddress(part.geometry, old(rwPosition).cluster)
                    + BytesPerCluster(part.geometry), data)
    {
      hide Allocated, ValidGeometry, Chunk, Coherent, Recent, BytesPerCluster, ClusterToSector, ClusterAddress,
        Denotes, ContentsOf, PlaceIn, PartOf, IsImage, ClampedLength, Sum32;
      data := [];
      StartOrNone(others);
      if len == 0 {
        return 0, [];
      }
      if !inUse || !read {
        return -1, [];
      }
      if currentPosition >= filesize || startCluster == CLUSTER_FREE {
        return 0, [];
      }
      data := ReadClamped(len, others);
      ret := |data|;
    }

    lemma StartOrNone(others: set<seq<nat>>)
      requires Valid(others)
      ensures startCluster == CLUSTER_FREE <==> chain == []
      ensures chain == [] ==> filesize == 0
    {
      AllocatedFacts(part, others, startCluster, chain);
    }

    /** A read of something, with the length cut at the end of the file. */
    method ReadClamped(len: nat, ghost others: set<seq<nat>>) returns (data: seq<byte>)
      requires Valid(others) && Placed() && chain != [] && 0 < len <= FILE_MAX_SIZE && currentPosition < filesize
      requires Settled() || Available(filesize, currentPosition, len) >= part.geometry.bytesPerSector
            || ClusterToSector(part.geometry, rwPosition.cluster)
               + part.geometry.sectorsPerCluster < part.geometry.endOfPartition
      modifies this`rwPosition, this`currentPosition
      modifies part.cache`accessCounter, part.cache`ticks, part.cache`touched, part.cache.entries, part.cache.disc
      ensures Valid(others) && data != []
      ensures !Wraps(filesize, old(currentPosition), len) ==>
                && Placed() && Settled() && PlaceInside()
                && |data| == Available(filesize, old(currentPosition), len)
                   && currentPosition == old(currentPosition) + |data|
                && (old(Settled()) || |data| >= part.geometry.bytesPerSector ==>
                     PartOf(Contents(), old(currentPosition), data))
      ensures Wraps(filesize, old(currentPosition), len) && (old(Settled()) || len >= part.geometry.bytesPerSector) ==>
                && |data| == Smaller(len, Chunk(part.geometry, |chain|) - old(currentPosition))
                && currentPosition == Sum32(old(currentPosition), |data|)
                   && PartOf(ChainBytes(), old(currentPosition), data)
      ensures !old(Settled()) && ClampedLength(filesize, old(currentPosition), len) < part.geometry.bytesPerSector ==>
                PartOf(part.cache.view, ClusterAddress(part.geometry, old(rwPosition).cluster)
                    + BytesPerCluster(part.geometry), data)
    {
      hide Allocated, ValidGeometry, Chunk, Coherent, Recent, BytesPerCluster, ClusterToSector, ClusterAddress,
        Denotes, ContentsOf, PlaceIn, PartOf, IsImage, ClampedLength, Sum32, Wraps;
      var n: int := ClampedLength(filesize, currentPosition, len);
      ClampCases(filesize, currentPosition, len);
      DenotesInside(part, chain, rwPosition, currentPosition, filesize);
      data := TakeBytes(n, others);
      SumFits(currentPosition, |data|);
      if !Wraps(filesize, currentPosition, len) {
        SameBytes(part, others, startCluster, chain, filesize, currentPosition, data);
        DenotesInside(part, chain, rwPosition, currentPosition + n, filesize);
      }
      currentPosition := Sum32(currentPosition, |data|);
    }

    /** Takes `n` bytes from the saved place on, or as many as the chain has, and moves the place. */
    method TakeBytes(n: nat, ghost others: set<seq<nat>>) returns (data: seq<byte>)
      requires Valid(others) && Placed() && chain != [] && currentPosition < filesize && n > 0
      requires PastCluster(part.geometry, rwPosition, n) ==>
                 ClusterToSector(part.geometry, rwPosition.cluster) + rwPosition.sector < part.geometry.endOfPartition
      modifies this`rwPosition
      modifies part.cache`accessCounter, part.cache`ticks, part.cache`touched, part.cache.entries, part.cache.disc
      ensures Linked(others)
      ensures currentPosition + n <= Chunk(part.geometry, |chain|) ==>
                Denotes(part.geometry, chain, rwPosition, currentPosition + n)
      ensures !PastCluster(part.geometry, old(rwPosition), n) ==>
                |data| == Smaller(n, Chunk(part.geometry, |chain|) - currentPosition) > 0
                    && PartOf(ChainBytes(), currentPosition, data)
      ensures PastCluster(part.geometry, old(rwPosition), n) ==>
                && |data| == n && currentPosition + n <= Chunk(part.geometry, |chain|)
                && PartOf(part.cache.view, ClusterAddress(part.geometry, old(rwPosition).cluster)
                   + BytesPerCluster(part.geometry), data)
      ensures currentPosition + n < Chunk(part.geometry, |chain|) ==>
                rwPosition.sector < part.geometry.sectorsPerCluster
    {
      hide Allocated, ValidGeometry, Chunk, Slice, Coherent, Recent, AllClusters, FlatOf, Table, IsChain,
        ClusterToSector, ClusterAddress, BytesPerCluster, PosAt, ContentsOf;
      AllocatedFacts(part, others, startCluster, chain);
      ghost var k :| PosAt(part.geometry, chain, rwPosition, k, currentPosition);
      SectorBound(part.geometry, chain, rwPosition, k, currentPosition);
      ghost var p := currentPosition;
      var position;
      ghost var k';
      data, position, k' := Fetch(part, rwPosition, n, chain, k, p);
      ReadFromChain(part, chain, p, if p + |data| <= Chunk(part.geometry, |chain|) then |data| else 0);
      if |data| == n { SectorBound(part.geometry, chain, position, k', p + n); }
      rwPosition := position;
    }

    lemma ContentsFacts(others: set<seq<nat>>)
      requires Valid(others)
      ensures |Contents()| == filesize
    {
      AllocatedFacts(part, others, startCluster, chain);
      ContentsSize(part.geometry, part.cache.view, chain, filesize);
    }

    /** Where a seek starts from. */
    function Base(whence: Whence): nat
      reads this
    {
      match whence case FromStart => 0 case FromCurrent => currentPosition case FromEnd => filesize
    }

    /** Moves the position. A saved place that still fits is not needed unless the new position
        lies at or behind the current one. */
    method Seek(offset: int, whence: Whence, ghost others: set<seq<nat>>) returns (ret: int)
      requires Valid(others) && -INT_LIMIT <= offset < INT_LIMIT
      requires var to := SeekTarget(Base(whence), offset);
               to.Absolute? && currentPosition <= to.position <= filesize ==> Placed()
      modifies this`rwPosition, this`currentPosition
      modifies part.cache`accessCounter, part.cache`ticks, part.cache`touched, part.cache.entries, part.cache.disc
      ensures Valid(others)
      ensures var to := SeekTarget(old(Base(whence)), offset);
              if inUse && to.Absolute? then ret == to.position == currentPosition && Placed() && Settled()
              else ret == -1 && currentPosition == old(currentPosition) && rwPosition == old(rwPosition)
      ensures var p := offset
                       + if whence.FromStart? then 0 else if whence.FromEnd? then filesize else old(currentPosition);
              && (inUse && 0 <= p < 0x8000_0000 ==> ret == p)
              && (p < 0 || 0x8000_0000 <= p < 0x1_0000_0000 ==> ret == -1)
      ensures old(PlaceInside()) ==> PlaceInside()
      ensures ret >= 0 && chain != [] && ret <= filesize ==>
                && BytesPerCluster(part.geometry) > 0 && part.geometry.bytesPerSector > 0
                   && ret <= Chunk(part.geometry, |chain|)
                && rwPosition == WalkFromStart(part.geometry, chain, ret)
    {
      hide Allocated, ValidGeometry, Chunk, Coherent, Recent, AllClusters, Table, IsChain, BytesPerCluster, PosAt;
      if !inUse {
        return -1;
      }
      var to := SeekTarget(Base(whence), offset);
      SeekTargetExact(Base(whence), offset);
      if to.BadOffset? {
        return -1;
      }
      var position := to.position;
      AllocatedFacts(part, others, startCluster, chain);
      if position <= filesize && startCluster != CLUSTER_FREE {
        ghost var k: nat := 0;
        if position >= currentPosition {
          k :| PosAt(part.geometry, chain, rwPosition, k, currentPosition);
        }
        var ok, pos := Locate(part, startCluster, filesize, currentPosition, rwPosition, position, chain, k);
        WalkArrives(part.geometry, chain, position);
        rwPosition := pos;
      }
      currentPosition := position;
      ret := position;
    }

    /** The file has a chain. */
    ghost predicate Started(others: set<seq<nat>>)
      reads this, part, part.cache, part.cache.entries, part.cache.disc
    {
      chain != [] && startCluster == chain[0] && Held(part, others, chain)
    }

    ghost predicate CanAllocate()
      reads part, part.cache`view
    {
      Searchable(part.geometry, part.cache.view, part.firstFree)
    }

    ghost predicate NoneFree()
      reads part, part.cache`view
    {
      Full(part.geometry, part.cache.view)
    }

    /** Writes at the append position, which moves with the end of the file. */
    method Append(src: seq<byte>, ghost others: set<seq<nat>>) returns (n: nat)
      requires Started(others) && CanAllocate() && Fits(part.geometry, chain, filesize)
      requires Denotes(part.geometry, chain, appendPosition, End())
      requires 0 < |src| <= FILE_MAX_SIZE - filesize
      modifies this`appendPosition, this`filesize, this`modified, this`chain, part, part.cache, part.cache.entries
      modifies part.cache.disc
      ensures Started(others) && Fits(part.geometry, chain, filesize) && old(chain) <= chain
      ensures Denotes(part.geometry, chain, appendPosition, End())
      ensures n <= |src| && filesize == old(filesize) + n && End() == old(End()) + n <= Chunk(part.geometry, |chain|)
      ensures if n < |src| then NoneFree() && End() == Chunk(part.geometry, |chain|) else CanAllocate()
      ensures Contents() == old(Grown(First(src, n)))
      ensures OthersKept(part.geometry, old(part.cache.view), part.cache.view, others)
      ensures AsNeeded(part.geometry, old(chain), chain, old(End()) + n)
    {
      hide Held, Searchable, Full, OthersKept, ContentsOf, Denotes, Snug, Wrote, EndIn, Chunk, CutWrite, AsNeeded;
      StartedFacts(others);
      ghost var v, ch0, size0, bytes := part.cache.view, chain, filesize, Contents();
      var position;
      ghost var ch, slack;
      n, position, ch, slack := Store(part, src, appendPosition, true, others, chain, End());
      StoredBehind(part.geometry, v, ch0, part.cache.view, ch, size0, src[..n], slack);
      StillAtEnd(part.geometry, ch0, ch, size0, n);
      appendPosition, filesize, modified, chain := position, filesize + n, true, ch;
    }

    /** Writes at the current position, which is not past the end. */
    method Overwrite(src: seq<byte>, ghost others: set<seq<nat>>) returns (n: nat)
      requires Started(others) && CanAllocate() && Fits(part.geometry, chain, filesize)
      requires currentPosition <= filesize && Denotes(part.geometry, chain, rwPosition, currentPosition)
      requires 0 < |src| <= FILE_MAX_SIZE - currentPosition
      modifies this`rwPosition, this`currentPosition, this`filesize, this`modified, this`chain
      modifies part, part.cache, part.cache.entries, part.cache.disc
      ensures Started(others) && Fits(part.geometry, chain, filesize) && old(chain) <= chain
      ensures currentPosition <= filesize && Denotes(part.geometry, chain, rwPosition, currentPosition)
      ensures n <= |src| && currentPosition == old(currentPosition) + n
              && filesize == Larger(old(filesize), currentPosition)
      ensures if n < |src| then NoneFree() && currentPosition == Chunk(part.geometry, |chain|) else CanAllocate()
      ensures n > 0 ==> !AtStart(rwPosition)
      ensures Contents() == WriteAt(old(Contents()), old(currentPosition), First(src, n))
      ensures OthersKept(part.geometry, old(part.cache.view), part.cache.view, others)
      ensures AsNeeded(part.geometry, old(chain), chain, old(currentPosition) + n)
    {
      hide Held, Searchable, Full, OthersKept, ContentsOf, Denotes, Snug, Wrote, Chunk, AsNeeded;
      StartedFacts(others);
      ghost var v, ch0, size0, p := part.cache.view, chain, filesize, currentPosition;
      var position;
      ghost var ch, slack;
      var appending := currentPosition + |src| > filesize;
      n, position, ch, slack := Store(part, src, rwPosition, appending, others, chain, currentPosition);
      StoredInside(part.geometry, v, ch0, part.cache.view, ch, size0, p, src[..n], slack);
      modified, rwPosition, chain := true, position, ch;
      currentPosition := currentPosition + n;
      if filesize < currentPosition {
        filesize := currentPosition;
      }
    }

    /** Gives a file that has no cluster its first one. */
    method StartFile(ghost others: set<seq<nat>>) returns (ok: bool)
      requires Linked(others) && chain == [] && filesize == 0 && CanAllocate()
      modifies this`startCluster, this`rwPosition, this`chain, part, part.cache, part.cache.entries, part.cache.disc
      ensures Linked(others) && OthersKept(part.geometry, old(part.cache.view), part.cache.view, others)
      ensures ok ==>
                Started(others) && CanAllocate() && chain == [startCluster]
                && rwPosition == FilePosition(startCluster, 0, 0)
      ensures !ok ==>
                NoneFree() && chain == [] && rwPosition == old(rwPosition) && part.cache.view == old(part.cache.view)
    {
      hide ValidGeometry, Owns, Coherent, Recent, Searchable, Full, OthersKept, Table, Forest;
      var start;
      ok, start := StartChain(part, others);
      if ok {
        startCluster, chain := start, [start];
        rwPosition := FilePosition(start, 0, 0);
      }
    }

    /** The same with both positions at that cluster. */
    method StartWriting(ghost others: set<seq<nat>>) returns (ok: bool)
      requires Valid(others) && chain == [] && CanAllocate()
      modifies this`startCluster, this`rwPosition, this`appendPosition, this`chain, part, part.cache
      modifies part.cache.entries, part.cache.disc
      ensures Valid(others) && Placed() && Contents() == [] == old(Contents()) && filesize == 0
      ensures chain != [] ==> Denotes(part.geometry, chain, rwPosition, 0)
      ensures OthersKept(part.geometry, old(part.cache.view), part.cache.view, others)
      ensures if ok then Started(others) && CanAllocate() && Snug(part.geometry, chain, filesize) && |chain| == 1
                      && (append ==> Denotes(part.geometry, chain, appendPosition, End()))
              else NoneFree() && chain == []
    {
      hide Owns, Allocated, Held, ValidGeometry, Coherent, Recent, Searchable, Full, OthersKept, Table, Forest, Chunk,
        ContentsOf, Snug, Denotes, PosAt, EndIn;
      AllocatedFacts(part, others, startCluster, chain);
      ContentsFacts(others);
      ok := StartFile(others);
      if ok {
        appendPosition := rwPosition;
        StartDenotes(part, others, chain);
        EmptyContents(others);
        EndOfOne(part.geometry);
      } else {
        ContentsFacts(others);
      }
    }

    /** The rest of a write, once the file has a cluster. */
    method WriteStarted(src: seq<byte>, ghost others: set<seq<nat>>) returns (ret: int)
      requires Started(others) && CanAllocate() && Fits(part.geometry, chain, filesize)
      requires append ==> Denotes(part.geometry, chain, appendPosition, End())
      requires Placed() && currentPosition <= FILE_MAX_SIZE && 0 < |src| <= FILE_MAX_SIZE - filesize
      requires !append && currentPosition > filesize ==> currentPosition + |src| <= FILE_MAX_SIZE
      modifies this`rwPosition, this`currentPosition, this`appendPosition, this`filesize, this`modified, this`chain
      modifies part, part.cache, part.cache.entries, part.cache.disc
      ensures Started(others) && Fits(part.geometry, chain, filesize) && currentPosition <= FILE_MAX_SIZE
      ensures append ==> Denotes(part.geometry, chain, appendPosition, End()) && rwPosition == old(rwPosition)
      ensures append && !(old(filesize) < currentPosition <= filesize) ==> Placed()
      ensures !append ==> (Placed() <==> !(ret >= 0 && old(Misplaces())))
      ensures !append && ret > 0 ==> currentPosition == filesize || !AtStart(rwPosition)
      ensures OthersKept(part.geometry, old(part.cache.view), part.cache.view, others)
      ensures append == old(append) && old(chain) <= chain
      ensures ret <= |src| && if ret < |src| then NoneFree() else CanAllocate()
      ensures ret < 0 ==>
                && ret == -1 && !append && Chunk(part.geometry, |chain|) < old(Place())
                && filesize == old(filesize) && currentPosition == old(currentPosition)
      ensures 0 <= ret < |src| ==> Chunk(part.geometry, |chain|) == old(Place()) + ret
      ensures ret >= 0 ==>
                && filesize == Larger(old(filesize), old(Start()) + ret)
                && currentPosition == old(currentPosition) + (if append then 0 else ret)
                && old(Place()) + ret <= Chunk(part.geometry, |chain|)
                && AsNeeded(part.geometry, old(chain), chain, old(Place()) + ret)
      ensures Contents() == if ret < 0 then old(Contents()) else old(Written(First(src, ret)))
    {
      hide Held, ValidGeometry, Coherent, Recent, Searchable, Full, OthersKept, Table, Chunk, ContentsOf, Snug,
        Denotes, PosAt, CutWrite, EndIn, AsNeeded, WriteAt;
      StartedFacts(others);
      if append {
        ret := Append(src, others);
        if currentPosition <= old(filesize) {
          DenotesGrow(part.geometry, old(chain), chain, rwPosition, currentPosition);
        }
        assert Zeros(0) + src[..ret] == src[..ret];
      } else if currentPosition > filesize {
        ret := ExtendThenWrite(src, others);
      } else {
        ret := Overwrite(src, others);
        StartedFacts(others);
      }
    }

    /** Writing past the end: the gap becomes zeros. If the clusters run out before the position is
        reached the file is as before, but its chain may have grown. */
    method ExtendThenWrite(src: seq<byte>, ghost others: set<seq<nat>>) returns (ret: int)
      requires Started(others) && CanAllocate() && Fits(part.geometry, chain, filesize)
      requires filesize < currentPosition && 0 < |src| && currentPosition + |src| <= FILE_MAX_SIZE && !append
      modifies this`rwPosition, this`currentPosition, this`filesize, this`modified, this`chain
      modifies part, part.cache, part.cache.entries, part.cache.disc
      ensures Started(others) && Fits(part.geometry, chain, filesize) && old(chain) <= chain
      ensures Placed() <==> !(ret >= 0 && old(Misplaces()))
      ensures OthersKept(part.geometry, old(part.cache.view), part.cache.view, others)
      ensures ret <= |src| && if ret < |src| then NoneFree() else CanAllocate()
      ensures ret < 0 ==>
                && ret == -1 && Chunk(part.geometry, |chain|) < old(Place())
                && filesize == old(filesize) && currentPosition == old(currentPosition)
      ensures 0 <= ret < |src| ==> Chunk(part.geometry, |chain|) == old(Place()) + ret
      ensures ret >= 0 ==>
                && filesize == currentPosition == old(currentPosition) + ret
                && old(Place()) + ret <= Chunk(part.geometry, |chain|)
                && AsNeeded(part.geometry, old(chain), chain, old(Place()) + ret)
      ensures Contents() == if ret < 0 then old(Contents()) else old(Written(First(src, ret)))
    {
      hide Held, ValidGeometry, Coherent, Recent, Searchable, Full, OthersKept, Table, Chunk, ContentsOf, Snug,
        Denotes, PosAt, WriteAt, Wrote, EndIn, AsNeeded, CutWrite;
      StartedFacts(others);
      ghost var g, v, ch0, size0, p, end := part.geometry, part.cache.view, chain, filesize, currentPosition, End();
      var ok, position, n;
      ghost var ch1, ch, slack;
      ok, position, ch1 := Grow(part, startCluster, filesize, currentPosition, others, chain);
      chain := ch1;
      if !ok {
        return -1;
      }
      ghost var v1 := part.cache.view;
      n, position, ch, slack := Store(part, src, position, true, others, chain, end + (p - size0));
      OthersKeptThen(g, v, v1, part.cache.view, others);
      ThenStored(g, v, ch0, v1, ch1, part.cache.view, ch, size0, p, src[..n], slack);
      ret, rwPosition, chain := n, position, ch;
      currentPosition := currentPosition + n;
      filesize := currentPosition;
      OnlyThere(others, rwPosition, end + (p - size0) + n, currentPosition);
    }

    /** What the computed end is for a file with or without a chain. */
    lemma EndFacts(others: set<seq<nat>>)
      requires Linked(others) && Fits(part.geometry, chain, filesize)
      ensures |Contents()| == filesize <= End()
      ensures End() == filesize <==> Snug(part.geometry, chain, filesize)
      ensures chain == [] ==> filesize == 0
    {
      hide EndIn, Snug, EndAt;
      AllocatedFacts(part, others, startCluster, chain);
      ContentsSize(part.geometry, part.cache.view, chain, filesize);
      if chain == [] {
        EndOfOne(part.geometry);
      } else {
        EndPlace(part.geometry, chain, filesize);
      }
    }

    /** What follows from the file having a chain. */
    lemma StartedFacts(others: set<seq<nat>>)
      requires Started(others) && Fits(part.geometry, chain, filesize)
      ensures |Contents()| == filesize && ValidGeometry(part.geometry) && |chain| > 0
      ensures filesize <= End() <= Chunk(part.geometry, |chain|)
      ensures End() == filesize <==> Snug(part.geometry, chain, filesize)
    {
      hide EndIn, Snug, EndAt;
      HeldFacts(part, others, chain);
      EndPlace(part.geometry, chain, filesize);
      ContentsSize(part.geometry, part.cache.view, chain, filesize);
    }

    /** A place in the chain is that of one position only. */
    lemma OnlyThere(others: set<seq<nat>>, pos: FilePosition, p: nat, q: nat)
      requires Started(others) && Denotes(part.geometry, chain, pos, p)
      ensures Denotes(part.geometry, chain, pos, q) <==> p == q
    {
      hide Denotes;
      HeldFacts(part, others, chain);
      if Denotes(part.geometry, chain, pos, q) { DenotesOne(part.geometry, chain, pos, p, q); }
    }

    /** A write of some bytes that the size limit admits. */
    method WriteSome(src: seq<byte>, ghost others: set<seq<nat>>) returns (ret: int)
      requires Valid(others) && Placed() && CanAllocate() && 0 < |src| <= FILE_MAX_SIZE - filesize
      requires !append && currentPosition > filesize ==> currentPosition + |src| <= FILE_MAX_SIZE
      modifies this`startCluster, this`rwPosition, this`currentPosition, this`appendPosition, this`filesize
      modifies this`modified, this`chain
      modifies part, part.cache, part.cache.entries, part.cache.disc
      ensures Valid(others) && OthersKept(part.geometry, old(part.cache.view), part.cache.view, others)
      ensures append && !(old(filesize) < currentPosition <= filesize) ==> Placed()
      ensures append && old(PlaceInside()) ==> PlaceIn(part.geometry, chain, rwPosition, old(filesize))
      ensures !append ==> (Placed() <==> !(ret >= 0 && old(Misplaces())))
      ensures !append && ret > 0 ==> currentPosition == filesize || !AtStart(rwPosition)
      ensures Capacity() == old(Capacity()) && old(chain) <= chain
      ensures ret == WriteCount(old(Capacity()), old(Place()), |src|)
      ensures 0 <= ret < |src| ==> Chunk(part.geometry, |chain|) == old(Place()) + ret
      ensures ret <= |src| && if ret < |src| then NoneFree() else CanAllocate()
      ensures ret < 0 ==> ret == -1 && filesize == old(filesize) && currentPosition == old(currentPosition)
      ensures ret >= 0 ==>
                && filesize == Larger(old(filesize), old(Start()) + ret)
                && currentPosition == old(currentPosition) + (if append then 0 else ret)
                && AsNeeded(part.geometry, old(chain), chain, old(Place()) + ret)
      ensures Contents() == if ret < 0 then old(Contents()) else old(Written(First(src, ret)))
    {
      hide Owns, Allocated, Held, ValidGeometry, Coherent, Recent, Searchable, Full, OthersKept, Table, Forest, Chunk,
        ContentsOf, Snug, Denotes, PosAt, WriteAt, CutWrite, EndIn, AsNeeded, Grown, First, WriteCount, FreeCount,
        BytesPerCluster, AtStart, Slice;
      ghost var v0, start0, ch0 := part.cache.view, startCluster, chain;
      AllocatedFacts(part, others, startCluster, chain);
      OthersSame(part.geometry, part.cache.view, others);
      EndOfOne(part.geometry);
      if startCluster == CLUSTER_FREE {
        var ok := StartWriting(others);
        if !ok {
          CapacityKept(part.geometry, v0, part.cache.view, others, start0, startCluster, ch0, chain);
          CountIs(others, -1, old(Place()), |src|);
          return -1;
        }
      }
      ghost var v, inside, ch1, size1 := part.cache.view, PlaceInside(), chain, filesize;
      ret := WriteStarted(src, others);
      StartedLinked(others);
      OthersKeptThen(part.geometry, old(part.cache.view), v, part.cache.view, others);
      CapacityKept(part.geometry, v0, part.cache.view, others, start0, startCluster, ch0, chain);
      CountIs(others, ret, old(Place()), |src|);
      if append && inside { PlaceInMore(part.geometry, ch1, chain, rwPosition, size1); }
      if ret >= 0 && ch0 == [] { FirstAsNeeded(part, others, ch1, chain, old(Place()) + ret); }
    }

    /** Writes at the end in append mode and at the current position otherwise. The count returned
        is exactly the number of bytes that reached the file, and exactly as many do as the clusters of the
        file and the free clusters hold; a short write leaves the chain full and the position at the
        end. A write that ends between two clusters inside the file leaves the place past the end of the
        first one. Appending loses the place of the current position exactly if it lay beyond the end
        and no longer does. If the file has superfluous clusters, what is written at or past its end goes to the
        wrong place. */
    method Write(src: seq<byte>, ghost others: set<seq<nat>>) returns (ret: int)
      requires Valid(others) && Placed() && CanAllocate() && |src| <= FILE_MAX_SIZE
      requires !append && currentPosition > filesize ==> currentPosition + |src| <= FILE_MAX_SIZE
      modifies this, part, part.cache, part.cache.entries, part.cache.disc
      ensures Valid(others) && OthersKept(part.geometry, old(part.cache.view), part.cache.view, others)
      ensures append && !(old(filesize) < currentPosition <= filesize) ==> Placed()
      ensures !append ==>
                (Placed() <==> !(ret >= 0 && inUse && write && Room(old(filesize), |src|) > 0 && old(Misplaces())))
      ensures append && old(PlaceInside()) ==>
                PlaceInside() && (Placed() <==> !(old(filesize) < currentPosition <= filesize))
      ensures !append && ret > 0 ==>
                (Settled() <==> currentPosition == filesize || !OnEdge(part.geometry, currentPosition))
      ensures Capacity() == old(Capacity())
      ensures inUse && write && Room(old(filesize), |src|) > 0 ==>
                ret == WriteCount(old(Capacity()), old(Place()), Room(old(filesize), |src|))
      ensures 0 <= ret < Room(old(filesize), |src|) && inUse && write ==>
                Chunk(part.geometry, |chain|) == old(Place()) + ret && filesize == old(Start()) + ret
      ensures !(inUse && write) || Room(old(filesize), |src|) == 0 ==>
                rwPosition == old(rwPosition) && chain == old(chain)
      ensures read == old(read) && write == old(write) && append == old(append) && inUse == old(inUse)
      ensures !(inUse && write) ==> ret == -1
      ensures ret < 0 || Room(old(filesize), |src|) == 0 ==>
                ret <= 0 && filesize == old(filesize) && currentPosition == old(currentPosition)
      ensures ret <= Room(old(filesize), |src|) <= |src|
      ensures inUse && write && Room(old(filesize), |src|) == 0 ==> ret == 0
      ensures inUse && write ==> if ret < Room(old(filesize), |src|) then NoneFree() else CanAllocate()
      ensures ret >= 0 && Room(old(filesize), |src|) > 0 ==>
                && filesize == Larger(old(filesize), old(Start()) + ret)
                && currentPosition == old(currentPosition) + (if append then 0 else ret)
      ensures old(chain) <= chain
      ensures ret >= 0 ==>
                || chain == old(chain)
                || (Room(old(filesize), |src|) > 0 && AsNeeded(part.geometry, old(chain), chain, old(Place()) + ret))
      ensures ret >= 0 && old(Snug(part.geometry, chain, filesize)) ==> Snug(part.geometry, chain, filesize)
      ensures Contents() == if ret < 0 || Room(old(filesize), |src|) == 0 then old(Contents())
                            else old(Written(First(src, ret)))
    {
      hide Owns, Allocated, Held, ValidGeometry, Coherent, Recent, Searchable, Full, OthersKept, Table, Forest, Chunk,
        ContentsOf, Snug, Denotes, PosAt, WriteAt, CutWrite, EndIn, AsNeeded, Grown, Written, PlaceIn, Room,
        First, WriteCount, FreeCount, AtStart, Slice;
      ghost var inside, size0, ch0 := PlaceInside(), filesize, chain;
      EndFacts(others);
      AllocatedFacts(part, others, startCluster, chain);
      OthersSame(part.geometry, part.cache.view, others);
      ContentsFacts(others);
      if !inUse || !write {
        return -1;
      }
      var len := Room(filesize, |src|);
      if len == 0 {
        return 0;
      }
      ret := WriteSome(src[..len], others);
      if append && inside {
        PlaceBefore(part.geometry, part.cache.view, others, startCluster, chain, rwPosition, size0, currentPosition);
      } else if !append && ret > 0 && currentPosition < filesize {
        SettledAway(part, chain, rwPosition, currentPosition);
      }
      FirstOfFirst(src, len, ret);
      if ret >= 0 { StillSnug(part.geometry, ch0, chain, size0, filesize, old(Place()) + ret); }
    }

    /** With no cluster free the file can hold what its chain holds. */
    lemma NoneFreeCapacity(others: set<seq<nat>>)
      requires Linked(others) && NoneFree()
      ensures Capacity() == Chunk(part.geometry, |chain|) && (Capacity() == 0 <==> chain == [])
    {
      hide BytesPerCluster, Allocated;
      ClusterSizes(part.geometry);
      ChunkStep(part.geometry, 0);
      ChunkMonotone(part.geometry, 0, |chain|);
    }

    /** The count of a write, from where it has come to. */
    lemma CountIs(others: set<seq<nat>>, ret: int, place: nat, n: nat)
      requires Linked(others) && n > 0 && ret <= n && (ret < n ==> NoneFree())
      requires ret < 0 ==> ret == -1 && (chain == [] || Chunk(part.geometry, |chain|) < place)
      requires 0 <= ret < n ==> Chunk(part.geometry, |chain|) == place + ret && chain != []
      requires ret == n ==> place + n <= Chunk(part.geometry, |chain|)
      ensures ret == WriteCount(Capacity(), place, n)
    {
      hide Allocated, Chunk, FreeCount, Full, BytesPerCluster;
      if ret < n { NoneFreeCapacity(others); } else { CapacityHolds(); }
    }

    lemma CapacityHolds()
      ensures Chunk(part.geometry, |chain|) <= Capacity()
    {
      ChunkMonotone(part.geometry, |chain|, |chain| + FreeCount(part.geometry, part.cache.view));
    }

    lemma StartedLinked(others: set<seq<nat>>)
      requires Started(others)
      ensures Linked(others)
    {
    }

    lemma EmptyContents(others: set<seq<nat>>)
      requires Started(others) && filesize == 0 && |chain| == 1
      ensures Contents() == [] && Fits(part.geometry, chain, 0) && Snug(part.geometry, chain, 0)
    {
      HeldFacts(part, others, chain);
    }

    method StartGrowing(ghost others: set<seq<nat>>) returns (ok: bool)
      requires Valid(others) && chain == [] && CanAllocate()
      modifies this`startCluster, this`rwPosition, this`chain, part, part.cache, part.cache.entries, part.cache.disc
      ensures Linked(others) && Fits(part.geometry, chain, filesize) && Placed() && Contents() == [] == old(Contents())
      ensures OthersKept(part.geometry, old(part.cache.view), part.cache.view, others)
      ensures if ok then Started(others) && CanAllocate() && Snug(part.geometry, chain, filesize) && |chain| == 1
              && PlaceInside()
              else NoneFree() && chain == []
    {
      hide Owns, Allocated, Held, ValidGeometry, Coherent, Recent, Searchable, Full, OthersKept, Table, Forest, Chunk,
        ContentsOf, Snug, Denotes, PosAt;
      AllocatedFacts(part, others, startCluster, chain);
      ContentsFacts(others);
      ok := StartFile(others);
      if ok {
        StartDenotes(part, others, chain);
        EmptyContents(others);
      } else {
        ContentsFacts(others);
      }
    }

    method GrowStarted(newSize: nat, ghost others: set<seq<nat>>) returns (ret: int)
      requires Started(others) && CanAllocate() && Fits(part.geometry, chain, filesize)
      requires filesize < newSize <= FILE_MAX_SIZE
      modifies this`appendPosition, this`chain, part, part.cache, part.cache.entries, part.cache.disc
      ensures Started(others) && old(chain) <= chain
      ensures OthersKept(part.geometry, old(part.cache.view), part.cache.view, others)
      ensures ret == 0 || ret == -1
      ensures Fits(part.geometry, chain, old(filesize)) && Contents() == old(Contents())
      ensures var end := old(End()) + (newSize - old(filesize));
              && (ret == 0 ==>
                    && CanAllocate() && Fits(part.geometry, chain, newSize) && end <= Chunk(part.geometry, |chain|)
                    && AsNeeded(part.geometry, old(chain), chain, end)
                    && ContentsOf(part.geometry, part.cache.view, chain, newSize)
                       == old(Grown(Zeros(newSize - filesize)))
                    && (append ==>
                         Denotes(part.geometry, chain, appendPosition, EndIn(part.geometry, |chain|, newSize))))
              && (ret == -1 ==> NoneFree() && Chunk(part.geometry, |chain|) < end)
    {
      hide Held, ValidGeometry, Coherent, Recent, Searchable, Full, OthersKept, Table, Chunk, ContentsOf, Snug,
        Denotes, PosAt, EndIn, AsNeeded, Wrote, CutWrite, WriteAt;
      var savedPosition := rwPosition;
      StartedFacts(others);
      ghost var g, v, ch0, size0 := part.geometry, part.cache.view, chain, filesize;
      var ok, position;
      ghost var ch;
      ok, position, ch := Grow(part, startCluster, filesize, newSize, others, chain);
      if ok {
        StillAtEnd(g, ch0, ch, size0, newSize - size0);
        ZerosGrown(g, v, ch0, part.cache.view, ch, size0, newSize);
      }
      chain := ch;
      if append {
        appendPosition := if ok then position else savedPosition;
      }
      ret := if ok then 0 else -1;
    }

    /** The growing half of FAT_ftruncate. It succeeds exactly if the file's clusters and the free ones hold the
        zeros. If not, the size is set all the same, and without superfluous clusters is then more than the chain
        holds. The place of the current position is lost exactly if that lay beyond the end and no longer does. */
    method GrowTo(newSize: nat, ghost others: set<seq<nat>>) returns (ret: int)
      requires Valid(others) && Placed() && CanAllocate()
      requires filesize < newSize <= FILE_MAX_SIZE
      modifies this`startCluster, this`rwPosition, this`appendPosition, this`filesize, this`chain
      modifies part, part.cache, part.cache.entries, part.cache.disc
      ensures Linked(others) && OthersKept(part.geometry, old(part.cache.view), part.cache.view, others)
      ensures ret == (if old(End()) + (newSize - old(filesize)) <= old(Capacity()) then 0 else -1)
      ensures Capacity() == old(Capacity())
      ensures ret == 0 ==>
                && Valid(others) && CanAllocate() && filesize == newSize
                && Contents() == old(Grown(Zeros(newSize - filesize)))
                && (old(Snug(part.geometry, chain, filesize)) ==>
                      Snug(part.geometry, chain, filesize)
                          && Contents() == old(Contents()) + Zeros(newSize - old(filesize)))
                && (currentPosition <= old(filesize) || currentPosition > filesize ==> Placed())
      ensures ret == 0 && old(PlaceInside()) ==>
                PlaceInside() && (Placed() <==> !(old(filesize) < currentPosition <= filesize))
      ensures ret == -1 ==>
                && NoneFree()
                && ContentsOf(part.geometry, part.cache.view, chain, old(filesize)) == old(Contents())
                && (if chain == [] then filesize == old(filesize) else filesize == newSize)
                && (chain != [] && old(Snug(part.geometry, chain, filesize)) ==> !Fits(part.geometry, chain, filesize))
    {
      hide Owns, Allocated, Held, ValidGeometry, Coherent, Recent, Searchable, Full, OthersKept, Table, Forest, Chunk,
        ContentsOf, Snug, Denotes, PosAt, WriteAt, CutWrite, EndIn, AsNeeded, PlaceIn;
      ghost var v0, start0, ch0, size0 := part.cache.view, startCluster, chain, filesize;
      AllocatedFacts(part, others, startCluster, chain);
      OthersSame(part.geometry, part.cache.view, others);
      EndFacts(others);
      EndOfOne(part.geometry);
      if startCluster == CLUSTER_FREE {
        var ok := StartGrowing(others);
        if !ok {
          CapacityKept(part.geometry, v0, part.cache.view, others, start0, startCluster, ch0, chain);
          NoneFreeCapacity(others);
          return -1;
        }
      }
      ghost var v, ch, inside := part.cache.view, chain, PlaceInside();
      StartedFacts(others);
      ret := GrowStarted(newSize, others);
      StartedLinked(others);
      OthersKeptThen(part.geometry, old(part.cache.view), v, part.cache.view, others);
      CapacityKept(part.geometry, v0, part.cache.view, others, start0, startCluster, ch0, chain);
      if ret == 0 { CapacityHolds(); } else { NoneFreeCapacity(others); }
      if currentPosition <= filesize { DenotesGrow(part.geometry, ch, chain, rwPosition, currentPosition); }
      if inside {
        PlaceInMore(part.geometry, ch, chain, rwPosition, size0);
        PlaceBefore(part.geometry, part.cache.view, others, startCluster, chain, rwPosition, size0, currentPosition);
      }
      StillSnug(part.geometry, ch, chain, size0, newSize, old(End()) + (newSize - size0));
      WriteAtEnd(old(Contents()), Zeros(newSize - size0));
      filesize := newSize;
    }

    /** The shrinking half of FAT_ftruncate: exactly the clusters of the prefix are kept. The place of
        the current position is lost only if that is the new end, on a cluster edge, and the
        place is the start of the cluster behind it. */
    method ShrinkTo(newSize: nat, ghost others: set<seq<nat>>)
      requires Valid(others) && newSize < filesize
      modifies this`startCluster, this`appendPosition, this`filesize, this`chain
      modifies part`firstFree, part`numberFreeCluster, part.cache, part.cache.entries, part.cache.disc
      ensures Valid(others) && filesize == newSize && Snug(part.geometry, chain, filesize)
      ensures newSize <= |old(Contents())| && Contents() == old(Contents())[..newSize]
      ensures chain == [] <==> newSize == 0
      ensures Capacity() == old(Capacity())
      ensures old(Placed()) ==>
                (Placed() <==> !(newSize > 0 && currentPosition == newSize && OnEdge(part.geometry, newSize)
                                 && rwPosition.sector < part.geometry.sectorsPerCluster))
      ensures OthersKept(part.geometry, old(part.cache.view), part.cache.view, others)
    {
      hide Owns, Allocated, Held, ValidGeometry, Coherent, Recent, OthersKept, Table, Forest, Chunk, ContentsOf, Snug,
        Denotes, PosAt, BytesPerCluster, Fits, EndIn;
      AllocatedFacts(part, others, startCluster, chain);
      ContentsFacts(others);
      InChainOf(part, chain, filesize);
      ghost var v0, start0, ch0 := part.cache.view, startCluster, chain;
      if newSize == 0 {
        DropClusters(others);
        appendPosition := FilePosition(CLUSTER_FREE, 0, 0);
        EmptyFits(part.geometry);
        filesize := 0;
        ContentsFacts(others);
      } else {
        ghost var ch := chain;
        WholeChain(part, others, ch, filesize);
        appendPosition, chain := Shorten(part, startCluster, filesize, newSize, append, appendPosition, others, chain);
        filesize := newSize;
        if old(Placed()) && currentPosition <= newSize {
          KeptPlace(part.geometry, chain, ch, rwPosition, currentPosition, newSize);
        }
        HeldLinked(part, others, startCluster, chain);
      }
      EndFacts(others);
      CapacityKept(part.geometry, v0, part.cache.view, others, start0, startCluster, ch0, chain);
    }

    /** Sets the size of the file. New bytes are zero, and a shorter file keeps its prefix. */
    method Ftruncate(len: int, ghost others: set<seq<nat>>) returns (ret: int)
      requires Valid(others) && Placed() && len < INT_LIMIT
      requires len > filesize ==> CanAllocate()
      modifies this`startCluster, this`rwPosition, this`appendPosition, this`filesize, this`modified, this`chain
      modifies part, part.cache, part.cache.entries, part.cache.disc
      ensures Linked(others) && OthersKept(part.geometry, old(part.cache.view), part.cache.view, others)
      ensures ret == 0 ==>
                && inUse && write && Valid(others) && 0 <= len == filesize
                && Contents() == (if len > old(filesize) && !old(Snug(part.geometry, chain, filesize))
                                  then old(Grown(Zeros(len - filesize))) else Resized(old(Contents()), filesize))
                && (len < old(filesize) || old(Snug(part.geometry, chain, filesize)) ==>
                     Snug(part.geometry, chain, filesize))
                && (currentPosition < filesize && currentPosition <= old(filesize) ==> Placed())
      ensures ret == if len < 0 || !inUse || !write
              || (len > old(filesize) && old(End()) + (len - old(filesize)) > old(Capacity())) then -1 else 0
      ensures Capacity() == old(Capacity())
      ensures ret == -1 && (len < 0 || !inUse || !write) ==>
                Valid(others) && Placed() && Contents() == old(Contents()) && filesize == old(filesize)
      ensures ret == -1 && 0 <= len && inUse && write ==>
                && NoneFree() && ContentsOf(part.geometry, part.cache.view, chain, old(filesize)) == old(Contents())
                && (if chain == [] then filesize == old(filesize) else filesize == len)
                && (chain != [] && old(Snug(part.geometry, chain, filesize)) ==> !Fits(part.geometry, chain, filesize))
    {
      hide Owns, Allocated, Held, ValidGeometry, Coherent, Recent, Searchable, Full, OthersKept, Table, Forest, Chunk,
        ContentsOf, Snug, Denotes, PosAt, BytesPerCluster, Grown, EndIn, PlaceIn, WriteAt, WriteCount;
      AllocatedFacts(part, others, startCluster, chain);
      OthersSame(part.geometry, part.cache.view, others);
      ContentsFacts(others);
      if len < 0 || !inUse || !write {
        return -1;
      }
      ret := 0;
      if len > filesize {
        ret := GrowTo(len, others);
        AllocatedFacts(part, others, startCluster, chain);
        if ret == -1 && startCluster == CLUSTER_FREE {
          return;
        }
      } else if len < filesize {
        ShrinkTo(len, others);
      }
      filesize, modified := len, true;
    }
  }

  /** Freeing the file's chain leaves the other chains. */
  lemma ClearFreesAll(part: P.Partition, others: set<seq<nat>>, ch: seq<nat>)
    requires Held(part, others, ch)
    ensures LinksInRange(part.T()) && ch != []
    ensures Forest(ClearFrom(part.T(), ch[0]), others)
  {
    var t := part.T();
    hide Table;
    OwnsChain(part.geometry, part.cache.view, others, ch);
    ForestLinksInRange(t, others + {ch});
    ClearFromChain(t, ch, 0);
    assert ch[0..] == ch;
    ZeroedForest(t, others + {ch}, ch);
    assert others + {ch} - {ch} == others;
  }

  lemma EmptyFits(g: Geometry)
    ensures Fits(g, [], 0) && Snug(g, [], 0)
  {
    ChunkStep(g, 0);
  }

  lemma StartDenotes(part: P.Partition, others: set<seq<nat>>, ch: seq<nat>)
    requires Held(part, others, ch)
    ensures ch != [] && Denotes(part.geometry, ch, FilePosition(ch[0], 0, 0), 0) && 0 < part.geometry.sectorsPerCluster
  {
    HeldFacts(part, others, ch);
    SectorSpan(part.geometry, 0);
    ChunkStep(part.geometry, 0);
    assert PosAt(part.geometry, ch, FilePosition(ch[0], 0, 0), 0, 0);
  }

  /** The place where appending starts. */
  method AppendPlace(part: P.Partition, start: nat, size: nat, ghost others: set<seq<nat>>, ghost ch: seq<nat>)
    returns (pos: FilePosition)
    requires part.Valid() && Allocated(part.geometry, part.cache.view, others, start, ch)
    requires Fits(part.geometry, ch, size)
    modifies part.cache`accessCounter, part.cache`ticks, part.cache`touched, part.cache.entries, part.cache.disc
    ensures part.Valid()
    ensures ch != [] ==> Denotes(part.geometry, ch, pos, EndIn(part.geometry, |ch|, size))
  {
    hide Allocated, ValidGeometry, Chunk, Coherent, Recent, AllClusters, Table, IsChain, BytesPerCluster, Snug;
    var g := part.geometry;
    AllocatedFacts(part, others, start, ch);
    PositiveSizes(part);
    if ch != [] { EndDenotes(part, others, ch, size); }
    var last := part.LastCluster(start, ch);
    pos := EndPosition(g, last, size);
    if size > 0 && size % BytesPerCluster(g) == 0 {
      pos := pos.(sector := g.sectorsPerCluster, byte := 0);
    }
  }

  lemma PositiveSizes(part: P.Partition)
    requires part.Valid()
    ensures part.geometry.sectorsPerCluster > 0 && part.geometry.bytesPerSector > 0
            && BytesPerCluster(part.geometry) > 0
  {
    ClusterSizes(part.geometry);
  }

  /** It is the place of the end of the file exactly if the chain has no superfluous cluster. */
  lemma AppendRightIffSnug(part: P.Partition, others: set<seq<nat>>, ch: seq<nat>, size: nat)
    requires Held(part, others, ch) && Fits(part.geometry, ch, size)
    ensures ch != [] && ch[0] in ch && BytesPerCluster(part.geometry) > 0 && part.geometry.bytesPerSector > 0
    ensures Denotes(part.geometry, ch, AppendAt(part.geometry, ch[|ch| - 1], size), size) <==>
              Snug(part.geometry, ch, size)
  {
    hide ValidGeometry, Chunk, BytesPerCluster, AllClusters, IsChain, Denotes, EndIn;
    var g := part.geometry;
    HeldFacts(part, others, ch);
    EndDenotes(part, others, ch, size);
    EndPlace(g, ch, size);
    var pos := AppendAt(g, ch[|ch| - 1], size);
    if Denotes(g, ch, pos, size) { DenotesOne(g, ch, pos, size, EndIn(g, |ch|, size)); }
  }

  lemma EndDenotes(part: P.Partition, others: set<seq<nat>>, ch: seq<nat>, size: nat)
    requires Held(part, others, ch) && Fits(part.geometry, ch, size)
    ensures ch != [] && ch[0] in ch && BytesPerCluster(part.geometry) > 0 && part.geometry.bytesPerSector > 0
    ensures Denotes(part.geometry, ch, AppendAt(part.geometry, ch[|ch| - 1], size), EndIn(part.geometry, |ch|, size))
  {
    hide ValidGeometry, Chunk, BytesPerCluster, AllClusters, IsChain, EndIn;
    var g := part.geometry;
    HeldFacts(part, others, ch);
    EndPlace(g, ch, size);
    SplitSize(g, size);
    SectorSpan(g, g.sectorsPerCluster);
    ChunkStep(g, |ch| - 1);
    assert PosAt(g, ch, AppendAt(g, ch[|ch| - 1], size), |ch| - 1, EndIn(g, |ch|, size));
  }

  /** What is left of a write below the largest file size, by 32-bit sums. */
  function Room(size: nat, len: nat): (r: nat)
    requires size <= FILE_MAX_SIZE && len <= FILE_MAX_SIZE
    ensures r == if len > FILE_MAX_SIZE - size then FILE_MAX_SIZE - size else len
  {
    var sum := (len + size) % WORD;
    if sum > FILE_MAX_SIZE || sum < size then FILE_MAX_SIZE - size else len
  }

  /** The clusters of one chain and the free ones together stay as many. */
  lemma CapacityKept(g: Geometry, v: seq<byte>, v': seq<byte>, others: set<seq<nat>>, start: nat, start': nat,
                     ch: seq<nat>, ch': seq<nat>)
    requires Allocated(g, v, others, start, ch) && Allocated(g, v', others, start', ch') && (ch <= ch' || ch' <= ch)
    ensures Chunk(g, |ch| + FreeCount(g, v)) == Chunk(g, |ch'| + FreeCount(g, v'))
  {
    hide Chunk, Allocated, FreeCount, Chained;
    AllocatedChained(g, v, others, start, ch);
    AllocatedChained(g, v', others, start', ch');
    if ch <= ch' { GrowthUsesFree(g, v, v', others, ch, ch'); } else { GrowthUsesFree(g, v', v, others, ch', ch); }
  }

  lemma NoEmptyChain(t: seq<nat>, f: set<seq<nat>>)
    requires IsTable(t) && Forest(t, f)
    ensures [] !in f
  {
  }

  lemma AllocatedChained(g: Geometry, v: seq<byte>, others: set<seq<nat>>, start: nat, ch: seq<nat>)
    requires Allocated(g, v, others, start, ch)
    ensures Chained(g, v, others, ch)
  {
    if ch == [] {
      NoEmptyChain(Table(g, v), others);
    } else {
      OwnsChained(g, v, others, ch);
    }
  }

  lemma PlaceInMore(g: Geometry, ch: seq<nat>, ch': seq<nat>, pos: FilePosition, size: nat)
    requires ch != [] && PlaceIn(g, ch, pos, size) && ch <= ch'
    ensures PlaceIn(g, ch', pos, size)
  {
    hide Denotes;
    var q: nat :| q <= size && Denotes(g, ch, pos, q);
    DenotesGrow(g, ch, ch', pos, q);
  }

  /** A place in a chain without repetitions is that of one position only. */
  lemma DenotesOne(g: Geometry, ch: seq<nat>, pos: FilePosition, p: nat, q: nat)
    requires Distinct(ch) && Denotes(g, ch, pos, p) && Denotes(g, ch, pos, q)
    ensures p == q
  {
    var j, k :| PosAt(g, ch, pos, j, p) && PosAt(g, ch, pos, k, q);
    assert j == k;
  }

  /** A place inside a part of the file is not that of a position behind that part. */
  lemma PlaceBefore(g: Geometry, v: seq<byte>, others: set<seq<nat>>, start: nat, ch: seq<nat>, pos: FilePosition,
                    size: nat, p: nat)
    requires Allocated(g, v, others, start, ch) && PlaceIn(g, ch, pos, size)
    ensures ch != [] && size < p ==> !Denotes(g, ch, pos, p)
    ensures forall size' :: size <= size' ==> PlaceIn(g, ch, pos, size')
  {
    hide Denotes, Table;
    if ch != [] {
      OwnsChain(g, v, others, ch);
      var q: nat :| q <= size && Denotes(g, ch, pos, q);
      if Denotes(g, ch, pos, p) { DenotesOne(g, ch, pos, p, q); }
    }
  }

  /** Away from the start of a cluster a place is between two clusters exactly if it is written as the end of the
      first. */
  lemma EdgeOfPlace(g: Geometry, ch: seq<nat>, pos: FilePosition, p: nat)
    requires ValidGeometry(g) && Denotes(g, ch, pos, p)
    ensures pos.sector == g.sectorsPerCluster ==> OnEdge(g, p) && p > 0
    ensures pos.sector != g.sectorsPerCluster && OnEdge(g, p) ==> AtStart(pos)
  {
    hide BytesPerCluster, Chunk;
    ClusterSizes(g);
    var k: nat :| PosAt(g, ch, pos, k, p);
    SectorSpan(g, pos.sector);
    if pos.sector == g.sectorsPerCluster {
      ChunkStep(g, k);
      ChunkEdge(g, k + 1);
    } else {
      PlaceInCluster(g, k, p, SectorAddress(g, pos.sector) + pos.byte);
      if SectorAddress(g, pos.sector) == 0 { SectorNotZero(g, pos.sector); }
    }
  }

  lemma SettledAway(part: P.Partition, ch: seq<nat>, pos: FilePosition, p: nat)
    requires part.Valid() && Denotes(part.geometry, ch, pos, p) && !AtStart(pos)
    ensures pos.sector < part.geometry.sectorsPerCluster <==> !OnEdge(part.geometry, p)
  {
    EdgeOfPlace(part.geometry, ch, pos, p);
  }

  lemma SectorNotZero(g: Geometry, s: nat)
    requires ValidGeometry(g) && SectorAddress(g, s) == 0
    ensures s == 0
  {
    if s > 0 { MulMonotone(1, s, g.bytesPerSector); }
  }

  lemma ChunkEdge(g: Geometry, k: nat)
    requires BytesPerCluster(g) > 0
    ensures Chunk(g, k) % BytesPerCluster(g) == 0
  {
    MultipleMod(k, BytesPerCluster(g));
  }

  lemma PlaceInCluster(g: Geometry, k: nat, p: nat, r: nat)
    requires r < BytesPerCluster(g) && p == Chunk(g, k) + r
    ensures p % BytesPerCluster(g) == r
  {
    DivModUnique(p, BytesPerCluster(g), k, r);
  }

  /** A place in a chain is a place in a longer one. */
  lemma DenotesGrow(g: Geometry, ch: seq<nat>, ch': seq<nat>, pos: FilePosition, p: nat)
    requires Denotes(g, ch, pos, p) && ch <= ch'
    ensures Denotes(g, ch', pos, p)
  {
    var k :| PosAt(g, ch, pos, k, p);
    assert PosAt(g, ch', pos, k, p);
  }

  /** A first cluster for a file that has none. */
  method StartChain(part: P.Partition, ghost others: set<seq<nat>>) returns (ok: bool, start: nat)
    requires part.Valid() && Allocated(part.geometry, part.cache.view, others, CLUSTER_FREE, [])
    requires Searchable(part.geometry, part.cache.view, part.firstFree)
    modifies part, part.cache, part.cache.entries, part.cache.disc
    ensures part.Valid() && OthersKept(part.geometry, old(part.cache.view), part.cache.view, others)
    ensures ok ==> Held(part, others, [start]) && Searchable(part.geometry, part.cache.view, part.firstFree)
    ensures !ok ==> part.cache.view == old(part.cache.view) && Full(part.geometry, part.cache.view)
  {
    var g := part.geometry;
    ghost var t, v := part.T(), part.cache.view;
    LinkSoundIffNotStray(t, CLUSTER_FREE, part.firstFree, part.Beyond());
    hide ValidGeometry, Coherent, Recent, Table, Owns, Attach, FatBase, FatEnd, Link, OthersKept, SameOutsideFat;
    start := part.LinkFreeCluster(CLUSTER_FREE);
    ok := CLUSTER_FIRST <= start <= g.lastCluster;
    FatOthers(g, v, part.cache.view, others);
    if ok {
      OwnsStarts(g, v, part.cache.view, others, start);
    }
  }

  lemma OwnsStarts(g: Geometry, v: seq<byte>, v': seq<byte>, others: set<seq<nat>>, c: nat)
    requires ValidGeometry(g) && IsImage(g, v) && IsImage(g, v') && Forest(Table(g, v), others)
    requires c in FreeSet(Table(g, v)) && Valid(Table(g, v), c) && Table(g, v') == Attach(Table(g, v), CLUSTER_FREE, c)
    ensures Owns(g, v', others, [c])
    ensures Searchable(g, v', c)
  {
    hide Table;
    AttachStarts(Table(g, v), others, c);
  }

  lemma EndOfOne(g: Geometry)
    ensures EndIn(g, 0, 0) == 0 == EndIn(g, 1, 0) && Snug(g, [], 0)
  {
    ChunkStep(g, 0);
  }

  /** A file's first cluster is needed for anything that is in it. */
  lemma FirstAsNeeded(part: P.Partition, others: set<seq<nat>>, ch0: seq<nat>, ch: seq<nat>, p: nat)
    requires Held(part, others, ch) && |ch0| == 1 && AsNeeded(part.geometry, ch0, ch, p)
    requires p > 0 || p == Chunk(part.geometry, |ch|)
    ensures AsNeeded(part.geometry, [], ch, p)
  {
    LastChunk(part, others, ch);
    ChunkStep(part.geometry, 0);
  }

  /** A chain that grows only as needed gets no superfluous clusters. */
  lemma StillSnug(g: Geometry, ch0: seq<nat>, ch: seq<nat>, size0: nat, size: nat, p: nat)
    ensures Snug(g, ch0, size0) && size0 <= size && (ch == ch0 || (AsNeeded(g, ch0, ch, p) && p <= size)) ==>
              Snug(g, ch, size)
  {
    hide Chunk;
  }

  /** The computed end moves with the end of the file. */
  lemma StillAtEnd(g: Geometry, ch0: seq<nat>, ch: seq<nat>, size: nat, n: nat)
    requires ValidGeometry(g) && 0 < |ch0| <= |ch| && size <= EndIn(g, |ch0|, size) <= Chunk(g, |ch0|)
    requires EndIn(g, |ch0|, size) + n <= Chunk(g, |ch|) && AsNeeded(g, ch0, ch, EndIn(g, |ch0|, size) + n)
    ensures EndIn(g, |ch|, size + n) == EndIn(g, |ch0|, size) + n
  {
    hide Chunk, EndIn, ValidGeometry;
    if n > 0 {
      EndMoves(g, |ch0|, |ch|, size, n);
    } else if |ch| > |ch0| {
      ChunkMonotone(g, |ch0|, |ch| - 1);
    }
  }

  /** Zeros and then data, stored one behind the other from the computed end on. */
  lemma ThenStored(g: Geometry, v: seq<byte>, ch0: seq<nat>, v1: seq<byte>, ch1: seq<nat>, v2: seq<byte>, ch: seq<nat>,
                   size: nat, p: nat, data: seq<byte>, slack: nat)
    requires |ch0| > 0 && size < p && size <= Chunk(g, |ch0|)
    requires Wrote(g, v, ch0, v1, ch1, EndIn(g, |ch0|, size), Zeros(p - size))
    requires Wrote(g, v1, ch1, v2, ch, EndIn(g, |ch0|, size) + (p - size), data + Zeros(slack))
    requires AsNeeded(g, ch0, ch1, EndIn(g, |ch0|, size) + (p - size))
    requires AsNeeded(g, ch1, ch, EndIn(g, |ch0|, size) + (p - size) + |data|)
    ensures p + |data| <= Chunk(g, |ch|) && AsNeeded(g, ch0, ch, EndIn(g, |ch0|, size) + (p - size) + |data|)
    ensures |ContentsOf(g, v, ch0, size)| == size
    ensures ContentsOf(g, v2, ch, p + |data|)
         == if Snug(g, ch0, size) then WriteAt(ContentsOf(g, v, ch0, size), p, data)
            else CutWrite(ContentsOf(g, v, ch0, Chunk(g, |ch0|)), EndIn(g, |ch0|, size), Zeros(p - size) + data, p
               + |data|)
  {
    hide Chunk, ContentsOf, EndIn, Wrote, CutWrite, WriteAt, Snug;
    var zeros := Zeros(p - size);
    assert zeros + (data + Zeros(slack)) == zeros + data + Zeros(slack);
    WroteThen(g, v, ch0, v1, ch1, v2, ch, EndIn(g, |ch0|, size), zeros, data + Zeros(slack));
    WroteSize(g, v, ch0, v1, ch1, EndIn(g, |ch0|, size), zeros, size);
    StoredBehind(g, v, ch0, v2, ch, size, zeros + data, slack);
    PadThenWrite(ContentsOf(g, v, ch0, size), p, data);
  }

  lemma WroteSize(g: Geometry, v: seq<byte>, ch: seq<nat>, v': seq<byte>, ch': seq<nat>, p: nat, data: seq<byte>,
                  size: nat)
    requires Wrote(g, v, ch, v', ch', p, data) && size <= Chunk(g, |ch|)
    ensures |ContentsOf(g, v, ch, size)| == size
  {
    ContentsSize(g, v, ch, size);
  }

  /** The zeros alone. */
  lemma ZerosGrown(g: Geometry, v: seq<byte>, ch0: seq<nat>, v': seq<byte>, ch: seq<nat>, size: nat, target: nat)
    requires |ch0| > 0 && size <= Chunk(g, |ch0|) && size < target
    requires Wrote(g, v, ch0, v', ch, EndIn(g, |ch0|, size), Zeros(target - size))
    ensures target <= Chunk(g, |ch|)
    ensures ContentsOf(g, v', ch, target)
         == if Snug(g, ch0, size) then WriteAt(ContentsOf(g, v, ch0, size), size, Zeros(target - size))
            else CutWrite(ContentsOf(g, v, ch0, Chunk(g, |ch0|)), EndIn(g, |ch0|, size), Zeros(target - size), target)
  {
    hide Chunk, ContentsOf, EndIn, Wrote, CutWrite, WriteAt, Snug;
    assert Zeros(target - size) + Zeros(0) == Zeros(target - size);
    StoredBehind(g, v, ch0, v', ch, size, Zeros(target - size), 0);
  }

  lemma WriteAtEnd(b: seq<byte>, data: seq<byte>)
    ensures WriteAt(b, |b|, data) == b + data
  {
  }

  lemma FirstOfFirst(data: seq<byte>, m: nat, n: int)
    requires n <= m <= |data|
    ensures n >= 0 ==> First(data[..m], n) == First(data, n)
  {
  }

  function Larger(a: int, b: int): int { if a > b then a else b }

  /** The first `n` bytes. */
  function First(data: seq<byte>, n: int): seq<byte> { if 0 <= n <= |data| then data[..n] else data }

  /** Stores as much of `src` as there is room for, from a position in the chain on. */
  method Store(part: P.Partition, src: seq<byte>, pos: FilePosition, appending: bool, ghost others: set<seq<nat>>,
               ghost ch: seq<nat>, ghost p: nat)
    returns (n: nat, pos': FilePosition, ghost ch': seq<nat>, ghost slack: nat)
    requires Held(part, others, ch) && Searchable(part.geometry, part.cache.view, part.firstFree)
    requires Denotes(part.geometry, ch, pos, p) && p <= Chunk(part.geometry, |ch|) && 0 < |src|
    modifies part, part.cache, part.cache.entries, part.cache.disc
    ensures Held(part, others, ch') && ch <= ch' && n <= |src|
    ensures if n < |src| then Full(part.geometry, part.cache.view) && p + n == Chunk(part.geometry, |ch'|)
            else Searchable(part.geometry, part.cache.view, part.firstFree)
    ensures n > 0 ==> !AtStart(pos')
    ensures Denotes(part.geometry, ch', pos', p + n) && p + n <= Chunk(part.geometry, |ch'|)
    ensures AsNeeded(part.geometry, ch, ch', p + n)
    ensures Wrote(part.geometry, old(part.cache.view), ch, part.cache.view, ch', p, src[..n] + Zeros(slack))
    ensures slack > 0 ==> appending && n == |src|
    ensures OthersKept(part.geometry, old(part.cache.view), part.cache.view, others)
  {
    hide Owns, ValidGeometry, Wrote, Chunk, SectorAddress, BytesPerCluster, AllClusters, Coherent, Recent, IsChain,
      Searchable, Full, OthersKept;
    ghost var g, v := part.geometry, part.cache.view;
    ghost var k :| PosAt(g, ch, pos, k, p);
    ghost var k';
    n, pos', ch', k', slack := Transfer(part, src, pos, appending, others, ch, k, p);
    WroteBounds(g, v, ch, part.cache.view, ch', p, src[..n] + Zeros(slack));
    WroteOthers(g, v, ch, part.cache.view, ch', p, src[..n] + Zeros(slack), others);
  }

  /** What storing at a position inside a file means for its bytes. */
  lemma StoredInside(g: Geometry, v0: seq<byte>, ch0: seq<nat>, v: seq<byte>, ch: seq<nat>, size: nat, p: nat,
                     data: seq<byte>, slack: nat)
    requires Wrote(g, v0, ch0, v, ch, p, data + Zeros(slack)) && p <= size <= Chunk(g, |ch0|)
    requires slack > 0 ==> p + |data| >= size
    ensures Larger(size, p + |data|) <= Chunk(g, |ch|)
    ensures ContentsOf(g, v, ch, if p + |data| > size then p + |data| else size)
            == WriteAt(ContentsOf(g, v0, ch0, size), p, data)
  {
    hide Wrote, Chunk, ContentsOf;
    assert (data + Zeros(slack))[..|data|] == data;
    WroteContents(g, v0, ch0, v, ch, size, Larger(size, p + |data|), p, |data|, data + Zeros(slack));
  }

  /** What storing behind the end of a file, as the code takes it, means for its bytes. */
  lemma StoredBehind(g: Geometry, v0: seq<byte>, ch0: seq<nat>, v: seq<byte>, ch: seq<nat>, size: nat, data: seq<byte>,
                     slack: nat)
    requires |ch0| > 0 && Wrote(g, v0, ch0, v, ch, EndIn(g, |ch0|, size), data + Zeros(slack))
             && size <= Chunk(g, |ch0|)
    ensures size + |data| <= Chunk(g, |ch|)
    ensures ContentsOf(g, v, ch, size) == ContentsOf(g, v0, ch0, size)
    ensures ContentsOf(g, v, ch, size + |data|)
         == if Snug(g, ch0, size) then WriteAt(ContentsOf(g, v0, ch0, size), size, data)
            else CutWrite(ContentsOf(g, v0, ch0, Chunk(g, |ch0|)), EndIn(g, |ch0|, size), data, size + |data|)
  {
    hide Chunk, ContentsOf, Flat, SameOutside, AllClusters, EndIn, Snug, EndAt;
    var all := data + Zeros(slack);
    EndPlace(g, ch0, size);
    assert all[..|data|] == data;
    WroteBehind(g, v0, ch0, v, ch, size, EndIn(g, |ch0|, size), all);
    WroteChain(g, v0, ch0, v, ch, size + |data|, EndIn(g, |ch0|, size), |data|, all);
    if Snug(g, ch0, size) { StoredInside(g, v0, ch0, v, ch, size, size, data, slack); }
  }

  /** Zeros from the end of a file on, as the code takes it, up to a new size. */
  method Grow(part: P.Partition, start: nat, size: nat, target: nat, ghost others: set<seq<nat>>, ghost ch: seq<nat>)
    returns (ok: bool, pos: FilePosition, ghost ch': seq<nat>)
    requires Held(part, others, ch) && Searchable(part.geometry, part.cache.view, part.firstFree)
    requires ch != [] && start == ch[0] && Fits(part.geometry, ch, size)
    requires size < target <= FILE_MAX_SIZE
    modifies part, part.cache, part.cache.entries, part.cache.disc
    ensures Held(part, others, ch') && ch <= ch' && Fits(part.geometry, ch', size)
    ensures if ok then Searchable(part.geometry, part.cache.view, part.firstFree)
            else Full(part.geometry, part.cache.view)
    ensures ContentsOf(part.geometry, part.cache.view, ch', size)
            == ContentsOf(part.geometry, old(part.cache.view), ch, size)
    ensures var end, n := EndIn(part.geometry, |ch|, size), target - size;
            && size <= end && (end == size <==> Snug(part.geometry, ch, size))
            && (if ok then end + n <= Chunk(part.geometry, |ch'|) else Chunk(part.geometry, |ch'|) < end + n)
            && (ok ==>
                  && Fits(part.geometry, ch', target) && Denotes(part.geometry, ch', pos, end + n)
                  && AsNeeded(part.geometry, ch, ch', end + n)
                  && Wrote(part.geometry, old(part.cache.view), ch, part.cache.view, ch', end, Zeros(n)))
    ensures OthersKept(part.geometry, old(part.cache.view), part.cache.view, others)
  {
    hide Owns, ValidGeometry, Wrote, Chunk, SectorAddress, BytesPerCluster, AllClusters, Coherent, Recent, IsChain,
      Searchable, Full, OthersKept, ContentsOf, Snug, EndIn;
    ghost var g, v := part.geometry, part.cache.view;
    ghost var k, written;
    ok, pos, ch', k, written := ExtendTo(part, start, size, target, others, ch);
    WroteBehind(g, v, ch, part.cache.view, ch', size, EndIn(g, |ch|, size), Zeros(written));
    WroteOthers(g, v, ch, part.cache.view, ch', EndIn(g, |ch|, size), Zeros(written), others);
  }

  predicate OnEdge(g: Geometry, size: nat) { BytesPerCluster(g) > 0 && size % BytesPerCluster(g) == 0 }

  /** The number of clusters that `size` bytes need. */
  function ClustersFor(g: Geometry, size: nat): nat
    requires size > 0 && BytesPerCluster(g) > 0
  {
    (size - 1) / BytesPerCluster(g) + 1
  }

  lemma ClustersForFits(g: Geometry, ch: seq<nat>, size: nat)
    requires 0 < size <= Chunk(g, |ch|) && BytesPerCluster(g) > 0
    ensures ClustersFor(g, size) <= |ch|
    ensures Chunk(g, ClustersFor(g, size) - 1) < size <= Chunk(g, ClustersFor(g, size))
  {
    var n, bpc := ClustersFor(g, size), BytesPerCluster(g);
    assert size - 1 == (n - 1) * bpc + (size - 1) % bpc;
    ChunkStep(g, n - 1);
    if n > |ch| { ChunkMonotone(g, |ch|, n - 1); }
  }

  lemma InChainOf(part: P.Partition, ch: seq<nat>, size: nat)
    requires part.Valid() && Fits(part.geometry, ch, size) && size > 0
    ensures ch != [] && BytesPerCluster(part.geometry) > 0
  {
    ClusterSizes(part.geometry);
    ChunkStep(part.geometry, 0);
  }

  lemma WholeChain(part: P.Partition, others: set<seq<nat>>, ch: seq<nat>, size: nat)
    requires Held(part, others, ch) && Fits(part.geometry, ch, size)
    ensures ValidGeometry(part.geometry) && Distinct(ch) && size <= Chunk(part.geometry, |ch|)
  {
    HeldFacts(part, others, ch);
  }

  lemma HeldLinked(part: P.Partition, others: set<seq<nat>>, start: nat, ch: seq<nat>)
    requires Held(part, others, ch) && ch != [] && start == ch[0]
    ensures Allocated(part.geometry, part.cache.view, others, start, ch) && part.Valid()
  {
  }

  lemma CutOwns(g: Geometry, v: seq<byte>, others: set<seq<nat>>, ch: seq<nat>, n: nat)
    requires Owns(g, v, others, ch) && 1 <= n <= |ch|
    ensures LinksInRange(Table(g, v)) && IsChain(Table(g, v), ch) && ch[..n] !in others
    ensures Forest(Cut(Table(g, v), ch, n), others + {ch[..n]})
  {
    hide Table, IsChain, Forest, Cut, LinksInRange;
    var t := Table(g, v);
    OwnsChain(g, v, others, ch);
    ForestLinksInRange(t, others + {ch});
    CutForest(t, others + {ch}, ch, n);
    assert others + {ch} - {ch} + {ch[..n]} == others + {ch[..n]};
    NotApartFromPrefix(ch, n);
  }

  lemma NotApartFromPrefix(ch: seq<nat>, n: nat)
    requires 1 <= n <= |ch|
    ensures !Apart(ch[..n], ch)
  {
    assert ch[..n][0] == ch[0];
  }

  /** Dropping the clusters of a chain after the first `n`. */
  method Trim(part: P.Partition, start: nat, n: nat, ghost others: set<seq<nat>>, ghost ch: seq<nat>)
    returns (last: nat)
    requires Held(part, others, ch) && 1 <= n <= |ch| && start == ch[0]
    modifies part`firstFree, part`numberFreeCluster, part.cache, part.cache.entries, part.cache.disc
    ensures Held(part, others, ch[..n]) && last == ch[n - 1]
    ensures SameOutsideFat(part.geometry, old(part.cache.view), part.cache.view)
  {
    hide ValidGeometry, Coherent, Recent, Table, SameOutsideFat, Forest, IsChain;
    CutOwns(part.geometry, part.cache.view, others, ch, n);
    last := part.TrimChain(start, n, ch);
  }

  /** Whether a place in a chain is one in the chain cut after the clusters that `size` bytes need. */
  lemma KeptPlace(g: Geometry, kept: seq<nat>, ch: seq<nat>, pos: FilePosition, p: nat, size: nat)
    requires ValidGeometry(g) && Distinct(ch) && Denotes(g, ch, pos, p) && p <= size && 0 < size <= Chunk(g, |ch|)
    requires BytesPerCluster(g) > 0 && ClustersFor(g, size) <= |ch| && kept == ch[..ClustersFor(g, size)]
    ensures Denotes(g, kept, pos, p) <==> !(p == size && OnEdge(g, size) && pos.sector < g.sectorsPerCluster)
  {
    hide ValidGeometry, BytesPerCluster, Chunk;
    var n := ClustersFor(g, size);
    var k: nat :| PosAt(g, ch, pos, k, p);
    CurrentCount(g, ch, pos, k, p);
    ClusterOfEnd(size, p, BytesPerCluster(g));
    if k < n { assert PosAt(g, kept, pos, k, p); }
    if Denotes(g, kept, pos, p) {
      var j: nat :| PosAt(g, kept, pos, j, p);
      assert ch[j] == kept[j] == ch[k];
    }
  }

  lemma ClusterOfEnd(size: nat, p: nat, n: nat)
    requires n > 0 && p <= size && size > 0
    ensures p / n <= (size - 1) / n + 1
    ensures p / n == (size - 1) / n + 1 <==> p == size && size % n == 0
  {
    var a, b := p / n, (size - 1) / n;
    assert p == a * n + p % n && size - 1 == b * n + (size - 1) % n;
    if a > b + 1 { MulMonotone(b + 2, a, n); }
    Distribute(b, 1, n);
    if a == b + 1 { DivModUnique(size, n, b + 1, 0); }
    if p == size && size % n == 0 {
      assert p == a * n;
      if a <= b { MulMonotone(a, b, n); }
    }
  }

  /** Drops the clusters behind the new end of a file. */
  method Shorten(part: P.Partition, start: nat, size: nat, newSize: nat, append: bool, appendPosition: FilePosition,
                 ghost others: set<seq<nat>>, ghost ch: seq<nat>)
    returns (appendPosition': FilePosition, ghost ch': seq<nat>)
    requires Held(part, others, ch) && ch != [] && start == ch[0] && Fits(part.geometry, ch, size) && 0 < newSize < size
    modifies part`firstFree, part`numberFreeCluster, part.cache, part.cache.entries, part.cache.disc
    ensures Held(part, others, ch') && ch' != [] && start == ch'[0] && Fits(part.geometry, ch', newSize)
            && Snug(part.geometry, ch', newSize)
    ensures BytesPerCluster(part.geometry) > 0 && ClustersFor(part.geometry, newSize) <= |ch|
            && ch' == ch[..ClustersFor(part.geometry, newSize)]
    ensures append ==> Denotes(part.geometry, ch', appendPosition', newSize)
    ensures newSize <= |ContentsOf(part.geometry, old(part.cache.view), ch, size)|
    ensures ContentsOf(part.geometry, part.cache.view, ch', newSize)
            == ContentsOf(part.geometry, old(part.cache.view), ch, size)[..newSize]
    ensures OthersKept(part.geometry, old(part.cache.view), part.cache.view, others)
  {
    hide Owns, ValidGeometry, Chunk, BytesPerCluster, Coherent, Recent, OthersKept, ContentsOf, SameOutsideFat,
      ClustersFor, EndPosition, Denotes, Fits, Snug;
    var g := part.geometry;
    ghost var v := part.cache.view;
    ShortFits(part, others, ch, size, newSize);
    var chainLength := ClustersFor(g, newSize);
    var last := Trim(part, start, chainLength, others, ch);
    ch' := ch[..chainLength];
    ShortContents(part, v, others, ch, chainLength, size, newSize);
    NewEnd(part, others, ch', newSize);
    appendPosition' := appendPosition;
    if append {
      appendPosition' := EndPosition(g, last, newSize);
      if newSize % BytesPerCluster(g) == 0 {
        appendPosition' := appendPosition'.(sector := g.sectorsPerCluster);
      }
      EndByte(g, last, newSize);
    }
  }

  /** In a chain without superfluous clusters appending starts at the end. */
  lemma NewEnd(part: P.Partition, others: set<seq<nat>>, ch: seq<nat>, size: nat)
    requires Held(part, others, ch) && Fits(part.geometry, ch, size) && Snug(part.geometry, ch, size)
    ensures ch != [] && BytesPerCluster(part.geometry) > 0 && part.geometry.bytesPerSector > 0
    ensures var g := part.geometry;
            var pos := EndPosition(g, ch[|ch| - 1], size);
            Denotes(g, ch, if size > 0
                && size % BytesPerCluster(g) == 0 then pos.(sector := g.sectorsPerCluster, byte := 0) else pos, size)
  {
    hide Held, BytesPerCluster, Chunk, Denotes;
    AppendRightIffSnug(part, others, ch, size);
  }

  lemma EndByte(g: Geometry, last: nat, size: nat)
    requires g.sectorsPerCluster > 0 && g.bytesPerSector > 0
    ensures BytesPerCluster(g) > 0
    ensures size % BytesPerCluster(g) == 0 ==> EndPosition(g, last, size).byte == 0
  {
    SplitSize(g, size);
  }

  lemma ShortFits(part: P.Partition, others: set<seq<nat>>, ch: seq<nat>, size: nat, newSize: nat)
    requires Held(part, others, ch) && ch != [] && Fits(part.geometry, ch, size) && 0 < newSize < size
    ensures var g := part.geometry;
            && g.sectorsPerCluster > 0 && g.bytesPerSector > 0 && BytesPerCluster(g) > 0
            && 1 <= ClustersFor(g, newSize) <= |ch|
            && Fits(g, ch[..ClustersFor(g, newSize)], newSize) && Snug(g, ch[..ClustersFor(g, newSize)], newSize)
  {
    hide BytesPerCluster, Chunk, Held, IsChain;
    HeldFacts(part, others, ch);
    ClustersForFits(part.geometry, ch, newSize);
  }

  lemma ShortContents(part: P.Partition, v: seq<byte>, others: set<seq<nat>>, ch: seq<nat>, n: nat, size: nat,
                      newSize: nat)
    requires Owns(part.geometry, v, others, ch) && part.Valid() && SameOutsideFat(part.geometry, v, part.cache.view)
    requires n <= |ch| && Fits(part.geometry, ch, size) && newSize <= size && Fits(part.geometry, ch[..n], newSize)
    ensures newSize <= |ContentsOf(part.geometry, v, ch, size)|
    ensures ContentsOf(part.geometry, part.cache.view, ch[..n], newSize)
            == ContentsOf(part.geometry, v, ch, size)[..newSize]
    ensures OthersKept(part.geometry, v, part.cache.view, others)
  {
    hide Chunk, ContentsOf, SameOutsideFat, OthersKept;
    OwnsChain(part.geometry, v, others, ch);
    CutContents(part.geometry, v, part.cache.view, ch, n, size, newSize);
    FatOthers(part.geometry, v, part.cache.view, others);
  }

  /** `b` cut or filled up with zeros to `size` bytes. */
  function Resized(b: seq<byte>, size: nat): (r: seq<byte>)
    ensures |r| == size && forall i :: 0 <= i < size ==> r[i] == if i < |b| then b[i] else 0
  {
    if size <= |b| then b[..size] else b + Zeros(size - |b|)
  }

  lemma PadThenWrite(b: seq<byte>, p: nat, data: seq<byte>)
    requires p >= |b|
    ensures WriteAt(b, |b|, Zeros(p - |b|) + data) == WriteAt(b, p, data)
  {
  }

  lemma SectorBound(g: Geometry, ch: seq<nat>, pos: FilePosition, k: nat, p: nat)
    requires PosAt(g, ch, pos, k, p)
    ensures pos.sector <= g.sectorsPerCluster
  {
  }

  lemma ReadFromChain(part: P.Partition, ch: seq<nat>, p: nat, n: nat)
    requires part.Valid() && AllClusters(part.geometry, ch) && p + n <= Chunk(part.geometry, |ch|)
    ensures |ContentsOf(part.geometry, part.cache.view, ch, Chunk(part.geometry, |ch|))| == Chunk(part.geometry, |ch|)
    ensures Slice(FlatOf(part, ch), p, n)
            == Slice(ContentsOf(part.geometry, part.cache.view, ch, Chunk(part.geometry, |ch|)), p, n)
  {
    ContentsSlice(part.geometry, part.cache.view, ch, Chunk(part.geometry, |ch|), p, n);
  }

  /** The bytes of the file are those of its chain. */
  lemma SameBytes(part: P.Partition, others: set<seq<nat>>, start: nat, ch: seq<nat>, size: nat, p: nat,
                  data: seq<byte>)
    requires part.Valid() && Allocated(part.geometry, part.cache.view, others, start, ch)
    requires size <= Chunk(part.geometry, |ch|) && p + |data| <= size && ch != []
    ensures PartOf(ContentsOf(part.geometry, part.cache.view, ch, Chunk(part.geometry, |ch|)), p, data)
       <==> PartOf(ContentsOf(part.geometry, part.cache.view, ch, size), p, data)
  {
    hide ContentsOf, Slice, Allocated, Coherent, Recent;
    AllocatedFacts(part, others, start, ch);
    ContentsSlice(part.geometry, part.cache.view, ch, size, p, |data|);
    ContentsSlice(part.geometry, part.cache.view, ch, Chunk(part.geometry, |ch|), p, |data|);
  }

  lemma DenotesInside(part: P.Partition, ch: seq<nat>, pos: FilePosition, p: nat, size: nat)
    requires part.Valid() && Denotes(part.geometry, ch, pos, p) && p <= size <= Chunk(part.geometry, |ch|)
    ensures PlaceIn(part.geometry, ch, pos, size)
    ensures pos.sector <= part.geometry.sectorsPerCluster
  {
  }
}
