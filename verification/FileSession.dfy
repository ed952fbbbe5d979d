/** Whole runs of seeks, reads and writes on one open file, against a plain file of bytes and a
    position. */
module FileSession {
  import opened Bytes
  import opened FatTable
  import opened Chains
  import opened DataRegion
  import opened FileModel
  import opened WriteModel
  import opened FileExtend
  import opened FileSeek
  import opened FileSpec
  import opened OpenFile

  datatype Op =
    | SeekTo(offset: int, whence: Whence)
    | ReadNext(len: nat)
    | WriteNext(data: seq<byte>)

  datatype Outcome = Sought(position: int) | Got(data: seq<byte>) | Put(count: int)

  datatype PlainFile = PlainFile(bytes: seq<byte>, position: nat)

  function Base(s: PlainFile, whence: Whence): nat {
    match whence case FromStart => 0 case FromCurrent => s.position case FromEnd => |s.bytes|
  }

  /** How many bytes of `data` are stored when the file can grow to `capacity` bytes. */
  function Stored(s: PlainFile, data: seq<byte>, capacity: nat): (n: int)
    ensures n <= |data|
  {
    if data == [] then 0 else WriteCount(capacity, s.position, |data|)
  }

  /** What an operation does to a plain file that can grow to `capacity` bytes. */
  ghost predicate Step(s: PlainFile, op: Op, r: Outcome, s': PlainFile, capacity: nat) {
    match op
    case SeekTo(offset, whence) =>
      var to := SeekTarget(Base(s, whence), offset);
      if to.Absolute? then r == Sought(to.position) && s' == s.(position := to.position)
      else r == Sought(-1) && s' == s
    case ReadNext(len) =>
      var n := Available(|s.bytes|, s.position, len);
      && s' == s.(position := s.position + n)
      && r == Got(if n == 0 then [] else Slice(s.bytes, s.position, n))
    case WriteNext(data) =>
      var n := Stored(s, data, capacity);
      && r == Put(n)
      && s' == if n < 0 || data == [] then s else PlainFile(WriteAt(s.bytes, s.position, data[..n]), s.position + n)
  }

  /** A write that stored less than it was given. */
  predicate Short(op: Op, r: Outcome) { op.WriteNext? && r.Put? && r.count < |op.data| }

  /** A transfer whose end a 32-bit position does not reach. */
  predicate TooFar(s: PlainFile, op: Op) {
    match op
    case SeekTo(_, _) => false
    case ReadNext(len) => s.position + len > FILE_MAX_SIZE
    case WriteNext(data) => s.position + |data| > FILE_MAX_SIZE || |s.bytes| + |data| > FILE_MAX_SIZE
  }

  /** A file of this size needs all of its `n` clusters. */
  predicate NeedsAll(g: Geometry, n: nat, size: nat) { n <= 1 || Chunk(g, n - 1) < size }

  /** A write past the end of a file that started with `clusters` clusters and has more than it needs. */
  predicate PastSpare(g: Geometry, s: PlainFile, op: Op, clusters: nat) {
    op.WriteNext? && op.data != [] && s.position > |s.bytes| && !NeedsAll(g, clusters, |s.bytes|)
  }

  predicate WellFormed(op: Op) { op.SeekTo? ==> -INT_LIMIT <= op.offset < INT_LIMIT }

  /** Of the first `n` operations the last one that did anything was a write. `before` says whether
      one came before all of them. */
  predicate AfterWrite(outcomes: seq<Outcome>, n: nat, before: bool)
    requires n <= |outcomes|
  {
    if n == 0 then before
    else
      match outcomes[n - 1]
      case Sought(position) => position < 0 && AfterWrite(outcomes, n - 1, before)
      case Got(data) => data == [] && AfterWrite(outcomes, n - 1, before)
      case Put(count) => count > 0 || AfterWrite(outcomes, n - 1, before)
  }

  /** The position is between two clusters of the file. */
  predicate Between(g: Geometry, s: PlainFile) { s.position < |s.bytes| && OnEdge(g, s.position) }

  /** A read of less than a sector, between two clusters, with nothing done since a write ended there. */
  predicate ReadsPastCluster(g: Geometry, s: PlainFile, op: Op, afterWrite: bool) {
    && op.ReadNext? && op.len > 0 && Available(|s.bytes|, s.position, op.len) < g.bytesPerSector
    && afterWrite && Between(g, s)
  }

  /** The chain still has the given number of clusters, or has grown as far as the size needs. */
  ghost predicate Since(g: Geometry, clusters: nat, ch: seq<nat>, size: nat) {
    |ch| == clusters || (|ch| > clusters && Chunk(g, |ch| - 1) < size)
  }

  /** Whether clusters are superfluous can be told from how many there were at the start. */
  lemma SpareSince(g: Geometry, clusters: nat, ch: seq<nat>, size: nat)
    requires Since(g, clusters, ch, size)
    ensures Snug(g, ch, size) <==> NeedsAll(g, clusters, size)
  {
    if |ch| > clusters > 0 { ChunkMonotone(g, clusters - 1, |ch| - 1); }
  }

  lemma SinceMore(g: Geometry, clusters: nat, ch: seq<nat>, size: nat, ch': seq<nat>, size': nat, p: int)
    requires Since(g, clusters, ch, size) && size <= size' && ch <= ch'
    requires ch' == ch || (AsNeeded(g, ch, ch', p) && p <= size')
    ensures Since(g, clusters, ch', size')
  {
    hide Chunk;
  }

  /** The file is open for reading and writing, and its saved place is one of its position. It had so many clusters at
      the start. */
  ghost predicate InSession(file: File, others: set<seq<nat>>, clusters: nat)
    reads file, file.part, file.part.cache, file.part.cache.entries, file.part.cache.disc
  {
    && file.Valid(others) && file.Placed() && Since(file.part.geometry, clusters, file.chain, file.filesize)
    && file.inUse && file.read && file.write && !file.append
  }

  ghost function PlainOf(file: File): PlainFile
    reads file, file.part, file.part.cache
  {
    PlainFile(file.Contents(), file.currentPosition)
  }

  /** The place is settled, or else a write ended between two clusters. */
  ghost predicate SettledUnless(file: File, afterWrite: bool)
    reads file, file.part, file.part.cache
  {
    file.Settled() <==> !(afterWrite && Between(file.part.geometry, PlainOf(file)))
  }

  /** One operation. A full disc ends a run. */
  method Perform(file: File, op: Op, ghost clusters: nat, ghost afterWrite: bool, ghost others: set<seq<nat>>)
    returns (r: Outcome, more: bool)
    requires InSession(file, others, clusters) && file.CanAllocate() && WellFormed(op) && !TooFar(PlainOf(file), op)
    requires SettledUnless(file, afterWrite) && !ReadsPastCluster(file.part.geometry, PlainOf(file), op, afterWrite)
    requires !PastSpare(file.part.geometry, PlainOf(file), op, clusters)
    modifies file, file.part, file.part.cache, file.part.cache.entries, file.part.cache.disc
    ensures file.Valid(others) && Step(old(PlainOf(file)), op, r, PlainOf(file), old(file.Capacity()))
    ensures file.Capacity() == old(file.Capacity())
    ensures OthersKept(file.part.geometry, old(file.part.cache.view), file.part.cache.view, others)
    ensures more == !Short(op, r)
    ensures more ==>
              InSession(file, others, clusters) && file.CanAllocate()
                  && SettledUnless(file, AfterWrite([r], 1, afterWrite))
    ensures !more ==> file.NoneFree()
  {
    hide Allocated, ValidGeometry, Owns, Table, Forest, Chunk, ContentsOf, Snug, Denotes, OthersKept, Searchable, Full,
      Slice, OnEdge, WriteAt,
      CutWrite, EndIn, Since, NeedsAll, AsNeeded, WriteCount;
    file.ContentsFacts(others);
    file.EndFacts(others);
    SpareSince(file.part.geometry, clusters, file.chain, file.filesize);
    SessionOthers(file, others);
    match op {
      case SeekTo(offset, whence) =>
        var ret := file.Seek(offset, whence, others);
        r, more := Sought(ret), true;
      case ReadNext(len) =>
        var ret, data := file.Read(len, others);
        r, more := Got(data), true;
      case WriteNext(data) =>
        r, more := PerformWrite(file, data, clusters, afterWrite, others);
    }
  }

  method PerformWrite(file: File, data: seq<byte>, ghost clusters: nat, ghost afterWrite: bool,
                      ghost others: set<seq<nat>>)
    returns (r: Outcome, more: bool)
    requires InSession(file, others, clusters) && file.CanAllocate() && !TooFar(PlainOf(file), WriteNext(data))
    requires SettledUnless(file, afterWrite) && !PastSpare(file.part.geometry, PlainOf(file), WriteNext(data), clusters)
    modifies file, file.part, file.part.cache, file.part.cache.entries, file.part.cache.disc
    ensures file.Valid(others) && Step(old(PlainOf(file)), WriteNext(data), r, PlainOf(file), old(file.Capacity()))
    ensures file.Capacity() == old(file.Capacity())
    ensures OthersKept(file.part.geometry, old(file.part.cache.view), file.part.cache.view, others)
    ensures more == !Short(WriteNext(data), r)
    ensures more ==>
              InSession(file, others, clusters) && file.CanAllocate()
                  && SettledUnless(file, AfterWrite([r], 1, afterWrite))
    ensures !more ==> file.NoneFree()
  {
    hide Allocated, ValidGeometry, Owns, Table, Forest, Chunk, ContentsOf, Snug, Denotes, OthersKept, Searchable, Full,
      Slice, OnEdge, WriteAt,
      CutWrite, EndIn, Since, NeedsAll, AsNeeded, WriteCount, PosAt, PlaceIn;
    file.ContentsFacts(others);
    file.EndFacts(others);
    SpareSince(file.part.geometry, clusters, file.chain, file.filesize);
    ghost var ch, size, place := file.chain, file.filesize, file.Place();
    var ret := file.Write(data, others);
    r, more := Put(ret), ret == |data|;
    file.ContentsFacts(others);
    if more { SinceMore(file.part.geometry, clusters, ch, size, file.chain, file.filesize, place + ret); }
  }

  lemma SessionOthers(file: File, others: set<seq<nat>>)
    requires file.Valid(others)
    ensures OthersKept(file.part.geometry, file.part.cache.view, file.part.cache.view, others)
  {
    AllocatedFacts(file.part, others, file.startCluster, file.chain);
    OthersSame(file.part.geometry, file.part.cache.view, others);
  }

  /** The outcomes are those of a plain file that goes through the given states. */
  ghost predicate Follows(ops: seq<Op>, outcomes: seq<Outcome>, states: seq<PlainFile>, capacity: nat) {
    && |states| == |outcomes| + 1 && |outcomes| <= |ops|
    && forall i :: 0 <= i < |outcomes| ==> Step(states[i], ops[i], outcomes[i], states[i + 1], capacity)
  }

  /** The operations that end a run before they are done. */
  predicate Stops(g: Geometry, ops: seq<Op>, outcomes: seq<Outcome>, states: seq<PlainFile>, i: nat, clusters: nat,
                  before: bool) {
    && i < |ops| && i <= |outcomes| && i < |states|
    && (TooFar(states[i], ops[i]) || ReadsPastCluster(g, states[i], ops[i], AfterWrite(outcomes, i, before))
        || PastSpare(g, states[i], ops[i], clusters))
  }

  /** Any run of operations, on a file of so many clusters that can grow to a fixed number of bytes: every outcome is
      that of a plain file, the file ends as the plain file does, and nobody else's bytes have changed. The run
      ends early exactly at a transfer that a 32-bit position cannot follow, at a read of less than a
      sector between two clusters right after a write, at a write past the end of a file that has more clusters than it
      needs, or after a write for which no cluster was free. */
  method Run(file: File, ops: seq<Op>, clusters: nat, ghost others: set<seq<nat>>)
    returns (outcomes: seq<Outcome>, ghost states: seq<PlainFile>)
    requires InSession(file, others, clusters) && clusters == |file.chain| && file.CanAllocate()
    requires forall i :: 0 <= i < |ops| ==> WellFormed(ops[i])
    modifies file, file.part, file.part.cache, file.part.cache.entries, file.part.cache.disc
    ensures file.Valid(others) && Follows(ops, outcomes, states, old(file.Capacity()))
            && file.Capacity() == old(file.Capacity())
    ensures states[0] == old(PlainOf(file)) && states[|outcomes|] == PlainOf(file)
    ensures forall i :: 0 <= i < |outcomes| ==>
              && !Stops(file.part.geometry, ops, outcomes, states, i, clusters, !old(file.Settled()))
              && (Short(ops[i], outcomes[i]) ==> i == |outcomes| - 1 && file.NoneFree())
    ensures |outcomes| < |ops| ==>
              || Stops(file.part.geometry, ops, outcomes, states, |outcomes|, clusters, !old(file.Settled()))
              || (outcomes != [] && Short(ops[|outcomes| - 1], outcomes[|outcomes| - 1]))
    ensures OthersKept(file.part.geometry, old(file.part.cache.view), file.part.cache.view, others)
  {
    hide InSession, Allocated, ValidGeometry, Owns, Table, Forest, Chunk, ContentsOf, Snug, Denotes, OthersKept,
      Searchable, Full, Step, PlainOf, TooFar, Short, AfterWrite, ReadsPastCluster, SettledUnless, OnEdge, WellFormed,
      Since, PastSpare;
    outcomes, states := [], [PlainOf(file)];
    ghost var before := !file.Settled();
    SessionStart(file, others, clusters);
    BeforeRun(file, others, clusters, before);
    var i := 0;
    while i < |ops|
      invariant i == |outcomes| <= |ops| && Follows(ops, outcomes, states, old(file.Capacity()))
      invariant InSession(file, others, clusters) && file.CanAllocate() && file.Capacity() == old(file.Capacity())
      invariant SettledUnless(file, AfterWrite(outcomes, i, before))
      invariant states[0] == old(PlainOf(file)) && states[i] == PlainOf(file)
      invariant forall k :: 0 <= k < i ==>
                  !Stops(file.part.geometry, ops, outcomes, states, k, clusters, before) && !Short(ops[k], outcomes[k])
      invariant OthersKept(file.part.geometry, old(file.part.cache.view), file.part.cache.view, others)
    {
      SessionStart(file, others, clusters);
      StopsMeans(file, others, ops[i], clusters, AfterWrite(outcomes, i, before));
      if StopsAt(file, ops[i], clusters) {
        return;
      }
      ghost var v := file.part.cache.view;
      var r, more;
      r, more := Perform(file, ops[i], clusters, AfterWrite(outcomes, i, before), others);
      OthersKeptThen(file.part.geometry, old(file.part.cache.view), v, file.part.cache.view, others);
      FollowsMore(ops, outcomes, states, r, PlainOf(file), old(file.Capacity()));
      StopsMore(file.part.geometry, ops, outcomes, states, r, PlainOf(file), clusters, before);
      outcomes, states := outcomes + [r], states + [PlainOf(file)];
      if !more {
        return;
      }
      i := i + 1;
    }
    SessionStart(file, others, clusters);
  }

  /** Whether the next operation ends the run. */
  predicate StopsAt(file: File, op: Op, clusters: nat)
    reads file
  {
    var position, size, g := file.currentPosition, file.filesize, file.part.geometry;
    match op
    case SeekTo(_, _) => false
    case ReadNext(len) =>
      || position + len > FILE_MAX_SIZE
      || (len > 0 && Available(size, position, len) < g.bytesPerSector && position < size
         && file.startCluster != CLUSTER_FREE
          && file.rwPosition.sector >= g.sectorsPerCluster)
    case WriteNext(data) =>
      || position + |data| > FILE_MAX_SIZE || size + |data| > FILE_MAX_SIZE
      || (data != [] && position > size && !NeedsAll(g, clusters, size))
  }

  lemma StopsMeans(file: File, others: set<seq<nat>>, op: Op, clusters: nat, afterWrite: bool)
    requires InSession(file, others, clusters) && SettledUnless(file, afterWrite)
    ensures StopsAt(file, op, clusters) <==>
              || TooFar(PlainOf(file), op) || ReadsPastCluster(file.part.geometry, PlainOf(file), op, afterWrite)
              || PastSpare(file.part.geometry, PlainOf(file), op, clusters)
  {
    hide Allocated, ContentsOf, Snug, Denotes, OnEdge, Chunk;
    file.ContentsFacts(others);
    AllocatedFacts(file.part, others, file.startCluster, file.chain);
    if file.filesize > 0 { InChainOf(file.part, file.chain, file.filesize); }
  }

  /** A place that is not settled at the start is between two clusters. */
  lemma BeforeRun(file: File, others: set<seq<nat>>, clusters: nat, before: bool)
    requires InSession(file, others, clusters) && before == !file.Settled()
    ensures SettledUnless(file, AfterWrite([], 0, before))
  {
    hide Allocated, ContentsOf, Snug, Denotes, OnEdge, Chunk;
    file.ContentsFacts(others);
    if before {
      EdgeOfPlace(file.part.geometry, file.chain, file.rwPosition, file.currentPosition);
      DenotesBound(file.part.geometry, file.chain, file.rwPosition, file.currentPosition);
    }
  }

  lemma DenotesBound(g: Geometry, ch: seq<nat>, pos: FilePosition, p: nat)
    requires Denotes(g, ch, pos, p)
    ensures pos.sector <= g.sectorsPerCluster
  {
  }

  lemma SessionStart(file: File, others: set<seq<nat>>, clusters: nat)
    requires InSession(file, others, clusters)
    ensures file.Valid(others)
    ensures OthersKept(file.part.geometry, file.part.cache.view, file.part.cache.view, others)
  {
    SessionOthers(file, others);
  }

  lemma FollowsMore(ops: seq<Op>, outcomes: seq<Outcome>, states: seq<PlainFile>, r: Outcome, s: PlainFile,
                    capacity: nat)
    requires Follows(ops, outcomes, states, capacity) && |outcomes| < |ops|
    requires Step(states[|outcomes|], ops[|outcomes|], r, s, capacity)
    ensures Follows(ops, outcomes + [r], states + [s], capacity)
  {
    hide Step;
    var rs, ss := outcomes + [r], states + [s];
    forall i | 0 <= i < |rs| ensures Step(ss[i], ops[i], rs[i], ss[i + 1], capacity) {
      if i < |outcomes| { assert ss[i] == states[i] && ss[i + 1] == states[i + 1]; }
    }
  }

  /** What comes later does not matter for whether an operation ended the run. */
  lemma StopsMore(g: Geometry, ops: seq<Op>, outcomes: seq<Outcome>, states: seq<PlainFile>, r: Outcome, s: PlainFile,
                  clusters: nat, before: bool)
    requires |states| == |outcomes| + 1 && |outcomes| < |ops|
    ensures forall i :: 0 <= i <= |outcomes| ==>
              (Stops(g, ops, outcomes + [r], states + [s], i, clusters, before) <==>
                   Stops(g, ops, outcomes, states, i, clusters, before))
    ensures AfterWrite(outcomes + [r], |outcomes| + 1, before)
        <==> AfterWrite([r], 1, AfterWrite(outcomes, |outcomes|, before))
  {
    hide TooFar, ReadsPastCluster, PastSpare;
    forall i | 0 <= i <= |outcomes|
      ensures Stops(g, ops, outcomes + [r], states + [s], i, clusters, before) <==>
                Stops(g, ops, outcomes, states, i, clusters, before)
    {
      AfterWriteMore(outcomes, r, i, before);
    }
    AfterWriteMore(outcomes, r, |outcomes|, before);
  }

  lemma {:induction false} AfterWriteMore(outcomes: seq<Outcome>, r: Outcome, n: nat, before: bool)
    requires n <= |outcomes|
    ensures AfterWrite(outcomes + [r], n, before) == AfterWrite(outcomes, n, before)
  {
    if n > 0 { AfterWriteMore(outcomes, r, n - 1, before); }
  }

  /** In a plain file a seek goes to the sum of base and offset, if that is below 2^31. */
  lemma StepSeeks(s: PlainFile, offset: int, whence: Whence, r: Outcome, s': PlainFile, capacity: nat)
    requires Step(s, SeekTo(offset, whence), r, s', capacity)
    requires s.position <= FILE_MAX_SIZE && |s.bytes| <= FILE_MAX_SIZE
    requires -INT_LIMIT <= offset < INT_LIMIT
    ensures var p := offset + if whence.FromStart? then 0 else if whence.FromEnd? then |s.bytes| else s.position;
            && (0 <= p < 0x8000_0000 ==> r == Sought(p) && s' == PlainFile(s.bytes, p))
            && (p < 0 || 0x8000_0000 <= p < 0x1_0000_0000 ==> r == Sought(-1) && s' == s)
  {
    SeekTargetExact(Base(s, whence), offset);
  }

  /** A read returns the bytes from the position on, all that was asked for or all there are, and moves behind them. */
  lemma StepReads(s: PlainFile, len: nat, data: seq<byte>, s': PlainFile, capacity: nat)
    requires Step(s, ReadNext(len), Got(data), s', capacity)
    ensures s'.bytes == s.bytes && s'.position == s.position + |data| && |data| <= len
    ensures |data| == len || s'.position >= |s.bytes|
    ensures data != [] ==> s'.position <= |s.bytes| && data == s.bytes[s.position..s'.position]
  {
  }

  /** A write stores all of its bytes if the file can have room for them, else what there is room for, and moves behind
      them; a gap becomes zeros, and every other byte stays. */
  lemma StepWrites(s: PlainFile, data: seq<byte>, count: int, s': PlainFile, capacity: nat)
    requires Step(s, WriteNext(data), Put(count), s', capacity) && data != []
    ensures s.position + |data| <= capacity ==> count == |data|
    ensures 0 < capacity && s.position <= capacity < s.position + |data| ==> count == capacity - s.position
    ensures s.position > capacity || capacity == 0 ==> count == -1 && s' == s
    ensures count >= 0 ==>
              && s'.position == s.position + count
              && |s'.bytes| == (if s'.position > |s.bytes| then s'.position else |s.bytes|)
              && (forall i :: s.position <= i < s'.position ==> s'.bytes[i] == data[i - s.position])
              && (forall i :: 0 <= i < |s.bytes| && !(s.position <= i < s'.position) ==> s'.bytes[i] == s.bytes[i])
              && forall i :: |s.bytes| <= i < s.position ==> s'.bytes[i] == 0
  {
  }

  /** In a plain file, what was written is what a seek back and a read return. */
  lemma ReadsBack(s0: PlainFile, data: seq<byte>, s1: PlainFile, s2: PlainFile, r: Outcome, s3: PlainFile,
                  capacity: nat)
    requires Step(s0, WriteNext(data), Put(|data|), s1, capacity) && data != [] && s0.position < INT_LIMIT
    requires Step(s1, SeekTo(s0.position, FromStart), Sought(s0.position), s2, capacity)
    requires Step(s2, ReadNext(|data|), r, s3, capacity)
    ensures r == Got(data) && s3 == s1
  {
    SeekTargetExact(0, s0.position);
    WrittenThenRead(s0.bytes, s0.position, data, 0, 0);
    assert data[..|data|] == data;
  }

  /** Two complete writes, one behind the other, are one. */
  lemma TwoWritesAreOne(s0: PlainFile, data: seq<byte>, s1: PlainFile, more: seq<byte>, s2: PlainFile, capacity: nat)
    requires Step(s0, WriteNext(data), Put(|data|), s1, capacity)
             && Step(s1, WriteNext(more), Put(|more|), s2, capacity)
    ensures Step(s0, WriteNext(data + more), Put(|data + more|), s2, capacity)
  {
    hide WriteAt;
    assert data[..|data|] == data && more[..|more|] == more && (data + more)[..|data + more|] == data + more;
    if data == [] {
      assert data + more == more;
    } else if more == [] {
      assert data + more == data;
    } else {
      WritesJoin(s0.bytes, s0.position, data, more);
    }
  }
}
