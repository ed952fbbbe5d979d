/** The write-back page cache between the file system and the device (modules/libfat/cache.c). */
module Cache {
  import opened Bytes
  import opened CachePages
  import opened CacheRecency
  import Disc

  const TICKS: nat := 0x1_0000_0000

  /** A C buffer argument that may be NULL, in which case zeros are stored. */
  datatype Source = Null | Buffer(bytes: seq<byte>)

  ghost predicate Supplies(src: Source, size: nat) { src.Buffer? ==> |src.bytes| >= size }

  function Taken(src: Source, from: nat, size: nat): (b: seq<byte>)
    requires Supplies(src, from + size)
    ensures |b| == size
  {
    match src
    case Null => Zeros(size)
    case Buffer(bytes) => bytes[from..from + size]
  }

  lemma SpliceTwice(view: seq<byte>, at: nat, src: Source, done: nat, size: nat)
    requires Supplies(src, done + size) && at + done + size <= |view|
    ensures Splice(Splice(view, at, Taken(src, 0, done)), at + done, Taken(src, done, size))
         == Splice(view, at, Taken(src, 0, done + size))
  {
  }

  class Cache {
    const disc: Disc.Disc
    const layout: Layout
    const entries: array<CacheEntry>
    var accessCounter: nat
    /** The partition image that the resident pages and the device stand for together. */
    ghost var view: seq<byte>
    /** When each page was last touched, since the cache was last emptied. */
    ghost var touched: map<nat, nat>
    /** The number of accesses so far, which the 32-bit counter follows modulo its width. */
    ghost var ticks: nat

    ghost predicate Valid()
      reads this, entries, disc
    {
      && ValidLayout(layout) && layout.sectorsPerPage == SECTORS_PER_PAGE
      && disc.bytesPerSector == layout.bytesPerSector
      && entries.Length >= 2
      && Coherent(layout, entries[..], view, disc.bytes)
      && accessCounter == ticks % TICKS
      && (ticks < TICKS ==> Recent(entries[..], touched, ticks))
    }

    /** Whether the page that `sector` belongs to is in memory. */
    ghost predicate InMemory(sector: nat)
      reads this, entries
      requires layout.sectorsPerPage > 0
    {
      IsResident(entries[..], PageBase(layout, sector))
    }

    constructor (disc: Disc.Disc, endOfPartition: nat, numberOfPages: nat)
      requires disc.bytesPerSector > 0 && endOfPartition < CACHE_FREE && numberOfPages >= 2
      requires endOfPartition * disc.bytesPerSector <= |disc.bytes|
      ensures Valid() && this.disc == disc && fresh(entries) && entries.Length == numberOfPages
      ensures layout == Layout(disc.bytesPerSector, SECTORS_PER_PAGE, endOfPartition)
      ensures view == disc.bytes[..endOfPartition * disc.bytesPerSector]
    {
      var l := Layout(disc.bytesPerSector, SECTORS_PER_PAGE, endOfPartition);
      this.disc := disc;
      layout := l;
      var empty := CacheEntry(CACHE_FREE, 0, 0, false, Zeros(l.sectorsPerPage * l.bytesPerSector));
      entries := new CacheEntry[numberOfPages](_ => empty);
      accessCounter, ticks, touched := 0, 0, map[];
      view := disc.bytes[..endOfPartition * disc.bytesPerSector];
      new;
      assert forall i :: 0 <= i < |entries[..]| ==> entries[..][i] == empty;
    }

    method AccessTime() returns (t: nat)
      modifies this`accessCounter, this`ticks
      ensures ticks == old(ticks) + 1
      ensures accessCounter == t == (old(accessCounter) + 1) % TICKS
    {
      accessCounter := (accessCounter + 1) % TICKS;
      ticks := ticks + 1;
      t := accessCounter;
    }

    /** The scan of the page table: the page that holds `sector`, or the one to give up for it. */
    method Scan(sector: nat) returns (hit: bool, index: nat)
      requires Valid() && sector < layout.endOfPartition
      ensures index < entries.Length
      ensures hit ==> Holds(entries[index], sector)
      ensures !hit ==> forall i :: 0 <= i < entries.Length ==> !Holds(entries[i], sector)
      ensures !hit && ticks < TICKS ==> Victim(entries[..], index)
      ensures !hit && entries[index].dirty ==> forall i :: 0 <= i < entries.Length ==> Resident(entries[i])
    {
      var foundFree, oldUsed, oldAccess := false, 0, CACHE_FREE;
      var i := 0;
      while i < entries.Length
        invariant 0 <= i <= entries.Length && oldUsed < entries.Length
        invariant forall j :: 0 <= j < i ==> !Holds(entries[j], sector)
        invariant foundFree ==> !Resident(entries[oldUsed])
        invariant !foundFree ==> forall j :: 0 <= j < i ==> Resident(entries[j])
        invariant !foundFree ==> forall j :: 0 <= j < i ==> oldAccess <= entries[j].lastAccess
        invariant !foundFree ==>
                    (oldAccess == CACHE_FREE && oldUsed == 0)
                       || (oldUsed < i && oldAccess == entries[oldUsed].lastAccess)
      {
        if Holds(entries[i], sector) {
          return true, i;
        }
        if !foundFree && (entries[i].sector == CACHE_FREE || entries[i].lastAccess < oldAccess) {
          if entries[i].sector == CACHE_FREE {
            foundFree := true;
          }
          oldUsed := i;
          oldAccess := entries[i].lastAccess;
        }
        i := i + 1;
      }
      if ticks < TICKS && !foundFree {
        LeastUsedIsVictim(entries[..], touched, ticks, oldUsed, oldAccess);
      }
      assert entries[oldUsed].dirty ==> Resident(entries[oldUsed]) by {
        assert PageOk(layout, entries[..][oldUsed]);
      }
      hit, index := false, oldUsed;
    }

    /** Writes page `i` back; the page stays dirty if the device refuses. */
    method WriteBack(i: nat) returns (ok: bool)
      requires Valid() && i < entries.Length && entries[i].dirty
      modifies entries, disc
      ensures Valid()
      ensures disc.reliable ==> ok
      ensures entries[..] == if ok then old(entries[..])[i := old(entries[i]).(dirty := false)] else old(entries[..])
      ensures forall j :: 0 <= j < entries.Length ==>
                entries[j].sector == old(entries[j].sector) && entries[j].count == old(entries[j].count)
      ensures ok ==> !entries[i].dirty
      ensures ok && old(Victim(entries[..], i)) ==> Victim(entries[..], i)
      ensures disc.transfers == old(disc.transfers) + 1
    {
      ghost var es, media := entries[..], disc.bytes;
      var e := entries[i];
      assert PageOk(layout, es[i]);
      PageExtent(layout, e);
      assert Shows(layout, es[i], view);
      ok := disc.WriteSectors(e.sector, e.count, e.data[..At(layout, e.count)]);
      WriteBackKeeps(layout, es, view, media, disc.bytes, i);
      if ok {
        assert disc.bytes[Lo(layout, e)..Hi(layout, e)] == PageBytes(layout, e);
        entries[i] := e.(dirty := false);
        assert entries[..] == es[i := e.(dirty := false)];
        if ticks < TICKS { RecentFrame(es, entries[..], touched, ticks); }
      }
    }

    /** Brings the page that `sector` belongs to into the clean page slot `v`. */
    method Load(v: nat, sector: nat) returns (ok: bool)
      requires Valid() && v < entries.Length && sector < layout.endOfPartition && !entries[v].dirty
      requires forall i :: 0 <= i < entries.Length ==> !Holds(entries[i], sector)
      requires ticks < TICKS ==> Victim(entries[..], v)
      modifies this`accessCounter, this`ticks, this`touched, entries, disc`transfers
      ensures Valid()
      ensures disc.reliable ==> ok
      ensures ok ==> Holds(entries[v], sector)
      ensures ok ==> ticks == old(ticks) + 1 && touched == old(touched)[PageBase(layout, sector) := ticks]
      ensures !ok ==> ticks == old(ticks) && touched == old(touched) && entries[..] == old(entries[..])
      ensures disc.transfers == old(disc.transfers) + 1
    {
      hide Coherent, Recent, Victim;
      var base := PageBase(layout, sector);
      var count := PageCount(layout, base);
      assert PageOk(layout, entries[..][v]) by { PagesAreOk(); }
      LoadExtent(base);
      var data;
      ok, data := disc.ReadSectors(base, count);
      if ok {
        Install(v, sector, base, count, data);
      }
    }

    lemma PagesAreOk()
      requires Valid()
      ensures forall i :: 0 <= i < entries.Length ==> PageOk(layout, entries[..][i])
      ensures |view| == At(layout, layout.endOfPartition) <= |disc.bytes|
    {
    }

    lemma LoadExtent(base: nat)
      requires Valid() && base < layout.endOfPartition
      ensures At(layout, base) <= At(layout, base + PageCount(layout, base)) <= |disc.bytes|
      ensures At(layout, base + PageCount(layout, base)) - At(layout, base) <= At(layout, layout.sectorsPerPage)
    {
      var count := PageCount(layout, base);
      AtMonotone(layout, base, base + count);
      AtMonotone(layout, base + count, layout.endOfPartition);
      AtMonotone(layout, count, layout.sectorsPerPage);
    }

    /** The page table entry for sectors that have just been read. */
    method Install(v: nat, ghost sector: nat, base: nat, count: nat, data: seq<byte>)
      requires Valid() && v < entries.Length && sector < layout.endOfPartition && !entries[v].dirty
      requires base == PageBase(layout, sector) && count == PageCount(layout, base)
      requires forall i :: 0 <= i < entries.Length ==> !Holds(entries[i], sector)
      requires ticks < TICKS ==> Victim(entries[..], v)
      requires At(layout, base) <= At(layout, base + count) <= |disc.bytes|
      requires data == disc.bytes[At(layout, base)..At(layout, base + count)]
      requires |data| <= |entries[v].data| == At(layout, layout.sectorsPerPage)
      modifies this`accessCounter, this`ticks, this`touched, entries
      ensures Valid() && Holds(entries[v], sector)
      ensures ticks == old(ticks) + 1 && touched == old(touched)[PageBase(layout, sector) := ticks]
    {
      hide Coherent, Recent, Victim, At;
      ghost var es := entries[..];
      HeldMeansInMemory(sector);
      var now := AccessTime();
      var e := CacheEntry(base, count, now, false, Splice(entries[v].data, 0, data));
      InstallCoherent(es, v, e, data);
      entries[v] := e;
      touched := touched[base := ticks];
      assert entries[..] == es[v := e];
      if ticks < TICKS {
        TouchLoaded(es, old(touched), old(ticks), v, e);
      }
    }

    lemma InstallCoherent(es: seq<CacheEntry>, v: nat, e: CacheEntry, data: seq<byte>)
      requires ValidLayout(layout) && Coherent(layout, es, view, disc.bytes) && v < |es| && !es[v].dirty
      requires PageOk(layout, e) && Resident(e) && !e.dirty && !IsResident(es, e.sector)
      requires At(layout, e.sector) <= At(layout, e.sector + e.count) <= |disc.bytes|
      requires data == disc.bytes[At(layout, e.sector)..At(layout, e.sector + e.count)]
      requires |data| <= |es[v].data| && e.data == Splice(es[v].data, 0, data)
      ensures Coherent(layout, es[v := e], view, disc.bytes)
    {
      assert PageBytes(layout, e) == data;
      LoadKeeps(layout, es, view, disc.bytes, v, e);
    }

    lemma HeldMeansInMemory(sector: nat)
      requires Valid() && sector < layout.endOfPartition
      ensures InMemory(sector) <==> exists i :: 0 <= i < entries.Length && Holds(entries[i], sector)
    {
      InMemoryIffHeld(layout, entries[..], sector);
    }

    /** A hit: the page that holds `sector` gets a new time stamp. */
    method Touch(index: nat, sector: nat)
      requires Valid() && sector < layout.endOfPartition && index < entries.Length && Holds(entries[index], sector)
      modifies this`accessCounter, this`ticks, this`touched, entries
      ensures Valid() && Holds(entries[index], sector)
      ensures ticks == old(ticks) + 1 && touched == old(touched)[PageBase(layout, sector) := ticks]
    {
      hide Coherent, Recent, Resident, PageBase, PageOk, ValidLayout;
      ghost var es := entries[..];
      PagesAreOk();
      assert PageOk(layout, es[index]);
      HoldsIffBase(layout, es[index], sector);
      var now := AccessTime();
      entries[index] := entries[index].(lastAccess := now);
      touched := touched[PageBase(layout, sector) := ticks];
      assert entries[..] == es[index := es[index].(lastAccess := now)];
      StampKeeps(layout, es, view, disc.bytes, index, now);
      if ticks < TICKS {
        TouchResident(es, old(touched), old(ticks), index);
      }
    }

    /** Finds or loads the page with `sector` and returns its index. The image never changes,
        whatever the device does, and a page that is in memory costs no transfer. */
    method GetPage(sector: nat) returns (ok: bool, index: nat)
      requires Valid() && sector < layout.endOfPartition
      modifies this`accessCounter, this`ticks, this`touched, entries, disc
      ensures Valid()
      ensures disc.reliable ==> ok
      ensures ok ==> index < entries.Length && Holds(entries[index], sector)
      ensures old(InMemory(sector)) ==> ok && disc.transfers == old(disc.transfers) && disc.bytes == old(disc.bytes)
      ensures disc.transfers <= old(disc.transfers) + 2
      ensures ok ==> ticks == old(ticks) + 1 && touched == old(touched)[PageBase(layout, sector) := ticks]
      ensures !ok ==> ticks == old(ticks) && touched == old(touched)
    {
      hide Coherent, Recent, Victim;
      var hit;
      hit, index := Scan(sector);
      HeldMeansInMemory(sector);
      if hit {
        Touch(index, sector);
        return true, index;
      }
      if entries[index].dirty {
        ok := WriteBack(index);
        if !ok {
          return;
        }
      }
      ok := Load(index, sector);
    }

    method ReadInPage(index: nat, sector: nat, offset: nat, size: nat) returns (data: seq<byte>)
      requires Valid() && index < entries.Length && Holds(entries[index], sector) && sector < layout.endOfPartition
      requires offset + size <= layout.bytesPerSector
      ensures At(layout, sector) + offset + size <= |view| && data == Slice(view, At(layout, sector) + offset, size)
    {
      hide Coherent, Recent, At, Slice, PageBase, PageCount;
      var e := entries[index];
      SectorInPage(layout, entries[..], view, disc.bytes, index, sector);
      var from := At(layout, sector - e.sector) + offset;
      data := Slice(e.data, from, size);
      SubSlices(e.data, from - offset, view, At(layout, sector), layout.bytesPerSector, offset, size);
    }

    /** The bytes `offset..offset + size` of a sector. */
    method ReadPartialSector(sector: nat, offset: nat, size: nat) returns (ok: bool, data: seq<byte>)
      requires Valid() && sector < layout.endOfPartition
      modifies this`accessCounter, this`ticks, this`touched, entries, disc
      ensures Valid()
      ensures offset + size > layout.bytesPerSector ==> !ok
      ensures offset + size <= layout.bytesPerSector && disc.reliable ==> ok
      ensures ok ==> At(layout, sector) + offset + size <= |view|
      ensures ok ==> data == Slice(view, At(layout, sector) + offset, size)
    {
      data := [];
      if offset + size > layout.bytesPerSector {
        return false, data;
      }
      hide Coherent, Recent, At, Slice, PageBase, IsResident;
      var index;
      ok, index := GetPage(sector);
      if !ok {
        return;
      }
      data := ReadInPage(index, sector, offset, size);
    }

    /** Stores `size` bytes of `src` (zeros if NULL) at `offset` in a sector. */
    method WritePartialSector(src: Source, sector: nat, offset: nat, size: nat) returns (ok: bool)
      requires Valid() && sector < layout.endOfPartition && Supplies(src, size)
      modifies this, entries, disc
      ensures Valid()
      ensures offset + size > layout.bytesPerSector ==> !ok
      ensures offset + size <= layout.bytesPerSector && disc.reliable ==> ok
      ensures At(layout, sector) + layout.bytesPerSector <= |view|
      ensures ok ==> view == Splice(old(view), At(layout, sector) + offset, Taken(src, 0, size))
      ensures !ok ==> view == old(view)
    {
      ImageLength(layout, entries[..], view, disc.bytes, sector);
      if offset + size > layout.bytesPerSector {
        return false;
      }
      hide Coherent, Recent, At;
      var index;
      ok, index := GetPage(sector);
      if ok {
        SectorInPage(layout, entries[..], view, disc.bytes, index, sector);
        StoreInPage(index, sector, offset, Taken(src, 0, size));
      }
    }

    /** Zeroes the whole sector, then stores `size` bytes of `src` at `offset`. */
    method EraseWritePartialSector(src: Source, sector: nat, offset: nat, size: nat) returns (ok: bool)
      requires Valid() && sector < layout.endOfPartition && Supplies(src, size)
      modifies this, entries, disc
      ensures Valid()
      ensures offset + size > layout.bytesPerSector ==> !ok
      ensures offset + size <= layout.bytesPerSector && disc.reliable ==> ok
      ensures At(layout, sector) + layout.bytesPerSector <= |view|
      ensures ok ==> view == Splice(old(view), At(layout, sector),
                                    Splice(Zeros(layout.bytesPerSector), offset, Taken(src, 0, size)))
      ensures !ok ==> view == old(view)
    {
      ImageLength(layout, entries[..], view, disc.bytes, sector);
      if offset + size > layout.bytesPerSector {
        return false;
      }
      hide Coherent, Recent, At;
      var index;
      ok, index := GetPage(sector);
      if ok {
        SectorInPage(layout, entries[..], view, disc.bytes, index, sector);
        StoreInPage(index, sector, 0, Zeros(layout.bytesPerSector));
        if src.Buffer? {
          StoreInPage(index, sector, offset, Taken(src, 0, size));
        }
      }
    }

    /** The copy into a page that already holds `sector`. */
    method StoreInPage(index: nat, sector: nat, offset: nat, data: seq<byte>)
      requires Valid() && index < entries.Length && Holds(entries[index], sector)
      requires At(layout, sector) + offset + |data| <= Hi(layout, entries[index])
      modifies this`view, entries
      ensures Valid() && Holds(entries[index], sector)
      ensures Hi(layout, entries[index]) == old(Hi(layout, entries[index]))
      ensures At(layout, sector) + offset + |data| <= |old(view)|
      ensures view == Splice(old(view), At(layout, sector) + offset, data)
    {
      hide Coherent, Recent, At;
      var e := entries[index];
      ghost var es := entries[..];
      SectorInPage(layout, es, view, disc.bytes, index, sector);
      var from := At(layout, sector - e.sector) + offset;
      StoreIsSplice(layout, es, view, disc.bytes, index, from, data);
      var e' := e.(data := Splice(e.data, from, data), dirty := true);
      entries[index] := e';
      view := Splice(view, At(layout, sector) + offset, data);
      assert entries[..] == es[index := e'];
      if ticks < TICKS { RecentFrame(es, entries[..], touched, ticks); }
    }

    /** Reads whole sectors, page by page. */
    method ReadSectors(sector: nat, count: nat) returns (ok: bool, data: seq<byte>)
      requires Valid() && sector + count <= layout.endOfPartition
      modifies this`accessCounter, this`ticks, this`touched, entries, disc
      ensures Valid()
      ensures disc.reliable ==> ok
      ensures At(layout, sector) + At(layout, count) == At(layout, sector + count) <= |view|
      ensures ok ==> data == Slice(view, At(layout, sector), At(layout, count))
    {
      hide Coherent, Recent, At, Slice;
      AtMonotone(layout, sector, sector + count);
      ImageLength(layout, entries[..], view, disc.bytes, sector + count);
      SliceNone(view, At(layout, sector));
      data := [];
      var next: nat, left: nat := sector, count;
      while left > 0
        invariant Valid() && next + left == sector + count && sector <= next
        invariant At(layout, sector) + At(layout, next - sector) == At(layout, next) <= |view|
        invariant data == Slice(view, At(layout, sector), At(layout, next - sector))
      {
        var n, run;
        ok, n, run := ReadRun(next, left);
        if !ok {
          return;
        }
        AtMonotone(layout, sector, next + n);
        AtMonotone(layout, next - sector, next + n - sector);
        AtMonotone(layout, next + n, sector + count);
        AtMonotone(layout, next, next + n);
        SliceAppend(view, At(layout, sector), At(layout, next - sector), At(layout, n));
        data := data + run;
        next, left := next + n, left - n;
      }
      ok := true;
    }

    /** One iteration of that loop: the sectors that lie in the page of `next`. */
    method ReadRun(next: nat, left: nat) returns (ok: bool, n: nat, run: seq<byte>)
      requires Valid() && 0 < left && next + left <= layout.endOfPartition
      modifies this`accessCounter, this`ticks, this`touched, entries, disc
      ensures Valid()
      ensures disc.reliable ==> ok
      ensures ok ==> 0 < n <= left && At(layout, next) + At(layout, n) <= |view|
      ensures ok ==> run == Slice(view, At(layout, next), At(layout, n))
    {
      hide Coherent, Recent, At, Slice;
      n, run := 0, [];
      var index;
      ok, index := GetPage(next);
      if ok {
        var e := entries[index];
        var sec := next - e.sector;
        n := if e.count - sec > left then left else e.count - sec;
        SectorInPage(layout, entries[..], view, disc.bytes, index, next);
        SectorsInPage(layout, entries[..], view, disc.bytes, index, next, n);
        run := Slice(e.data, At(layout, sec), At(layout, n));
      }
    }

    /** Writes whole sectors, page by page. If the device fails part of the way, the first
        `done` sectors have been stored and no other byte of the image has changed. */
    method WriteSectors(sector: nat, count: nat, src: Source) returns (ok: bool, ghost done: nat)
      requires Valid() && sector + count <= layout.endOfPartition
      requires Supplies(src, At(layout, count))
      modifies this, entries, disc
      ensures Valid()
      ensures disc.reliable ==> ok
      ensures done <= count && (ok <==> done == count)
      ensures At(layout, done) <= At(layout, count)
      ensures At(layout, sector) + At(layout, done) <= |old(view)|
      ensures view == Splice(old(view), At(layout, sector), Taken(src, 0, At(layout, done)))
    {
      hide Coherent, Recent, At;
      done := 0;
      var next: nat, left: nat := sector, count;
      AtMonotone(layout, sector, layout.endOfPartition);
      ImageLength(layout, entries[..], view, disc.bytes, sector);
      AtMonotone(layout, 0, count);
      assert view == Splice(view, At(layout, sector), Taken(src, 0, 0));
      while left > 0
        invariant Valid() && next + left == sector + count && next == sector + done
        invariant At(layout, done) <= At(layout, count)
        invariant At(layout, sector) + At(layout, done) <= |old(view)|
        invariant view == Splice(old(view), At(layout, sector), Taken(src, 0, At(layout, done)))
      {
        var index;
        ok, index := GetPage(next);
        if !ok {
          return;
        }
        var e := entries[index];
        var sec := next - e.sector;
        var n := if e.count - sec > left then left else e.count - sec;
        done := WriteRun(index, next, n, sector, count, src, old(view), done);
        next, left := next + n, left - n;
      }
      ok := true;
    }

    /** One iteration of the loop above: `n` sectors into the page at `index`. */
    method WriteRun(index: nat, next: nat, n: nat, sector: nat, ghost count: nat, src: Source,
                    ghost view0: seq<byte>, ghost done: nat) returns (ghost done': nat)
      requires Valid() && index < entries.Length && Holds(entries[index], next)
      requires 0 < n && next + n <= entries[index].sector + entries[index].count
      requires next == sector + done && done + n <= count && Supplies(src, At(layout, count))
      requires At(layout, done) <= At(layout, count)
      requires At(layout, sector) + At(layout, done) <= |view0|
      requires view == Splice(view0, At(layout, sector), Taken(src, 0, At(layout, done)))
      modifies this`view, entries
      ensures Valid() && done' == done + n
      ensures At(layout, done') <= At(layout, count)
      ensures At(layout, sector) + At(layout, done') <= |view0|
      ensures view == Splice(view0, At(layout, sector), Taken(src, 0, At(layout, done')))
    {
      hide Coherent, Recent, At, Splice;
      done' := done + n;
      AtMonotone(layout, done, done + n);
      AtMonotone(layout, done + n, count);
      AtMonotone(layout, sector, next);
      AtMonotone(layout, next, next + n);
      AtMonotone(layout, next + n, entries[index].sector + entries[index].count);
      StoreInPage(index, next, 0, Taken(src, At(layout, next - sector), At(layout, n)));
      SpliceTwice(view0, At(layout, sector), src, At(layout, done), At(layout, n));
    }

    /** Writes every dirty page back. */
    method Flush() returns (ok: bool)
      requires Valid()
      modifies entries, disc
      ensures Valid()
      ensures disc.reliable ==> ok
      ensures ok ==> disc.bytes[..|view|] == view
    {
      var i := 0;
      while i < entries.Length
        invariant Valid() && 0 <= i <= entries.Length
        invariant forall j :: 0 <= j < i ==> !entries[j].dirty
      {
        if entries[i].dirty {
          ok := WriteBack(i);
          if !ok {
            return;
          }
        }
        i := i + 1;
      }
      CleanMeansOnDevice(layout, entries[..], view, disc.bytes);
      ok := true;
    }

    /** Empties the cache. Whatever the flush could not store is lost: from here on the device
        alone is the image. */
    method Invalidate()
      requires Valid()
      modifies this`view, this`touched, entries, disc
      ensures Valid()
      ensures disc.reliable ==> view == old(view)
      ensures view == disc.bytes[..|view|] && |view| == old(|view|)
      ensures forall i :: 0 <= i < entries.Length ==> !Resident(entries[i])
    {
      var flushed := Flush();
      EmptyTable();
    }

    method EmptyTable()
      requires Valid()
      modifies this`view, this`touched, entries
      ensures Valid()
      ensures |view| == old(|view|) && view == disc.bytes[..|view|]
      ensures forall i :: 0 <= i < entries.Length ==> !Resident(entries[i])
    {
      PagesAreOk();
      assert forall j :: 0 <= j < entries.Length ==> entries[j] == entries[..][j];
      var i := 0;
      while i < entries.Length
        invariant 0 <= i <= entries.Length && view == old(view)
        invariant forall j :: 0 <= j < i ==> PageOk(layout, entries[j]) && !Resident(entries[j])
        invariant forall j :: i <= j < entries.Length ==> PageOk(layout, entries[j])
      {
        entries[i] := entries[i].(sector := CACHE_FREE, lastAccess := 0, count := 0, dirty := false);
        i := i + 1;
      }
      view := disc.bytes[..|view|];
      touched := map[];
    }

    /** A little-endian value of one, two or four bytes. */
    method ReadLittleEndianValue(sector: nat, offset: nat, size: nat) returns (ok: bool, value: nat)
      requires Valid() && sector < layout.endOfPartition && size <= 4
      modifies this`accessCounter, this`ticks, this`touched, entries, disc
      ensures Valid()
      ensures ok ==> size in {1, 2, 4}
      ensures disc.reliable && size in {1, 2, 4} && offset + size <= layout.bytesPerSector ==> ok
      ensures ok ==> At(layout, sector) + offset + size <= |view|
      ensures ok ==> value == Value(Slice(view, At(layout, sector) + offset, size))
      ensures ok ==>
                var a := At(layout, sector) + offset;
                && (size == 1 ==> value == view[a])
                && (size == 2 ==> value == view[a] as int + 0x100 * (view[a + 1] as int))
                && (size == 4 ==>
                      value == view[a] as int + 0x100 * (view[a + 1] as int) + 0x1_0000 * (view[a + 2] as int)
                               + 0x100_0000 * (view[a + 3] as int))
    {
      hide Coherent, Recent, At, U32, U16;
      var buf;
      value := 0;
      ok, buf := ReadPartialSector(sector, offset, size);
      if !ok {
        return;
      }
      if size in {1, 2, 4} { ValueIs(buf); }
      match size
      case 1 => value := buf[0];
      case 2 => value := U16(buf);
      case 4 => value := U32(buf);
      case _ => ok := false;
    }

    method WriteLittleEndianValue(value: nat, sector: nat, offset: nat, size: nat) returns (ok: bool)
      requires Valid() && sector < layout.endOfPartition
      modifies this, entries, disc
      ensures Valid()
      ensures ok ==> size in {1, 2, 4} && At(layout, sector) + offset + size <= |old(view)|
      ensures disc.reliable && size in {1, 2, 4} && offset + size <= layout.bytesPerSector ==> ok
      ensures ok ==> view == Splice(old(view), At(layout, sector) + offset, Encoding(value, size))
      ensures ok ==>
                var a := At(layout, sector) + offset;
                && a + size <= |view| && view[a] == value % 0x100
                && (size >= 2 ==> view[a + 1] == value / 0x100 % 0x100)
                && (size == 4 ==> view[a + 2] == value / 0x1_0000 % 0x100 && view[a + 3] == value / 0x100_0000 % 0x100)
      ensures !ok ==> view == old(view)
    {
      hide Coherent, Recent, At, Encoding;
      if size != 1 && size != 2 && size != 4 {
        return false;
      }
      EncodingIs(value, size);
      ok := WritePartialSector(Buffer(Encoding(value, size)), sector, offset, size);
    }
  }
}
