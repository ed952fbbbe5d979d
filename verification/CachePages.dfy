/** The bookkeeping behind the write-back cache: what it means for a set of resident pages
    and the device to stand for one partition image, and which page updates keep that. */
module CachePages {
  import opened Arith
  import opened Bytes

  const CACHE_FREE: nat := 0xFFFF_FFFF
  const SECTORS_PER_PAGE: nat := 8

  /** One page. `data` is the page's buffer; only its first `count` sectors mean anything. */
  datatype CacheEntry = CacheEntry(sector: nat, count: nat, lastAccess: nat, dirty: bool, data: seq<byte>)

  datatype Layout = Layout(bytesPerSector: nat, sectorsPerPage: nat, endOfPartition: nat)

  ghost predicate ValidLayout(l: Layout) {
    l.bytesPerSector > 0 && l.sectorsPerPage > 0 && l.endOfPartition < CACHE_FREE
  }

  predicate Resident(e: CacheEntry) { e.sector != CACHE_FREE }

  predicate Holds(e: CacheEntry, sector: nat) { e.sector <= sector < e.sector + e.count }

  /** The first sector of the page that `sector` belongs to. */
  function PageBase(l: Layout, sector: nat): (b: nat)
    requires l.sectorsPerPage > 0
    ensures b <= sector < b + l.sectorsPerPage && b % l.sectorsPerPage == 0
  {
    MultipleMod(sector / l.sectorsPerPage, l.sectorsPerPage);
    sector / l.sectorsPerPage * l.sectorsPerPage
  }

  /** How many sectors that page has; the partition may end inside it. */
  function PageCount(l: Layout, base: nat): (n: nat)
    requires base < l.endOfPartition && l.sectorsPerPage > 0
    ensures 0 < n <= l.sectorsPerPage && base + n <= l.endOfPartition
  {
    if base + l.sectorsPerPage > l.endOfPartition then l.endOfPartition - base else l.sectorsPerPage
  }

  /** Byte addresses in the partition image. */
  function At(l: Layout, sector: nat): nat { sector * l.bytesPerSector }

  function Lo(l: Layout, e: CacheEntry): nat { At(l, e.sector) }

  function Hi(l: Layout, e: CacheEntry): nat { At(l, e.sector + e.count) }

  lemma AtMonotone(l: Layout, s: nat, t: nat)
    requires s <= t
    ensures At(l, s) <= At(l, t) && At(l, t) - At(l, s) == At(l, t - s)
    ensures s < t ==> At(l, s) + l.bytesPerSector <= At(l, t)
  {
    MulMonotone(s, t, l.bytesPerSector);
  }

  ghost predicate PageOk(l: Layout, e: CacheEntry)
    requires ValidLayout(l)
  {
    && |e.data| == At(l, l.sectorsPerPage)
    && (!Resident(e) ==> e.count == 0 && !e.dirty)
    && (Resident(e) ==>
          && e.sector < l.endOfPartition
          && e.sector % l.sectorsPerPage == 0
          && e.count == PageCount(l, e.sector))
  }

  lemma PageExtent(l: Layout, e: CacheEntry)
    requires ValidLayout(l) && PageOk(l, e) && Resident(e)
    ensures Lo(l, e) < Hi(l, e) <= At(l, l.endOfPartition)
    ensures Hi(l, e) - Lo(l, e) == At(l, e.count) <= |e.data|
  {
    AtMonotone(l, e.sector, e.sector + e.count);
    AtMonotone(l, e.sector + e.count, l.endOfPartition);
    AtMonotone(l, e.count, l.sectorsPerPage);
  }

  /** Two pages are the same page or have no byte in common. */
  lemma PagesApart(l: Layout, e: CacheEntry, f: CacheEntry)
    requires ValidLayout(l) && PageOk(l, e) && PageOk(l, f)
    requires Resident(e) && Resident(f) && e.sector != f.sector
    ensures Hi(l, e) <= Lo(l, f) || Hi(l, f) <= Lo(l, e)
  {
    BasesApart(l.sectorsPerPage, e.sector, f.sector);
    if e.sector < f.sector {
      AtMonotone(l, e.sector + e.count, f.sector);
    } else {
      AtMonotone(l, f.sector + f.count, e.sector);
    }
  }

  lemma BasesApart(n: nat, a: nat, b: nat)
    requires n > 0 && a % n == 0 && b % n == 0 && a != b
    ensures a + n <= b || b + n <= a
  {
    var x, y := a / n, b / n;
    assert a == x * n && b == y * n;
    if x < y {
      MulMonotone(x, y, n);
    } else {
      assert x != y;
      MulMonotone(y, x, n);
    }
  }

  predicate IsResident(es: seq<CacheEntry>, page: nat) {
    exists i :: 0 <= i < |es| && es[i].sector == page
  }

  /** A page that holds no sector of another page's range is a different page. */
  lemma HoldsIffBase(l: Layout, e: CacheEntry, sector: nat)
    requires ValidLayout(l) && PageOk(l, e) && sector < l.endOfPartition
    ensures Holds(e, sector) <==> e.sector == PageBase(l, sector)
  {
    var b := PageBase(l, sector);
    if Resident(e) && e.sector != b {
      BasesApart(l.sectorsPerPage, e.sector, b);
    }
  }

  /** The part of the buffer that holds sectors. */
  ghost function PageBytes(l: Layout, e: CacheEntry): (b: seq<byte>)
    requires ValidLayout(l) && PageOk(l, e) && Resident(e)
    ensures |b| == Hi(l, e) - Lo(l, e)
  {
    PageExtent(l, e);
    e.data[..Hi(l, e) - Lo(l, e)]
  }

  /** Page `e` shows the image `view`. */
  ghost predicate Shows(l: Layout, e: CacheEntry, view: seq<byte>)
    requires ValidLayout(l) && PageOk(l, e) && |view| == At(l, l.endOfPartition)
  {
    Resident(e) ==>
      (PageExtent(l, e); PageBytes(l, e) == view[Lo(l, e)..Hi(l, e)])
  }

  ghost predicate InDirtyPage(l: Layout, es: seq<CacheEntry>, a: nat) {
    exists i :: 0 <= i < |es| && es[i].dirty && Lo(l, es[i]) <= a < Hi(l, es[i])
  }

  /** The pages `es` over the device contents `media` stand for the partition image `view`:
      every resident page shows the image, no page is resident twice, and wherever the
      device differs from the image a dirty page covers the difference. */
  ghost predicate Coherent(l: Layout, es: seq<CacheEntry>, view: seq<byte>, media: seq<byte>)
    requires ValidLayout(l)
  {
    && |view| == At(l, l.endOfPartition) <= |media|
    && (forall i :: 0 <= i < |es| ==> PageOk(l, es[i]))
    && (forall i :: 0 <= i < |es| ==> Shows(l, es[i], view))
    && (forall i, j :: 0 <= i < j < |es| && Resident(es[i]) && Resident(es[j]) ==> es[i].sector != es[j].sector)
    && (forall a :: 0 <= a < |view| && view[a] != media[a] ==> InDirtyPage(l, es, a))
  }

  /** The image is determined by what is really there: a resident page's bytes where a page
      is resident, the device's bytes everywhere else. */
  lemma ImageIsResidentElseDevice(l: Layout, es: seq<CacheEntry>, view: seq<byte>, media: seq<byte>, a: nat)
    requires ValidLayout(l) && Coherent(l, es, view, media) && a < |view|
    ensures (forall i :: 0 <= i < |es| && Resident(es[i]) ==> !(Lo(l, es[i]) <= a < Hi(l, es[i]))) ==>
              view[a] == media[a]
    ensures forall i :: 0 <= i < |es| && Resident(es[i]) && Lo(l, es[i]) <= a < Hi(l, es[i]) ==>
              a - Lo(l, es[i]) < |es[i].data| && view[a] == es[i].data[a - Lo(l, es[i])]
  {
    forall i | 0 <= i < |es| && Resident(es[i]) && Lo(l, es[i]) <= a < Hi(l, es[i])
      ensures a - Lo(l, es[i]) < |es[i].data| && view[a] == es[i].data[a - Lo(l, es[i])]
    {
      PageExtent(l, es[i]);
      var o := a - Lo(l, es[i]);
      assert PageBytes(l, es[i])[o] == view[Lo(l, es[i])..Hi(l, es[i])][o];
    }
  }

  /** Writing page `i` back, with or without success, leaves the image alone. */
  lemma WriteBackKeeps(l: Layout, es: seq<CacheEntry>, view: seq<byte>, media: seq<byte>, media': seq<byte>, i: nat)
    requires ValidLayout(l) && Coherent(l, es, view, media)
    requires i < |es| && Resident(es[i]) && |media'| == |media|
    requires forall a :: 0 <= a < |media| && !(Lo(l, es[i]) <= a < Hi(l, es[i])) ==> media'[a] == media[a]
    ensures es[i].dirty ==> Coherent(l, es, view, media')
    ensures (PageExtent(l, es[i]); media'[Lo(l, es[i])..Hi(l, es[i])] == PageBytes(l, es[i])) ==>
              Coherent(l, es[i := es[i].(dirty := false)], view, media')
  {
    hide At;
    var lo, hi := Lo(l, es[i]), Hi(l, es[i]);
    PageExtent(l, es[i]);
    if es[i].dirty {
      forall a | 0 <= a < |view| && view[a] != media'[a] ensures InDirtyPage(l, es, a) {
        if !(lo <= a < hi) { assert view[a] != media[a]; }
      }
    }
    if media'[lo..hi] == PageBytes(l, es[i]) {
      var es' := es[i := es[i].(dirty := false)];
      assert forall a :: lo <= a < hi ==> media'[a] == media'[lo..hi][a - lo] == view[lo..hi][a - lo] == view[a];
      forall j | 0 <= j < |es| ensures PageOk(l, es'[j]) && Shows(l, es'[j], view) {
        assert PageOk(l, es[j]) && Shows(l, es[j], view);
      }
      forall a | 0 <= a < |view| && view[a] != media'[a] ensures InDirtyPage(l, es', a) {
        if !(lo <= a < hi) {
          assert view[a] != media[a];
          var j :| 0 <= j < |es| && es[j].dirty && Lo(l, es[j]) <= a < Hi(l, es[j]);
          assert es'[j].dirty && Lo(l, es'[j]) <= a < Hi(l, es'[j]);
        }
      }
    }
  }

  /** Replacing a clean page `v` by a page read from the device leaves the image alone. */
  lemma LoadKeeps(l: Layout, es: seq<CacheEntry>, view: seq<byte>, media: seq<byte>, v: nat, e: CacheEntry)
    requires ValidLayout(l) && Coherent(l, es, view, media)
    requires v < |es| && !es[v].dirty
    requires PageOk(l, e) && Resident(e) && !e.dirty
    requires forall i :: 0 <= i < |es| ==> es[i].sector != e.sector
    requires (PageExtent(l, e); PageBytes(l, e) == media[Lo(l, e)..Hi(l, e)])
    ensures Coherent(l, es[v := e], view, media)
  {
    hide At;
    var es' := es[v := e];
    var lo, hi := Lo(l, e), Hi(l, e);
    PageExtent(l, e);
    forall a | lo <= a < hi ensures view[a] == media[a] {
      if view[a] != media[a] {
        var j :| 0 <= j < |es| && es[j].dirty && Lo(l, es[j]) <= a < Hi(l, es[j]);
        PagesApart(l, es[j], e);
        assert false;
      }
    }
    assert view[lo..hi] == media[lo..hi];
    forall j | 0 <= j < |es| ensures PageOk(l, es'[j]) && Shows(l, es'[j], view) {
      if j != v { assert PageOk(l, es[j]) && Shows(l, es[j], view); }
    }
    forall a | 0 <= a < |view| && view[a] != media[a] ensures InDirtyPage(l, es', a) {
      var j :| 0 <= j < |es| && es[j].dirty && Lo(l, es[j]) <= a < Hi(l, es[j]);
      assert es'[j] == es[j];
    }
  }

  /** Storing `data` at byte `off` of page `i` and marking it dirty changes the image exactly
      as storing it on an uncached device would. */
  lemma StoreIsSplice(l: Layout, es: seq<CacheEntry>, view: seq<byte>, media: seq<byte>, i: nat, off: nat,
                      data: seq<byte>)
    requires ValidLayout(l) && Coherent(l, es, view, media)
    requires i < |es| && Resident(es[i])
    requires off + |data| <= Hi(l, es[i]) - Lo(l, es[i])
    ensures Lo(l, es[i]) + off + |data| <= |view| && off + |data| <= |es[i].data|
    ensures Coherent(l, es[i := es[i].(data := Splice(es[i].data, off, data), dirty := true)],
                     Splice(view, Lo(l, es[i]) + off, data), media)
  {
    hide At;
    PageExtent(l, es[i]);
    var e, lo := es[i], Lo(l, es[i]);
    var e' := e.(data := Splice(e.data, off, data), dirty := true);
    var es', view' := es[i := e'], Splice(view, lo + off, data);
    forall j | 0 <= j < |es| ensures PageOk(l, es'[j]) && Shows(l, es'[j], view') {
      StoreKeepsPage(l, es, view, media, i, off, data, j);
    }
    StoreCovered(l, es, view, media, i, off, data);
    hide InDirtyPage, Shows, Splice;
  }

  lemma StoreKeepsPage(l: Layout, es: seq<CacheEntry>, view: seq<byte>, media: seq<byte>, i: nat, off: nat,
                       data: seq<byte>, j: nat)
    requires ValidLayout(l) && Coherent(l, es, view, media)
    requires i < |es| && Resident(es[i]) && off + |data| <= Hi(l, es[i]) - Lo(l, es[i])
    requires Lo(l, es[i]) + off + |data| <= |view| && off + |data| <= |es[i].data| && j < |es|
    ensures var e := if j == i then es[i].(data := Splice(es[i].data, off, data), dirty := true) else es[j];
            PageOk(l, e) && Shows(l, e, Splice(view, Lo(l, es[i]) + off, data))
  {
    hide At;
    PageShows(l, es, view, media, i);
    PageShows(l, es, view, media, j);
    assert j != i && Resident(es[j]) ==> es[j].sector != es[i].sector;
    hide Coherent;
    PageExtent(l, es[i]);
    var lo, hi := Lo(l, es[i]), Hi(l, es[i]);
    var view' := Splice(view, lo + off, data);
    if j == i {
      StoreShows(view[lo..hi], view, es[i].data, lo, off, data);
    } else if Resident(es[j]) {
      PageExtent(l, es[j]);
      PagesApart(l, es[i], es[j]);
      assert view'[Lo(l, es[j])..Hi(l, es[j])] == view[Lo(l, es[j])..Hi(l, es[j])];
    }
  }

  lemma StoreCovered(l: Layout, es: seq<CacheEntry>, view: seq<byte>, media: seq<byte>, i: nat, off: nat,
                     data: seq<byte>)
    requires ValidLayout(l) && Coherent(l, es, view, media)
    requires i < |es| && Resident(es[i]) && off + |data| <= Hi(l, es[i]) - Lo(l, es[i])
    requires Lo(l, es[i]) + off + |data| <= |view| && off + |data| <= |es[i].data|
    ensures var view' := Splice(view, Lo(l, es[i]) + off, data);
            var es' := es[i := es[i].(data := Splice(es[i].data, off, data), dirty := true)];
            forall a :: 0 <= a < |view'| && view'[a] != media[a] ==> InDirtyPage(l, es', a)
  {
    hide At;
    var view' := Splice(view, Lo(l, es[i]) + off, data);
    var es' := es[i := es[i].(data := Splice(es[i].data, off, data), dirty := true)];
    forall a | 0 <= a < |view| && view'[a] != media[a] ensures InDirtyPage(l, es', a) {
      if Lo(l, es[i]) <= a < Hi(l, es[i]) {
        assert es'[i].dirty && Lo(l, es'[i]) <= a < Hi(l, es'[i]);
      } else {
        assert view[a] != media[a];
        var j :| 0 <= j < |es| && es[j].dirty && Lo(l, es[j]) <= a < Hi(l, es[j]);
        assert es'[j].dirty && Lo(l, es'[j]) <= a < Hi(l, es'[j]);
      }
    }
  }

  lemma StoreShows(page: seq<byte>, view: seq<byte>, buffer: seq<byte>, lo: nat, off: nat, data: seq<byte>)
    requires lo + |page| <= |view| && page == view[lo..lo + |page|]
    requires |page| <= |buffer| && buffer[..|page|] == page
    requires off + |data| <= |page|
    ensures Splice(buffer, off, data)[..|page|] == Splice(view, lo + off, data)[lo..lo + |page|]
  {
    var b, w := Splice(buffer, off, data)[..|page|], Splice(view, lo + off, data)[lo..lo + |page|];
    forall k | 0 <= k < |page| ensures b[k] == w[k] {
      assert buffer[k] == page[k] == view[lo + k];
    }
  }

  /** With no dirty page left the device itself holds the image. */
  lemma CleanMeansOnDevice(l: Layout, es: seq<CacheEntry>, view: seq<byte>, media: seq<byte>)
    requires ValidLayout(l) && Coherent(l, es, view, media)
    requires forall i :: 0 <= i < |es| ==> !es[i].dirty
    ensures media[..|view|] == view
  {
    assert forall a :: !InDirtyPage(l, es, a);
  }

  lemma InMemoryIffHeld(l: Layout, es: seq<CacheEntry>, sector: nat)
    requires ValidLayout(l) && sector < l.endOfPartition
    requires forall i :: 0 <= i < |es| ==> PageOk(l, es[i])
    ensures IsResident(es, PageBase(l, sector)) <==> exists i :: 0 <= i < |es| && Holds(es[i], sector)
  {
    forall i | 0 <= i < |es| ensures Holds(es[i], sector) <==> es[i].sector == PageBase(l, sector) {
      HoldsIffBase(l, es[i], sector);
    }
  }

  lemma StampKeeps(l: Layout, es: seq<CacheEntry>, view: seq<byte>, media: seq<byte>, i: nat, time: nat)
    requires ValidLayout(l) && Coherent(l, es, view, media) && i < |es|
    ensures Coherent(l, es[i := es[i].(lastAccess := time)], view, media)
  {
    hide At;
    var es' := es[i := es[i].(lastAccess := time)];
    forall j | 0 <= j < |es| ensures PageOk(l, es'[j]) && Shows(l, es'[j], view) {
      assert PageOk(l, es[j]) && Shows(l, es[j], view);
    }
    forall a | 0 <= a < |view| && view[a] != media[a] ensures InDirtyPage(l, es', a) {
      var j :| 0 <= j < |es| && es[j].dirty && Lo(l, es[j]) <= a < Hi(l, es[j]);
      assert es'[j].dirty && Lo(l, es'[j]) <= a < Hi(l, es'[j]);
    }
  }

  lemma PageShows(l: Layout, es: seq<CacheEntry>, view: seq<byte>, media: seq<byte>, i: nat)
    requires ValidLayout(l) && Coherent(l, es, view, media) && i < |es|
    ensures |view| == At(l, l.endOfPartition) && PageOk(l, es[i]) && Shows(l, es[i], view)
  {
  }

  lemma SectorsPlace(l: Layout, e: CacheEntry, s: nat, n: nat)
    requires ValidLayout(l) && PageOk(l, e) && Resident(e) && e.sector <= s && s + n <= e.sector + e.count
    ensures At(l, s) == Lo(l, e) + At(l, s - e.sector)
    ensures At(l, s) + At(l, n) == At(l, s + n) <= Hi(l, e)
    ensures At(l, s - e.sector) + At(l, n) == At(l, s - e.sector + n) <= |e.data|
  {
    hide At;
    AtMonotone(l, e.sector, s);
    AtMonotone(l, s, s + n);
    AtMonotone(l, s + n, e.sector + e.count);
    AtMonotone(l, s - e.sector, s - e.sector + n);
    AtMonotone(l, s - e.sector + n, l.sectorsPerPage);
  }

  /** `n` sectors of a resident page, in its buffer and in the image. */
  lemma SectorsInPage(l: Layout, es: seq<CacheEntry>, view: seq<byte>, media: seq<byte>, i: nat, s: nat, n: nat)
    requires ValidLayout(l) && Coherent(l, es, view, media)
    requires i < |es| && Resident(es[i]) && es[i].sector <= s && s + n <= es[i].sector + es[i].count
    ensures At(l, s) == Lo(l, es[i]) + At(l, s - es[i].sector)
    ensures At(l, s) + At(l, n) == At(l, s + n) <= Hi(l, es[i]) <= |view|
    ensures At(l, s - es[i].sector) + At(l, n) == At(l, s - es[i].sector + n) <= |es[i].data|
    ensures Slice(es[i].data, At(l, s - es[i].sector), At(l, n)) == Slice(view, At(l, s), At(l, n))
  {
    PageSlice(l, es, view, media, i);
    hide Coherent, At, PageOk, Slice;
    SectorsPlace(l, es[i], s, n);
    SubSlices(es[i].data, 0, view, Lo(l, es[i]), Hi(l, es[i]) - Lo(l, es[i]), At(l, s - es[i].sector), At(l, n));
  }

  lemma PageSlice(l: Layout, es: seq<CacheEntry>, view: seq<byte>, media: seq<byte>, i: nat)
    requires ValidLayout(l) && Coherent(l, es, view, media) && i < |es| && Resident(es[i])
    ensures PageOk(l, es[i]) && Lo(l, es[i]) < Hi(l, es[i]) <= |view| && Hi(l, es[i]) - Lo(l, es[i]) <= |es[i].data|
    ensures Slice(es[i].data, 0, Hi(l, es[i]) - Lo(l, es[i])) == Slice(view, Lo(l, es[i]), Hi(l, es[i]) - Lo(l, es[i]))
  {
    PageShows(l, es, view, media, i);
    hide Coherent;
    PageExtent(l, es[i]);
  }

  /** A sector of a resident page, and what follows it in the page. */
  lemma SectorInPage(l: Layout, es: seq<CacheEntry>, view: seq<byte>, media: seq<byte>, i: nat, s: nat)
    requires ValidLayout(l) && Coherent(l, es, view, media)
    requires i < |es| && Holds(es[i], s)
    ensures Resident(es[i])
    ensures At(l, s) == Lo(l, es[i]) + At(l, s - es[i].sector)
    ensures At(l, s) + l.bytesPerSector <= Hi(l, es[i]) <= |view|
    ensures At(l, s - es[i].sector) + l.bytesPerSector <= |es[i].data|
    ensures Slice(es[i].data, At(l, s - es[i].sector), l.bytesPerSector) == Slice(view, At(l, s), l.bytesPerSector)
  {
    assert PageOk(l, es[i]);
    SectorsInPage(l, es, view, media, i, s, 1);
  }

  lemma ImageLength(l: Layout, es: seq<CacheEntry>, view: seq<byte>, media: seq<byte>, sector: nat)
    requires ValidLayout(l) && Coherent(l, es, view, media) && sector <= l.endOfPartition
    ensures |view| == At(l, l.endOfPartition) && At(l, sector) <= |view| && At(l, 0) == 0
    ensures sector < l.endOfPartition ==> At(l, sector) + l.bytesPerSector <= |view|
  {
    AtMonotone(l, sector, l.endOfPartition);
  }
}
