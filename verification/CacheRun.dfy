/** Whole runs of page fetches: a set of pages that fits into the cache is loaded at most once. */
module CacheRun {
  import opened CachePages
  import opened CacheRecency
  import Cache

  /** The pages of `loaded` were touched, and since then only pages of `workingSet` were. */
  ghost predicate Warm(touched: map<nat, nat>, loaded: set<nat>, workingSet: set<nat>) {
    loaded <= workingSet && forall p :: p in loaded ==> p in touched && Newer(touched, p) <= workingSet
  }

  lemma WarmTouched(touched: map<nat, nat>, now: nat, loaded: set<nat>, workingSet: set<nat>, page: nat)
    requires Warm(touched, loaded, workingSet) && page in workingSet
    requires forall p :: p in touched ==> touched[p] < now
    ensures Warm(touched[page := now], loaded + {page}, workingSet)
  {
    var touched' := touched[page := now];
    assert Newer(touched', page) == {};
    forall p | p in loaded && p != page ensures Newer(touched', p) <= workingSet {
      assert Newer(touched', p) <= Newer(touched, p) + {page};
    }
  }

  /** The pages that some sectors belong to. */
  ghost function Pages(l: Layout, sectors: seq<nat>, n: nat): set<nat>
    requires l.sectorsPerPage > 0 && n <= |sectors|
  {
    set i | 0 <= i < n :: PageBase(l, sectors[i])
  }

  ghost predicate WarmCache(cache: Cache.Cache, loaded: set<nat>, workingSet: set<nat>)
    reads cache
  {
    Fits(cache.touched, cache.entries.Length, loaded, workingSet)
  }

  ghost predicate Fits(touched: map<nat, nat>, size: nat, loaded: set<nat>, workingSet: set<nat>) {
    |workingSet| <= size && Warm(touched, loaded, workingSet)
  }

  lemma LoadedStays(cache: Cache.Cache, loaded: set<nat>, workingSet: set<nat>, sector: nat)
    requires cache.Valid() && cache.ticks < Cache.TICKS && WarmCache(cache, loaded, workingSet)
    requires PageBase(cache.layout, sector) in loaded
    ensures cache.InMemory(sector)
  {
    hide Coherent, Recent;
    WorkingSetStaysResident(cache.entries[..], cache.touched, cache.ticks, workingSet, PageBase(cache.layout, sector));
  }

  lemma WarmAfter(cache: Cache.Cache, loaded: set<nat>, workingSet: set<nat>, page: nat)
    requires cache.Valid() && cache.ticks < Cache.TICKS && WarmCache(cache, loaded, workingSet) && page in workingSet
    ensures Fits(cache.touched[page := cache.ticks + 1], cache.entries.Length, loaded + {page}, workingSet)
  {
    hide Coherent, Warm;
    WarmTouched(cache.touched, cache.ticks + 1, loaded, workingSet, page);
  }

  /** Fetches any sectors of a working set that fits, in any order and with any repetitions: every page that has not
      been loaded costs at most a page written back and one read, and a page that has been loaded costs nothing. */
  method FetchAll(cache: Cache.Cache, sectors: seq<nat>, ghost loaded: set<nat>, ghost workingSet: set<nat>)
    requires cache.Valid() && cache.disc.reliable && cache.ticks + |sectors| < Cache.TICKS
             && WarmCache(cache, loaded, workingSet)
    requires forall i :: 0 <= i < |sectors| ==>
               sectors[i] < cache.layout.endOfPartition && PageBase(cache.layout, sectors[i]) in workingSet
    modifies cache`accessCounter, cache`ticks, cache`touched, cache.entries, cache.disc
    ensures cache.Valid() && cache.ticks == old(cache.ticks) + |sectors|
    ensures WarmCache(cache, loaded + Pages(cache.layout, sectors, |sectors|), workingSet)
    ensures cache.disc.transfers <= old(cache.disc.transfers) + 2 * |Pages(cache.layout, sectors, |sectors|) - loaded|
  {
    hide Coherent, Recent, PageBase, Pages, IsResident, Fits;
    NoPages(cache.layout, sectors, loaded);
    for i := 0 to |sectors|
      invariant cache.Valid() && cache.ticks == old(cache.ticks) + i
      invariant WarmCache(cache, loaded + Pages(cache.layout, sectors, i), workingSet)
      invariant cache.disc.transfers <= old(cache.disc.transfers) + 2 * |Pages(cache.layout, sectors, i) - loaded|
    {
      ghost var before := Pages(cache.layout, sectors, i);
      ghost var page := PageBase(cache.layout, sectors[i]);
      if page in loaded + before { LoadedStays(cache, loaded + before, workingSet, sectors[i]); }
      ghost var touched, now := cache.touched, cache.ticks + 1;
      WarmAfter(cache, loaded + before, workingSet, page);
      var ok, index := cache.GetPage(sectors[i]);
      assert cache.touched == touched[page := now];
      MorePages(cache.layout, sectors, i, loaded);
    }
  }

  lemma NoPages(l: Layout, sectors: seq<nat>, loaded: set<nat>)
    requires l.sectorsPerPage > 0
    ensures loaded + Pages(l, sectors, 0) == loaded && Pages(l, sectors, 0) - loaded == {}
  {
  }

  lemma MorePages(l: Layout, sectors: seq<nat>, i: nat, loaded: set<nat>)
    requires l.sectorsPerPage > 0 && i < |sectors|
    ensures loaded + Pages(l, sectors, i + 1) == loaded + Pages(l, sectors, i) + {PageBase(l, sectors[i])}
    ensures |Pages(l, sectors, i + 1) - loaded|
         == |Pages(l, sectors, i) - loaded| + if PageBase(l, sectors[i]) in loaded + Pages(l, sectors, i) then 0 else 1
  {
    hide PageBase;
    var page, before := PageBase(l, sectors[i]), Pages(l, sectors, i);
    assert Pages(l, sectors, i + 1) == before + {page};
    if page in loaded + before {
      assert before + {page} - loaded == before - loaded;
    } else {
      assert before + {page} - loaded == before - loaded + {page};
    }
  }

  /** Once the pages of some sectors are loaded, fetching these sectors again, however often, asks nothing of the
      disc. */
  method FetchTwice(cache: Cache.Cache, sectors: seq<nat>, again: seq<nat>) returns (ghost between: nat)
    requires cache.Valid() && cache.disc.reliable && cache.ticks + |sectors| + |again| < Cache.TICKS
    requires forall i :: 0 <= i < |sectors| ==> sectors[i] < cache.layout.endOfPartition
    requires |Pages(cache.layout, sectors, |sectors|)| <= cache.entries.Length
    requires forall i :: 0 <= i < |again| ==> again[i] in sectors
    modifies cache`accessCounter, cache`ticks, cache`touched, cache.entries, cache.disc
    ensures cache.Valid() && between <= old(cache.disc.transfers) + 2 * |Pages(cache.layout, sectors, |sectors|)|
    ensures cache.disc.transfers <= between
  {
    hide Coherent, Recent;
    ghost var pages := Pages(cache.layout, sectors, |sectors|);
    assert pages - {} == pages && {} + pages == pages;
    FetchAll(cache, sectors, {}, pages);
    between := cache.disc.transfers;
    forall i | 0 <= i < |again|
      ensures again[i] < cache.layout.endOfPartition && PageBase(cache.layout, again[i]) in pages
    {
      var k :| 0 <= k < |sectors| && sectors[k] == again[i];
    }
    FetchAll(cache, again, pages, pages);
    assert Pages(cache.layout, again, |again|) - pages == {};
  }
}
