/** The replacement policy of the page cache: which pages stay resident. */
module CacheRecency {
  import opened CachePages

  /** `touched` maps each page ever touched (by its first sector) to the time of its last touch.
      Resident pages carry that time, and a page that was dropped is older than all of them. */
  ghost predicate Recent(es: seq<CacheEntry>, touched: map<nat, nat>, now: nat) {
    && (forall i :: 0 <= i < |es| && Resident(es[i]) ==>
          es[i].sector in touched && touched[es[i].sector] == es[i].lastAccess)
    && (forall i, j :: 0 <= i < j < |es| && Resident(es[i]) && Resident(es[j]) ==> es[i].sector != es[j].sector)
    && (forall p, q :: p in touched && q in touched && p != q ==> touched[p] != touched[q])
    && (forall p :: p in touched ==> touched[p] <= now && p != CACHE_FREE)
    && (forall q, i :: q in touched && !IsResident(es, q) && 0 <= i < |es| ==>
          Resident(es[i]) && touched[q] < es[i].lastAccess)
  }

  /** The pages touched after `page` was. */
  ghost function Newer(touched: map<nat, nat>, page: nat): set<nat>
    requires page in touched
  {
    set q | q in touched && touched[q] > touched[page]
  }

  ghost predicate SamePages(es: seq<CacheEntry>, es': seq<CacheEntry>) {
    |es| == |es'| && forall i :: 0 <= i < |es| ==>
          es[i].sector == es'[i].sector && es[i].lastAccess == es'[i].lastAccess
  }

  lemma RecentFrame(es: seq<CacheEntry>, es': seq<CacheEntry>, touched: map<nat, nat>, now: nat)
    requires Recent(es, touched, now) && SamePages(es, es')
    ensures Recent(es', touched, now)
  {
    forall q ensures IsResident(es, q) <==> IsResident(es', q) {
      if i :| 0 <= i < |es| && es[i].sector == q { assert es'[i].sector == q; }
      if i :| 0 <= i < |es'| && es'[i].sector == q { assert es[i].sector == q; }
    }
  }

  lemma TouchResident(es: seq<CacheEntry>, touched: map<nat, nat>, now: nat, i: nat)
    requires Recent(es, touched, now) && i < |es| && Resident(es[i])
    ensures Recent(es[i := es[i].(lastAccess := now + 1)], touched[es[i].sector := now + 1], now + 1)
  {
    var es', touched' := es[i := es[i].(lastAccess := now + 1)], touched[es[i].sector := now + 1];
    forall q, j | q in touched' && !IsResident(es', q) && 0 <= j < |es'|
      ensures Resident(es'[j]) && touched'[q] < es'[j].lastAccess
    {
      assert es'[i].sector == es[i].sector;
      forall k | 0 <= k < |es| ensures es[k].sector != q { assert es'[k].sector == es[k].sector; }
    }
  }

  /** The page that gives way: a free one if there is any, else one touched longest ago. */
  ghost predicate Victim(es: seq<CacheEntry>, v: nat) {
    && v < |es|
    && (forall i :: 0 <= i < |es| && !Resident(es[i]) ==> !Resident(es[v]))
    && (Resident(es[v]) ==> forall i :: 0 <= i < |es| ==> es[v].lastAccess <= es[i].lastAccess)
  }

  lemma TouchLoaded(es: seq<CacheEntry>, touched: map<nat, nat>, now: nat, v: nat, e: CacheEntry)
    requires Recent(es, touched, now) && Victim(es, v)
    requires Resident(e) && !IsResident(es, e.sector) && e.lastAccess == now + 1
    ensures Recent(es[v := e], touched[e.sector := now + 1], now + 1)
  {
    var es', touched' := es[v := e], touched[e.sector := now + 1];
    assert es'[v].sector == e.sector;
    forall i | 0 <= i < |es'| && Resident(es'[i])
      ensures es'[i].sector in touched' && touched'[es'[i].sector] == es'[i].lastAccess
    {
      if i != v { assert es'[i] == es[i]; }
    }
    forall q, j | q in touched' && !IsResident(es', q) && 0 <= j < |es'|
      ensures Resident(es'[j]) && touched'[q] < es'[j].lastAccess
    {
      DroppedIsOlder(es, touched, now, v, e, q, j);
    }
  }

  lemma DroppedIsOlder(es: seq<CacheEntry>, touched: map<nat, nat>, now: nat, v: nat, e: CacheEntry, q: nat, j: nat)
    requires Recent(es, touched, now) && Victim(es, v) && Resident(e) && e.lastAccess == now + 1 && j < |es|
    requires q == e.sector || q in touched
    requires !IsResident(es[v := e], q)
    ensures q != e.sector && Resident(es[v := e][j]) && touched[q] < es[v := e][j].lastAccess
  {
    var es' := es[v := e];
    assert es'[v].sector != q;
    if IsResident(es, q) {
      var k :| 0 <= k < |es| && es[k].sector == q;
      assert forall m :: 0 <= m < |es| && m != v ==> es'[m].sector == es[m].sector;
      if j != v { assert es[j].sector != es[v].sector; }
    } else if j != v {
      assert es'[j] == es[j];
    }
  }

  /** A page that was touched is still resident exactly if fewer distinct pages than the cache
      can hold were touched after it. */
  lemma ResidentIffRecentlyTouched(es: seq<CacheEntry>, touched: map<nat, nat>, now: nat, page: nat)
    requires Recent(es, touched, now) && page in touched
    ensures IsResident(es, page) <==> |Newer(touched, page)| < |es|
  {
    var newer := Newer(touched, page);
    if IsResident(es, page) {
      var i :| 0 <= i < |es| && es[i].sector == page;
      forall q | q in newer ensures q in Sectors(es) - {page} {
        assert IsResident(es, q);
        var k :| 0 <= k < |es| && es[k].sector == q;
        SectorsHas(es, k);
      }
      SectorsHas(es, i);
      SectorsBound(es);
      SubsetSize(newer, Sectors(es) - {page});
    } else {
      forall q | q in Sectors(es) ensures q in newer {
        SectorsAre(es, q);
      }
      SectorsCount(es);
      SubsetSize(Sectors(es), newer);
    }
  }

  /** A working set that fits stays: a page of it that was touched is still resident as long as
      only pages of the set were touched since. */
  lemma WorkingSetStaysResident(es: seq<CacheEntry>, touched: map<nat, nat>, now: nat, workingSet: set<nat>, page: nat)
    requires Recent(es, touched, now) && page in touched && page in workingSet
    requires |workingSet| <= |es| && Newer(touched, page) <= workingSet
    ensures IsResident(es, page)
  {
    ResidentIffRecentlyTouched(es, touched, now, page);
    SubsetSize(Newer(touched, page), workingSet - {page});
  }

  ghost function Sectors(es: seq<CacheEntry>): set<nat> {
    if es == [] then {} else Sectors(es[..|es| - 1]) + {es[|es| - 1].sector}
  }

  lemma {:induction false} SectorsHas(es: seq<CacheEntry>, i: nat)
    requires i < |es|
    ensures es[i].sector in Sectors(es)
  {
    if i < |es| - 1 { SectorsHas(es[..|es| - 1], i); }
  }

  lemma {:induction false} SectorsAre(es: seq<CacheEntry>, q: nat)
    requires q in Sectors(es)
    ensures IsResident(es, q)
  {
    if q == es[|es| - 1].sector {
    } else {
      SectorsAre(es[..|es| - 1], q);
      var i :| 0 <= i < |es| - 1 && es[..|es| - 1][i].sector == q;
      assert es[i].sector == q;
    }
  }

  lemma {:induction false} SectorsBound(es: seq<CacheEntry>)
    ensures |Sectors(es)| <= |es|
  {
    if es != [] { SectorsBound(es[..|es| - 1]); }
  }

  lemma {:induction false} SectorsCount(es: seq<CacheEntry>)
    requires forall i, j :: 0 <= i < j < |es| ==> es[i].sector != es[j].sector
    ensures |Sectors(es)| == |es|
  {
    if es != [] {
      var rest := es[..|es| - 1];
      SectorsCount(rest);
      if es[|es| - 1].sector in Sectors(rest) {
        SectorsAre(rest, es[|es| - 1].sector);
        assert false;
      }
    }
  }

  lemma SubsetSize(a: set<nat>, b: set<nat>)
    requires a <= b
    ensures |a| <= |b|
  {
    assert b == a + (b - a);
  }

  /** Where the scan ends without a hit or a free page it has found a page to give up. */
  lemma LeastUsedIsVictim(es: seq<CacheEntry>, touched: map<nat, nat>, now: nat, v: nat, access: nat)
    requires Recent(es, touched, now) && |es| >= 2 && now <= CACHE_FREE
    requires forall j :: 0 <= j < |es| ==> Resident(es[j]) && access <= es[j].lastAccess
    requires (access == CACHE_FREE && v == 0) || (v < |es| && access == es[v].lastAccess)
    ensures Victim(es, v)
  {
    assert es[0].sector != es[1].sector;
    assert es[0].lastAccess != es[1].lastAccess;
  }
}
