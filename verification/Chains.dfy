/** Cluster chains in a file allocation table. A table `t` has an entry for every cluster up
    to the last one and one entry more; entry 0 stands for "no cluster". */
module Chains {
  import opened FatTable

  function Last(t: seq<nat>): nat
    requires |t| >= 4
  {
    |t| - 2
  }

  predicate Valid(t: seq<nat>, c: nat)
    requires |t| >= 4
  {
    CLUSTER_FIRST <= c <= Last(t)
  }

  /** The tables of partitions: at least one cluster, cluster numbers below the end mark. */
  predicate IsTable(t: seq<nat>) { 4 <= |t| <= CLUSTER_EOF && t[0] == CLUSTER_FREE }

  /** `ch` is a chain: distinct clusters, each linked to the next, the last one marked. */
  ghost predicate IsChain(t: seq<nat>, ch: seq<nat>)
    requires IsTable(t)
  {
    && |ch| >= 1
    && (forall i :: 0 <= i < |ch| ==> Valid(t, ch[i]))
    && (forall i, j :: 0 <= i < j < |ch| ==> ch[i] != ch[j])
    && (forall i :: 0 <= i < |ch| - 1 ==> t[ch[i]] == ch[i + 1])
    && t[ch[|ch| - 1]] == CLUSTER_EOF
  }

  predicate Apart(a: seq<nat>, b: seq<nat>) {
    forall i, j :: 0 <= i < |a| && 0 <= j < |b| ==> a[i] != b[j]
  }

  /** The allocated clusters are exactly the chains of `f`, which have no cluster in common. */
  ghost predicate Forest(t: seq<nat>, f: set<seq<nat>>)
    requires IsTable(t)
  {
    && (forall ch :: ch in f ==> IsChain(t, ch))
    && (forall a, b :: a in f && b in f && a != b ==> Apart(a, b))
    && (forall c: nat :: Valid(t, c) && t[c] != CLUSTER_FREE ==> InSome(f, c))
  }

  ghost predicate InSome(f: set<seq<nat>>, c: nat) { exists ch :: ch in f && c in ch }

  ghost function FreeSet(t: seq<nat>): set<nat>
    requires IsTable(t)
  {
    set c: nat | CLUSTER_FIRST <= c <= Last(t) && t[c] == CLUSTER_FREE
  }

  /** Two chains that start at the same cluster are the same chain. */
  lemma {:induction false} ChainUnique(t: seq<nat>, a: seq<nat>, b: seq<nat>)
    requires IsTable(t) && IsChain(t, a) && IsChain(t, b) && a[0] == b[0]
    ensures a == b
    decreases |a|
  {
    if |a| > 1 && |b| > 1 {
      assert a[1] == b[1];
      ChainTail(t, a);
      ChainTail(t, b);
      ChainUnique(t, a[1..], b[1..]);
      assert a == [a[0]] + a[1..] && b == [b[0]] + b[1..];
    } else {
      ChainStep(t, a, 0);
      ChainStep(t, b, 0);
      assert a == [a[0]] && b == [b[0]];
    }
  }

  lemma ChainTail(t: seq<nat>, ch: seq<nat>)
    requires IsTable(t) && IsChain(t, ch) && |ch| > 1
    ensures IsChain(t, ch[1..])
  {
    var r := ch[1..];
    forall i | 0 <= i < |r| - 1 ensures t[r[i]] == r[i + 1] {
      assert t[ch[i + 1]] == ch[i + 2];
    }
  }

  /** A cluster of a chain is followed by its neighbour there, and by nothing at the end. */
  lemma ChainStep(t: seq<nat>, ch: seq<nat>, i: nat)
    requires IsTable(t) && IsChain(t, ch) && i < |ch|
    ensures Valid(t, ch[i])
    ensures t[ch[i]] == if i + 1 < |ch| then ch[i + 1] else CLUSTER_EOF
    ensures i + 1 < |ch| ==> Valid(t, ch[i + 1])
  {
  }

  /** Replacing one chain of a forest by another. */
  lemma ForestSwap(t: seq<nat>, t': seq<nat>, f: set<seq<nat>>, ch: seq<nat>, ch': seq<nat>)
    requires IsTable(t) && IsTable(t') && |t'| == |t| && Forest(t, f)
    requires IsChain(t', ch')
    requires forall a :: a in f && a != ch ==> IsChain(t', a) && Apart(a, ch') && Apart(ch', a)
    requires forall c: nat :: Valid(t', c) && t'[c] != CLUSTER_FREE ==> InSome(f - {ch} + {ch'}, c)
    ensures Forest(t', f - {ch} + {ch'})
  {
    hide IsChain, Apart, InSome;
  }

  // ----- free search -----

  /** The first free cluster from `c` on, or one past the last cluster. */
  function SeekFree(t: seq<nat>, c: nat): (r: nat)
    requires IsTable(t) && CLUSTER_FIRST <= c <= Last(t) + 1
    ensures c <= r <= Last(t) + 1
    ensures r <= Last(t) ==> t[r] == CLUSTER_FREE
    ensures forall d :: c <= d < r ==> t[d] != CLUSTER_FREE
    decreases Last(t) + 1 - c
  {
    if c == Last(t) + 1 || t[c] == CLUSTER_FREE then c else SeekFree(t, c + 1)
  }

  /** The search with its one wrap-around. */
  function FindFree(t: seq<nat>, hint: nat): (r: nat)
    requires IsTable(t) && CLUSTER_FIRST <= hint <= Last(t) + 1
    ensures r <= Last(t) ==> r in FreeSet(t)
    ensures r == Last(t) + 1 <==> FreeSet(t) == {}
    ensures CLUSTER_FIRST <= r <= Last(t) + 1
  {
    var r := SeekFree(t, hint);
    if r <= Last(t) then assert r in FreeSet(t); r
    else
      var q := SeekFree(t, CLUSTER_FIRST);
      assert q <= Last(t) ==> q in FreeSet(t);
      assert q == Last(t) + 1 ==> FreeSet(t) == {};
      q
  }

  /** What linking a free cluster behind `cluster` returns, leaves in the table, and leaves as
      the next search hint. */
  datatype Linked = Linked(result: nat, table: seq<nat>, hint: nat)

  function StartOf(hint: nat): nat { if hint < CLUSTER_FIRST then CLUSTER_FIRST else hint }

  /** The hint left by a full disc points one past the last cluster. The search starts there,
      and takes that entry for a free cluster if it reads as one. */
  predicate Stray(t: seq<nat>, hint: nat)
    requires IsTable(t)
  {
    hint == Last(t) + 1 && t[Last(t) + 1] == CLUSTER_FREE
  }

  function Attach(t: seq<nat>, cluster: nat, next: nat): (t': seq<nat>)
    requires IsTable(t) && Valid(t, next)
    ensures IsTable(t') && |t'| == |t|
  {
    (if Valid(t, cluster) then t[cluster := next] else t)[next := CLUSTER_EOF]
  }

  /** The number of the entry one past the last cluster, as an entry that stores it reads. */
  function Link(t: seq<nat>, cluster: nat, hint: nat, beyond: nat): Linked
    requires IsTable(t) && hint <= Last(t) + 1
  {
    if cluster > Last(t) then Linked(CLUSTER_ERROR, t, hint)
    else if Valid(t, t[cluster]) then Linked(t[cluster], t, hint)
    else if Stray(t, hint) then
      Linked(hint, if Valid(t, cluster) then t[cluster := beyond] else t, hint)
    else
      var next := FindFree(t, StartOf(hint));
      if next > Last(t) then Linked(CLUSTER_ERROR, t, next)
      else Linked(next, Attach(t, cluster, next), next)
  }

  /** For a chain end or no cluster at all: the link is to a cluster that was free, or fails
      because none is, exactly if the hint is not a stray one. */
  lemma LinkSoundIffNotStray(t: seq<nat>, cluster: nat, hint: nat, beyond: nat)
    requires IsTable(t) && hint <= Last(t) + 1 && cluster <= Last(t) && !Valid(t, t[cluster])
    ensures var r := Link(t, cluster, hint, beyond);
            !Stray(t, hint) <==>
              || (r.result in FreeSet(t) && r.table == Attach(t, cluster, r.result) && r.hint == r.result)
              || (r.result == CLUSTER_ERROR && FreeSet(t) == {} && r.table == t && Last(t) < r.hint)
  {
  }

  /** No cluster from `from` to before `to` is free. */
  predicate NoneIn(t: seq<nat>, from: nat, to: nat) { forall d :: from <= d < to && d < |t| ==> t[d] != 0 }

  /** Which cluster is taken: the first free one from the hint on, or else the first one of all. It is
      marked as the end, and nothing but its entry and that of `cluster` changes. */
  lemma LinkTakesFirst(t: seq<nat>, cluster: nat, hint: nat, beyond: nat)
    requires IsTable(t) && hint <= Last(t) + 1 && !Stray(t, hint) && cluster <= Last(t) && !Valid(t, t[cluster])
    ensures var r, start := Link(t, cluster, hint, beyond), if hint < 2 then 2 else hint;
            if NoneIn(t, 2, Last(t) + 1) then r == Linked(0xFFFF_FFFF, t, Last(t) + 1)
            else
              && r.hint == r.result && 2 <= r.result <= Last(t) && t[r.result] == 0
              && (if NoneIn(t, start, Last(t) + 1) then NoneIn(t, 2, r.result)
                  else start <= r.result && NoneIn(t, start, r.result))
              && |r.table| == |t| && r.table[r.result] == 0x0FFF_FFFF
              && (2 <= cluster != r.result ==> r.table[cluster] == r.result)
              && forall c :: 0 <= c < |t| && c != r.result && (c != cluster || c < 2) ==> r.table[c] == t[c]
  {
    hide FreeSet;
    var start := StartOf(hint);
    var f, q := SeekFree(t, start), SeekFree(t, 2);
    if f <= Last(t) {
      assert t[f] == 0;
    } else if q <= Last(t) {
      assert t[q] == 0;
    }
  }

  /** Attaching a free cluster to the end of one chain: that chain grows by it, all others
      stay, and exactly one cluster is no longer free. */
  lemma AttachExtends(t: seq<nat>, f: set<seq<nat>>, ch: seq<nat>, next: nat)
    requires IsTable(t) && Forest(t, f) && ch in f && next in FreeSet(t)
    ensures Forest(Attach(t, ch[|ch| - 1], next), f - {ch} + {ch + [next]})
    ensures FreeSet(Attach(t, ch[|ch| - 1], next)) == FreeSet(t) - {next}
  {
    assert IsChain(t, ch);
    FreeIsValid(t, next);
    UsedNotFree(t, f, next);
    hide IsChain, FreeSet, Apart, Attach, InSome;
    ExtendedChain(t, ch, next);
    ChainStep(t, ch, |ch| - 1);
    AttachFree(t, ch[|ch| - 1], next);
    AttachOthers(t, f, ch, next);
    AttachCovers(t, f, ch, next);
    hide Forest;
    ForestSwap(t, Attach(t, ch[|ch| - 1], next), f, ch, ch + [next]);
  }

  lemma AttachOthers(t: seq<nat>, f: set<seq<nat>>, ch: seq<nat>, next: nat)
    requires IsTable(t) && Forest(t, f) && ch in f && next in FreeSet(t) && |ch| > 0
    ensures forall a :: a in f && a != ch ==>
              IsChain(Attach(t, ch[|ch| - 1], next), a) && Apart(a, ch + [next]) && Apart(ch + [next], a)
  {
    FreeIsValid(t, next);
    UsedNotFree(t, f, next);
    hide IsChain, FreeSet, Apart, Attach;
    AttachValues(t, ch[|ch| - 1], next);
    forall a | a in f && a != ch
      ensures IsChain(Attach(t, ch[|ch| - 1], next), a) && Apart(a, ch + [next]) && Apart(ch + [next], a)
    {
      ApartExtend(a, ch, next);
      OthersKeep(t, Attach(t, ch[|ch| - 1], next), a, ch[|ch| - 1], next);
    }
  }

  lemma AttachCovers(t: seq<nat>, f: set<seq<nat>>, ch: seq<nat>, next: nat)
    requires IsTable(t) && Forest(t, f) && ch in f && next in FreeSet(t) && |ch| > 0
    ensures forall c: nat :: Valid(t, c) && Attach(t, ch[|ch| - 1], next)[c] != CLUSTER_FREE ==>
              InSome(f - {ch} + {ch + [next]}, c)
  {
    hide IsChain, Apart, Attach;
    AttachValues(t, ch[|ch| - 1], next);
    forall c: nat | Valid(t, c) && Attach(t, ch[|ch| - 1], next)[c] != CLUSTER_FREE
      ensures InSome(f - {ch} + {ch + [next]}, c)
    {
      if c != next && c != ch[|ch| - 1] { assert t[c] != CLUSTER_FREE; }
      Covered(f, ch, ch + [next], c, next);
    }
  }

  lemma AttachValues(t: seq<nat>, cluster: nat, next: nat)
    requires IsTable(t) && Valid(t, next)
    ensures forall e :: 0 <= e < |t| && e != cluster && e != next ==> Attach(t, cluster, next)[e] == t[e]
    ensures Attach(t, cluster, next)[next] == CLUSTER_EOF
    ensures Valid(t, cluster) && cluster != next ==> Attach(t, cluster, next)[cluster] == next
  {
  }

  lemma FreeIsValid(t: seq<nat>, c: nat)
    requires IsTable(t) && c in FreeSet(t)
    ensures Valid(t, c) && t[c] == CLUSTER_FREE
  {
  }

  lemma AttachFree(t: seq<nat>, cluster: nat, next: nat)
    requires IsTable(t) && next in FreeSet(t)
    requires cluster == CLUSTER_FREE || (Valid(t, cluster) && t[cluster] != CLUSTER_FREE)
    ensures FreeSet(Attach(t, cluster, next)) == FreeSet(t) - {next}
  {
    var t' := Attach(t, cluster, next);
    forall c: nat ensures c in FreeSet(t') <==> c in FreeSet(t) - {next} {
      if Valid(t, c) { assert t'[c] == if c == next then CLUSTER_EOF else if c == cluster then next else t[c]; }
    }
  }

  lemma ApartExtend(a: seq<nat>, ch: seq<nat>, next: nat)
    requires Apart(a, ch) && next !in a && |ch| > 0
    ensures Apart(a, ch + [next]) && Apart(ch + [next], a) && ch[|ch| - 1] !in a
  {
  }

  lemma Covered(f: set<seq<nat>>, ch: seq<nat>, ch': seq<nat>, c: nat, next: nat)
    requires ch in f && (InSome(f, c) || c == next || c in ch) && (forall d :: d in ch ==> d in ch') && next in ch'
    ensures InSome(f - {ch} + {ch'}, c)
  {
    if c == next || c in ch {
      assert c in ch' && ch' in f - {ch} + {ch'};
    } else {
      var a :| a in f && c in a;
      assert a in f - {ch} + {ch'};
    }
  }

  lemma ExtendedChain(t: seq<nat>, ch: seq<nat>, next: nat)
    requires IsTable(t) && IsChain(t, ch) && Valid(t, next) && next !in ch
    ensures IsChain(Attach(t, ch[|ch| - 1], next), ch + [next])
  {
    var t', ch' := Attach(t, ch[|ch| - 1], next), ch + [next];
    forall i | 0 <= i < |ch'| - 1 ensures t'[ch'[i]] == ch'[i + 1] {
      assert ch[i] in ch;
      if i + 1 < |ch| { assert t[ch[i]] == ch[i + 1]; }
    }
  }

  lemma UsedNotFree(t: seq<nat>, f: set<seq<nat>>, c: nat)
    requires IsTable(t) && Forest(t, f) && c in FreeSet(t)
    ensures forall a :: a in f ==> c !in a
  {
    forall a | a in f ensures c !in a {
      forall i | 0 <= i < |a| ensures a[i] != c {
        assert IsChain(t, a);
        ChainStep(t, a, i);
      }
    }
  }

  lemma OthersKeep(t: seq<nat>, t': seq<nat>, a: seq<nat>, c: nat, d: nat)
    requires IsTable(t) && IsTable(t') && |t'| == |t| && IsChain(t, a)
    requires c !in a && d !in a
    requires forall e :: 0 <= e < |t| && e != c && e != d ==> t'[e] == t[e]
    ensures IsChain(t', a)
  {
    forall i | 0 <= i < |a| ensures t'[a[i]] == t[a[i]] { assert a[i] in a; }
  }

  /** A free cluster attached to nothing becomes a chain of its own. */
  lemma AttachStarts(t: seq<nat>, f: set<seq<nat>>, next: nat)
    requires IsTable(t) && Forest(t, f) && next in FreeSet(t)
    ensures Forest(Attach(t, CLUSTER_FREE, next), f + {[next]}) && [next] !in f
    ensures FreeSet(Attach(t, CLUSTER_FREE, next)) == FreeSet(t) - {next}
  {
    FreeIsValid(t, next);
    hide IsChain, FreeSet;
    var t', f' := Attach(t, CLUSTER_FREE, next), f + {[next]};
    UsedNotFree(t, f, next);
    AttachFree(t, CLUSTER_FREE, next);
    SingletonChain(t', next);
    assert next in [next];
    forall a | a in f ensures IsChain(t', a) && Apart(a, [next]) && Apart([next], a) {
      OthersKeep(t, t', a, next, next);
    }
    forall c: nat | Valid(t', c) && t'[c] != CLUSTER_FREE ensures InSome(f', c) {
      if c == next {
        assert [next] in f';
      } else {
        assert InSome(f, c);
        var a :| a in f && c in a;
        assert a in f';
      }
    }
  }

  lemma SingletonChain(t: seq<nat>, c: nat)
    requires IsTable(t) && Valid(t, c) && t[c] == CLUSTER_EOF
    ensures IsChain(t, [c])
  {
  }

  // ----- freeing -----

  ghost function Used(t: seq<nat>): set<nat> { set c | 0 <= c < |t| && t[c] != CLUSTER_FREE }

  /** Every link stays in the table, is free, or ends a chain; cycles are allowed. */
  ghost predicate LinksInRange(t: seq<nat>)
    requires IsTable(t)
  {
    forall c: nat :: Valid(t, c) ==> t[c] == CLUSTER_FREE || t[c] == CLUSTER_EOF || Valid(t, t[c])
  }

  /** Following links from `c` and freeing each cluster on the way. It stops on every table:
      each step before the last one frees a cluster that was in use. */
  ghost function ClearFrom(t: seq<nat>, c: nat): (t': seq<nat>)
    requires IsTable(t)
    ensures IsTable(t') && |t'| == |t|
    decreases Used(t)
  {
    if !Valid(t, c) || t[c] == CLUSTER_FREE then t
    else
      assert c in Used(t) && c !in Used(t[c := CLUSTER_FREE]);
      ClearFrom(t[c := CLUSTER_FREE], t[c])
  }

  /** How many clusters that loop visits, counting a last one that is already free. */
  ghost function Visited(t: seq<nat>, c: nat): nat
    requires IsTable(t)
    decreases Used(t)
  {
    if !Valid(t, c) then 0
    else if t[c] == CLUSTER_FREE then 1
    else
      assert c in Used(t) && c !in Used(t[c := CLUSTER_FREE]);
      1 + Visited(t[c := CLUSTER_FREE], t[c])
  }

  /** One step of that loop, from a cluster in the table. */
  lemma ClearStep(t: seq<nat>, c: nat)
    requires IsTable(t) && LinksInRange(t) && Valid(t, c)
    ensures var t' := t[c := CLUSTER_FREE];
            && LinksInRange(t') && ClearFrom(t, c) == ClearFrom(t', t[c])
            && Visited(t, c) == 1 + Visited(t', t[c])
            && (t[c] != CLUSTER_FREE ==> Used(t') < Used(t)) && (t[c] == CLUSTER_FREE ==> t' == t)
  {
    var t' := t[c := CLUSTER_FREE];
    if t[c] == CLUSTER_FREE {
      assert t' == t;
    } else {
      assert c in Used(t) && c !in Used(t');
    }
  }

  lemma LinkInRange(t: seq<nat>, c: nat)
    requires IsTable(t) && LinksInRange(t) && Valid(t, c)
    ensures t[c] == CLUSTER_FREE || t[c] == CLUSTER_EOF || Valid(t, t[c])
  {
  }

  /** Counting up to a limit. */
  function AddCapped(n: nat, cap: nat, k: nat): nat {
    if n >= cap then n else if n + k > cap then cap else n + k
  }

  ghost function Zeroed(t: seq<nat>, ch: seq<nat>): (t': seq<nat>)
    requires IsTable(t)
    ensures IsTable(t') && |t'| == |t|
    ensures forall c :: 0 <= c < |t| ==> t'[c] == if c in ch then CLUSTER_FREE else t[c]
  {
    seq(|t|, (c: nat) requires c < |t| => if c in ch then CLUSTER_FREE else t[c])
  }

  /** On a chain, exactly its clusters are visited and freed, from whichever of them it starts. */
  lemma {:induction false} ClearFromChain(t: seq<nat>, ch: seq<nat>, k: nat)
    requires IsTable(t) && IsChain(t, ch) && k < |ch|
    ensures ClearFrom(t, ch[k]) == Zeroed(t, ch[k..])
    ensures Visited(t, ch[k]) == |ch| - k
  {
    ClearFromRest(t, ch, k, t);
  }

  /** The same with the clusters before `k` already freed. */
  lemma {:induction false} ClearFromRest(t: seq<nat>, ch: seq<nat>, k: nat, u: seq<nat>)
    requires IsTable(t) && IsChain(t, ch) && k <= |ch| && IsTable(u) && |u| == |t|
    requires forall i :: k <= i < |ch| ==> u[ch[i]] == t[ch[i]]
    ensures var c := if k < |ch| then ch[k] else CLUSTER_EOF;
            ClearFrom(u, c) == Zeroed(u, ch[k..]) && Visited(u, c) == |ch| - k
    decreases |ch| - k
  {
    if k == |ch| {
      assert Zeroed(u, ch[k..]) == u;
    } else {
      ChainStep(t, ch, k);
      var u' := u[ch[k] := CLUSTER_FREE];
      ClearFromRest(t, ch, k + 1, u');
      assert ch[k..] == [ch[k]] + ch[k + 1..];
      assert Zeroed(u', ch[k + 1..]) == Zeroed(u, ch[k..]);
    }
  }

  /** Freeing a whole chain removes it and touches no other. */
  lemma ZeroedForest(t: seq<nat>, f: set<seq<nat>>, ch: seq<nat>)
    requires IsTable(t) && Forest(t, f) && ch in f
    ensures Forest(Zeroed(t, ch), f - {ch})
    ensures FreeSet(Zeroed(t, ch)) == FreeSet(t) + Elements(ch)
    ensures FreeSet(t) !! Elements(ch)
  {
    hide IsChain, Apart, FreeSet, Elements;
    var t', f' := Zeroed(t, ch), f - {ch};
    assert ch[0..] == ch;
    ZeroedFree(t, ch, ch, 0);
    forall a | a in f' ensures IsChain(t', a) {
      assert IsChain(t, a) && Apart(a, ch);
      UntouchedChain(t, t', a, ch);
    }
    forall c: nat | Valid(t', c) && t'[c] != CLUSTER_FREE ensures InSome(f', c) {
      assert InSome(f, c);
      var a :| a in f && c in a;
      assert a in f';
    }
  }

  lemma UntouchedChain(t: seq<nat>, t': seq<nat>, a: seq<nat>, ch: seq<nat>)
    requires IsTable(t) && IsTable(t') && |t'| == |t| && IsChain(t, a) && Apart(a, ch)
    requires forall c :: 0 <= c < |t| && c !in ch ==> t'[c] == t[c]
    ensures IsChain(t', a)
  {
    forall i | 0 <= i < |a| ensures t'[a[i]] == t[a[i]] { assert a[i] !in ch; }
  }

  /** Freeing part of a chain frees exactly those clusters, which were all in use. */
  lemma ZeroedFree(t: seq<nat>, ch: seq<nat>, part: seq<nat>, from: nat)
    requires IsTable(t) && IsChain(t, ch) && from <= |ch| && part == ch[from..]
    ensures FreeSet(Zeroed(t, part)) == FreeSet(t) + Elements(part)
    ensures FreeSet(t) !! Elements(part)
  {
    forall c | c in part ensures c !in FreeSet(t) && c in FreeSet(Zeroed(t, part)) {
      var i :| 0 <= i < |part| && part[i] == c;
      assert ch[from + i] == c;
      ChainStep(t, ch, from + i);
    }
    var t' := Zeroed(t, part);
    forall c: nat ensures c in FreeSet(t') <==> c in FreeSet(t) || c in Elements(part) {
      if Valid(t, c) { assert t'[c] == if c in part then CLUSTER_FREE else t[c]; }
    }
  }

  ghost function Elements(ch: seq<nat>): set<nat> { set c: nat | c in ch }

  lemma {:induction false} ElementsCount(ch: seq<nat>)
    requires forall i, j :: 0 <= i < j < |ch| ==> ch[i] != ch[j]
    ensures |Elements(ch)| == |ch|
  {
    if ch != [] {
      var r := ch[..|ch| - 1];
      ElementsCount(r);
      assert Elements(ch) == Elements(r) + {ch[|ch| - 1]};
      assert ch[|ch| - 1] !in r;
    }
  }

  /** Cutting a chain after its first `n` clusters. */
  ghost function Cut(t: seq<nat>, ch: seq<nat>, n: nat): (t': seq<nat>)
    requires IsTable(t) && IsChain(t, ch) && 1 <= n <= |ch|
    ensures IsTable(t') && |t'| == |t|
  {
    Zeroed(t, ch[n..])[ch[n - 1] := CLUSTER_EOF]
  }

  lemma CutForest(t: seq<nat>, f: set<seq<nat>>, ch: seq<nat>, n: nat)
    requires IsTable(t) && Forest(t, f) && ch in f && 1 <= n <= |ch|
    ensures Forest(Cut(t, ch, n), f - {ch} + {ch[..n]})
    ensures FreeSet(Cut(t, ch, n)) == FreeSet(t) + Elements(ch[n..])
    ensures FreeSet(t) !! Elements(ch[n..])
  {
    hide IsChain, FreeSet;
    var t', f' := Cut(t, ch, n), f - {ch} + {ch[..n]};
    var kept, dropped := ch[..n], ch[n..];
    assert ch == kept + dropped;
    ZeroedFree(t, ch, dropped, n);
    CutChain(t, ch, n);
    ChainStep(t, ch, n - 1);
    CutFree(t, dropped, ch[n - 1]);
    forall a | a in f && a != ch ensures IsChain(t', a) && Apart(a, kept) && Apart(kept, a) {
      assert Apart(a, ch);
      UntouchedChain(t, t', a, ch);
    }
    forall c: nat | Valid(t', c) && t'[c] != CLUSTER_FREE ensures InSome(f', c) {
      if c == ch[n - 1] {
        assert kept[n - 1] == c && kept in f';
      } else {
        assert InSome(f, c);
        var a :| a in f && c in a;
        assert (if a == ch then kept else a) in f';
      }
    }
    ForestSwap(t, t', f, ch, kept);
  }

  lemma CutFree(t: seq<nat>, dropped: seq<nat>, last: nat)
    requires IsTable(t) && Valid(t, last) && t[last] != CLUSTER_FREE && last !in dropped
    ensures FreeSet(Zeroed(t, dropped)[last := CLUSTER_EOF]) == FreeSet(Zeroed(t, dropped))
  {
    var t', z := Zeroed(t, dropped)[last := CLUSTER_EOF], Zeroed(t, dropped);
    forall c: nat ensures c in FreeSet(t') <==> c in FreeSet(z) {
      if Valid(t, c) { assert t'[c] == if c == last then CLUSTER_EOF else z[c]; }
    }
  }

  lemma CutChain(t: seq<nat>, ch: seq<nat>, n: nat)
    requires IsTable(t) && IsChain(t, ch) && 1 <= n <= |ch|
    ensures IsChain(Cut(t, ch, n), ch[..n]) && ch[n - 1] !in ch[n..]
  {
    var t', kept, dropped := Cut(t, ch, n), ch[..n], ch[n..];
    forall i | 0 <= i < |kept| ensures kept[i] !in dropped {
      forall j | 0 <= j < |dropped| ensures dropped[j] != kept[i] { assert dropped[j] == ch[n + j]; }
    }
    forall i | 0 <= i < |kept| - 1 ensures t'[kept[i]] == kept[i + 1] {
      assert t[ch[i]] == ch[i + 1] && ch[i] != ch[n - 1];
    }
  }

  // ----- counting -----

  ghost function FreeBelow(t: seq<nat>, n: nat): set<nat>
    requires IsTable(t) && n <= Last(t) + 1
  {
    set c: nat | CLUSTER_FIRST <= c < n && t[c] == CLUSTER_FREE
  }

  lemma FreeBelowStep(t: seq<nat>, n: nat)
    requires IsTable(t) && CLUSTER_FIRST <= n <= Last(t)
    ensures |FreeBelow(t, n + 1)| == |FreeBelow(t, n)| + if t[n] == CLUSTER_FREE then 1 else 0
  {
    assert FreeBelow(t, n + 1) == if t[n] == CLUSTER_FREE then FreeBelow(t, n) + {n} else FreeBelow(t, n);
  }

  lemma {:induction false} FreeBelowBound(t: seq<nat>, n: nat)
    requires IsTable(t) && CLUSTER_FIRST <= n <= Last(t) + 1
    ensures |FreeBelow(t, n)| <= n - CLUSTER_FIRST
  {
    if n == CLUSTER_FIRST {
      assert FreeBelow(t, n) == {};
    } else {
      FreeBelowBound(t, n - 1);
      FreeBelowStep(t, n - 1);
    }
  }

  /** In a table of chains every link is in range. */
  lemma ForestLinksInRange(t: seq<nat>, f: set<seq<nat>>)
    requires IsTable(t) && Forest(t, f)
    ensures LinksInRange(t)
  {
    forall c: nat | Valid(t, c) && t[c] != CLUSTER_FREE ensures t[c] == CLUSTER_EOF || Valid(t, t[c]) {
      var ch :| ch in f && c in ch;
      var i :| 0 <= i < |ch| && ch[i] == c;
      ChainStep(t, ch, i);
    }
  }

  /** A free count that is exact stays exact when a chain, or the end of one, is freed: the
      limit on counting up is never in the way. */
  lemma FreeCountStaysExact(t: seq<nat>, f: set<seq<nat>>, ch: seq<nat>, kept: nat, count: nat, cap: nat)
    requires IsTable(t) && Forest(t, f) && ch in f && kept <= |ch|
    requires count == |FreeSet(t)| && Last(t) - 1 <= cap
    ensures AddCapped(count, cap, |ch| - kept) ==
            |FreeSet(if kept == 0 then Zeroed(t, ch) else (assert IsChain(t, ch); Cut(t, ch, kept)))|
  {
    hide IsChain, FreeSet, Zeroed, Cut, Elements, Apart, InSome;
    var t' := if kept == 0 then Zeroed(t, ch) else Cut(t, ch, kept);
    assert ch[0..] == ch;
    if kept == 0 { ZeroedForest(t, f, ch); } else { CutForest(t, f, ch, kept); }
    ChainPartCount(t, ch, kept);
    assert |FreeSet(t')| == |FreeSet(t)| + |ch| - kept;
    FreeAtMostAll(t');
  }

  /** So does one that is counted down, unless it is zero already, when a cluster is linked. */
  lemma FreeCountAfterLink(t: seq<nat>, cluster: nat, next: nat, count: nat)
    requires IsTable(t) && next in FreeSet(t) && count == |FreeSet(t)|
    requires cluster == CLUSTER_FREE || (Valid(t, cluster) && t[cluster] != CLUSTER_FREE)
    ensures Valid(t, next)
    ensures (if count == 0 then count else count - 1) == |FreeSet(Attach(t, cluster, next))|
  {
    FreeIsValid(t, next);
    hide Attach;
    AttachFree(t, cluster, next);
  }

  /** A set of chains and one more, which may be empty. */
  ghost function With(f: set<seq<nat>>, ch: seq<nat>): set<seq<nat>> { if ch == [] then f else f + {ch} }

  /** When one chain of a table grows, exactly the clusters it grew by are no longer free. */
  lemma FreeAfterGrowth(t: seq<nat>, t': seq<nat>, f: set<seq<nat>>, ch: seq<nat>, more: seq<nat>)
    requires IsTable(t) && IsTable(t') && |t'| == |t| && ch + more !in f
    requires Forest(t, With(f, ch)) && Forest(t', With(f, ch + more))
    ensures FreeSet(t) == FreeSet(t') + Elements(more) && FreeSet(t') !! Elements(more)
    ensures |FreeSet(t)| == |FreeSet(t')| + |more|
  {
    hide IsChain, Forest;
    MoreInNone(t', f, ch, more);
    forall c: nat | Valid(t, c) ensures t[c] == CLUSTER_FREE <==> t'[c] == CLUSTER_FREE || c in more {
      FreeIffInNone(t, With(f, ch), c);
      FreeIffInNone(t', With(f, ch + more), c);
      InSomeWith(f, ch, c);
      InSomeWith(f, ch + more, c);
    }
    forall c: nat | Valid(t, c) && c in more ensures t'[c] != CLUSTER_FREE {
      FreeIffInNone(t', With(f, ch + more), c);
      InSomeWith(f, ch + more, c);
    }
    ElementsCount(more);
  }

  lemma FreeIffInNone(t: seq<nat>, f: set<seq<nat>>, c: nat)
    requires IsTable(t) && Forest(t, f) && Valid(t, c)
    ensures t[c] == CLUSTER_FREE <==> !InSome(f, c)
  {
    hide IsChain, Apart;
    if t[c] == CLUSTER_FREE { UsedNotFree(t, f, c); }
  }

  lemma InSomeWith(f: set<seq<nat>>, ch: seq<nat>, c: nat)
    ensures InSome(With(f, ch), c) <==> InSome(f, c) || c in ch
  {
    if InSome(f, c) {
      var a :| a in f && c in a;
      assert a in With(f, ch);
    }
    if c in ch { assert ch in With(f, ch); }
  }

  /** The clusters at the end of a chain are in no other chain and not in the part before them. */
  lemma MoreInNone(t: seq<nat>, f: set<seq<nat>>, ch: seq<nat>, more: seq<nat>)
    requires IsTable(t) && ch + more !in f && Forest(t, With(f, ch + more))
    ensures forall c :: c in more ==> Valid(t, c) && c !in ch && !InSome(f, c)
    ensures forall i, j :: 0 <= i < j < |more| ==> more[i] != more[j]
  {
    var all := ch + more;
    if more != [] {
      assert all in With(f, all) && IsChain(t, all);
      forall c | c in more ensures Valid(t, c) && c !in ch && !InSome(f, c) {
        var i :| 0 <= i < |more| && more[i] == c;
        assert all[|ch| + i] == c;
        forall k | 0 <= k < |ch| ensures ch[k] != c { assert all[k] == ch[k]; }
        forall a | a in f ensures c !in a { NotInApart(a, all, |ch| + i); }
      }
      forall i, j | 0 <= i < j < |more| ensures more[i] != more[j] {
        assert all[|ch| + i] == more[i] && all[|ch| + j] == more[j];
      }
    }
  }

  lemma NotInApart(a: seq<nat>, b: seq<nat>, j: nat)
    requires Apart(a, b) && j < |b|
    ensures b[j] !in a
  {
  }

  lemma ChainPartCount(t: seq<nat>, ch: seq<nat>, from: nat)
    requires IsTable(t) && IsChain(t, ch) && from <= |ch|
    ensures |Elements(ch[from..])| == |ch| - from
  {
    ElementsCount(ch[from..]);
  }

  lemma FreeAtMostAll(t: seq<nat>)
    requires IsTable(t)
    ensures |FreeSet(t)| <= Last(t) - 1
  {
    FreeBelowBound(t, Last(t) + 1);
    assert FreeBelow(t, Last(t) + 1) == FreeSet(t);
  }
}
