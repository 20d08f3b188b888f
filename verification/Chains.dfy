/** Cluster chains in a table of links. Entry c of a table is 0 when cluster c is free,
    the next cluster of its chain, or a number past the last cluster at the end of a
    chain. Clusters are numbered from 2. */
module Chains {

  predicate IsCluster(fat: seq<nat>, c: int) { 2 <= c < |fat| }

  /** Each element is a cluster and links to the element after it. */
  ghost predicate Linked(fat: seq<nat>, ch: seq<nat>) {
    && (forall i :: 0 <= i < |ch| ==> IsCluster(fat, ch[i]))
    && (forall i :: 0 <= i < |ch| - 1 ==> fat[ch[i]] == ch[i + 1])
  }

  /** A complete, end-marked chain. */
  ghost predicate IsChain(fat: seq<nat>, ch: seq<nat>) {
    ch != [] && Linked(fat, ch) && fat[ch[|ch| - 1]] >= |fat|
  }

  ghost predicate Distinct(ch: seq<nat>) {
    forall i, j :: 0 <= i < j < |ch| ==> ch[i] != ch[j]
  }

  /** An end-marked chain never visits a cluster twice. */
  lemma ChainDistinct(fat: seq<nat>, ch: seq<nat>)
    requires IsChain(fat, ch)
    ensures Distinct(ch)
  {
    forall i, j | 0 <= i < j < |ch|
      ensures ch[i] != ch[j]
    {
      NoRepeat(fat, ch, i, j);
    }
  }

  lemma {:induction false} NoRepeat(fat: seq<nat>, ch: seq<nat>, i: nat, j: nat)
    requires IsChain(fat, ch) && i < j < |ch|
    ensures ch[i] != ch[j]
    decreases |ch| - j
  {
    assert fat[ch[i]] == ch[i + 1];
    if j + 1 < |ch| {
      assert fat[ch[j]] == ch[j + 1];
      NoRepeat(fat, ch, i + 1, j + 1);
    }
  }

  /** The chain from a cluster is determined by the table. */
  lemma {:induction false} ChainUnique(fat: seq<nat>, a: seq<nat>, b: seq<nat>)
    requires IsChain(fat, a) && IsChain(fat, b) && a[0] == b[0]
    ensures a == b
  {
    assert |a| > 1 ==> fat[a[0]] == a[1];
    assert |b| > 1 ==> fat[b[0]] == b[1];
    if |a| > 1 && |b| > 1 {
      ChainTail(fat, a);
      ChainTail(fat, b);
      ChainUnique(fat, a[1..], b[1..]);
    }
  }

  /** An element of a chain is in use; it is the last one exactly when it holds no link. */
  lemma LinkAt(fat: seq<nat>, ch: seq<nat>, i: nat)
    requires IsChain(fat, ch) && i < |ch|
    ensures IsCluster(fat, ch[i]) && fat[ch[i]] >= 2
    ensures i + 1 < |ch| ==> fat[ch[i]] == ch[i + 1] && IsCluster(fat, fat[ch[i]])
    ensures i + 1 == |ch| ==> fat[ch[i]] >= |fat|
  {
    if i + 1 < |ch| {
      assert fat[ch[i]] == ch[i + 1] && IsCluster(fat, ch[i + 1]);
    }
  }

  lemma ChainTail(fat: seq<nat>, ch: seq<nat>)
    requires IsChain(fat, ch) && |ch| > 1
    ensures IsChain(fat, ch[1..])
  {
    var t := ch[1..];
    forall i | 0 <= i < |t| - 1
      ensures fat[t[i]] == t[i + 1]
    {
      assert fat[ch[i + 1]] == ch[i + 2];
    }
  }

  /** A table in which the allocated clusters form disjoint, end-marked chains: links
      lead to allocated clusters, no two clusters link to the same one, and a chain
      starts at every allocated cluster. */
  ghost predicate WellFormed(fat: seq<nat>) {
    && (forall c :: IsCluster(fat, c) && fat[c] != 0 ==> GoodLink(fat, c))
    && Injective(fat)
    && (forall c :: IsCluster(fat, c) && fat[c] != 0 ==> Ends(fat, c))
  }

  ghost predicate Injective(fat: seq<nat>) {
    forall c, d :: IsCluster(fat, c) && IsCluster(fat, d) && c != d && IsCluster(fat, fat[c]) ==> fat[c] != fat[d]
  }

  ghost predicate GoodLink(fat: seq<nat>, c: int)
    requires IsCluster(fat, c)
  {
    fat[c] >= |fat| || (IsCluster(fat, fat[c]) && fat[fat[c]] != 0)
  }

  ghost predicate Ends(fat: seq<nat>, c: int) {
    exists ch :: IsChain(fat, ch) && ch[0] == c
  }

  /** No cluster links to c. */
  ghost predicate IsHead(fat: seq<nat>, c: int) {
    forall d :: IsCluster(fat, d) ==> fat[d] != c
  }

  /** Chains that start at different heads share no cluster. */
  lemma {:induction false} HeadsDisjoint(fat: seq<nat>, a: seq<nat>, b: seq<nat>, i: nat, j: nat)
    requires WellFormed(fat) && IsChain(fat, a) && IsChain(fat, b)
    requires IsHead(fat, a[0]) && IsHead(fat, b[0]) && a[0] != b[0]
    requires i < |a| && j < |b|
    ensures a[i] != b[j]
    decreases i
  {
    assert i > 0 ==> fat[a[i - 1]] == a[i];
    assert j > 0 ==> fat[b[j - 1]] == b[j];
    if i > 0 && j > 0 {
      HeadsDisjoint(fat, a, b, i - 1, j - 1);
    }
  }

  // ----- allocation

  /** The table after cluster n has been marked as the end of a new chain. */
  function Started(fat: seq<nat>, n: nat, mark: nat): seq<nat>
    requires IsCluster(fat, n)
  {
    fat[n := mark]
  }

  /** The table after the chain ending in c has been stretched by cluster n. */
  function Stretched(fat: seq<nat>, c: nat, n: nat, mark: nat): seq<nat>
    requires IsCluster(fat, n) && IsCluster(fat, c)
  {
    fat[n := mark][c := n]
  }

  /** Other chains survive allocation. */
  lemma ChainKept(fat: seq<nat>, fat': seq<nat>, ch: seq<nat>)
    requires IsChain(fat, ch) && |fat'| == |fat|
    requires forall c :: c in ch ==> fat'[c] == fat[c]
    ensures IsChain(fat', ch)
  {
  }

  lemma StartedChains(fat: seq<nat>, n: nat, mark: nat)
    requires IsCluster(fat, n) && fat[n] == 0 && mark >= |fat|
    ensures IsChain(Started(fat, n, mark), [n])
    ensures forall ch :: IsChain(fat, ch) ==> IsChain(Started(fat, n, mark), ch)
  {
    forall ch | IsChain(fat, ch)
      ensures IsChain(Started(fat, n, mark), ch)
    {
      FreeNotInChain(fat, ch, n);
    }
  }

  lemma FreeNotInChain(fat: seq<nat>, ch: seq<nat>, n: nat)
    requires IsChain(fat, ch) && IsCluster(fat, n) && fat[n] == 0
    ensures n !in ch
  {
    forall i | 0 <= i < |ch|
      ensures ch[i] != n
    {
      if i < |ch| - 1 {
        assert fat[ch[i]] == ch[i + 1];
      }
    }
  }

  lemma StretchedChains(fat: seq<nat>, c: nat, n: nat, mark: nat, ch: seq<nat>)
    requires IsCluster(fat, n) && fat[n] == 0 && mark >= |fat|
    requires IsCluster(fat, c) && fat[c] >= |fat|
    requires IsChain(fat, ch)
    ensures c !in ch ==> IsChain(Stretched(fat, c, n, mark), ch)
    ensures c in ch ==> ch[|ch| - 1] == c && IsChain(Stretched(fat, c, n, mark), ch + [n])
  {
    var fat' := Stretched(fat, c, n, mark);
    FreeNotInChain(fat, ch, n);
    ChainDistinct(fat, ch);
    forall i | 0 <= i < |ch| - 1
      ensures ch[i] != c
    {
      assert fat[ch[i]] == ch[i + 1];
    }
    if c in ch {
      var ch' := ch + [n];
      forall k | 0 <= k < |ch'| - 1
        ensures fat'[ch'[k]] == ch'[k + 1]
      {
        if k < |ch| - 1 {
          assert fat[ch[k]] == ch[k + 1];
        }
      }
    } else {
      ChainKept(fat, fat', ch);
    }
  }

  /** Starting a chain keeps all chains disjoint and end-marked. */
  lemma StartedWellFormed(fat: seq<nat>, n: nat, mark: nat)
    requires WellFormed(fat) && IsCluster(fat, n) && fat[n] == 0 && mark >= |fat|
    ensures WellFormed(Started(fat, n, mark))
  {
    var fat' := Started(fat, n, mark);
    StartedChains(fat, n, mark);
    forall c | IsCluster(fat', c) && fat'[c] != 0
      ensures GoodLink(fat', c) && Ends(fat', c)
    {
      if c == n {
        assert IsChain(fat', [n]);
      } else {
        assert GoodLink(fat, c);
        var ch :| IsChain(fat, ch) && ch[0] == c;
        assert IsChain(fat', ch);
      }
    }
  }

  /** Stretching one chain keeps all chains disjoint and end-marked. */
  lemma StretchedWellFormed(fat: seq<nat>, c: nat, n: nat, mark: nat)
    requires WellFormed(fat) && IsCluster(fat, n) && fat[n] == 0 && mark >= |fat|
    requires IsCluster(fat, c) && fat[c] >= |fat|
    ensures WellFormed(Stretched(fat, c, n, mark))
  {
    var fat' := Stretched(fat, c, n, mark);
    forall d | IsCluster(fat', d) && fat'[d] != 0
      ensures GoodLink(fat', d) && Ends(fat', d)
    {
      if d == n {
        assert IsChain(fat', [n]);
      } else {
        assert GoodLink(fat, d);
        var ch :| IsChain(fat, ch) && ch[0] == d;
        StretchedChains(fat, c, n, mark, ch);
        if c in ch {
          assert IsChain(fat', ch + [n]);
        }
      }
    }
    StretchedInjective(fat, c, n, mark);
  }

  lemma StretchedInjective(fat: seq<nat>, c: nat, n: nat, mark: nat)
    requires WellFormed(fat) && IsCluster(fat, n) && fat[n] == 0 && mark >= |fat|
    requires IsCluster(fat, c) && fat[c] >= |fat|
    ensures Injective(Stretched(fat, c, n, mark))
  {
    forall d | IsCluster(fat, d)
      ensures fat[d] != n
    {
      assert fat[d] != 0 ==> GoodLink(fat, d);
    }
  }

  // ----- free clusters

  function FreeFrom(fat: seq<nat>, i: nat): (n: nat)
    ensures i <= |fat| ==> n <= |fat| - i
    decreases |fat| - i
  {
    if i >= |fat| then 0 else (if fat[i] == 0 then 1 else 0) + FreeFrom(fat, i + 1)
  }

  /** How many clusters are free. */
  function Free(fat: seq<nat>): nat { FreeFrom(fat, 2) }

  function One(b: bool): nat { if b then 1 else 0 }

  lemma {:induction false} FreeFromUpdate(fat: seq<nat>, i: nat, c: nat, v: nat)
    requires c < |fat|
    ensures FreeFrom(fat[c := v], i) + One(i <= c && fat[c] == 0) == FreeFrom(fat, i) + One(i <= c && v == 0)
    decreases |fat| - i
  {
    if i < |fat| {
      FreeFromUpdate(fat, i + 1, c, v);
    }
  }

  /** Allocating or freeing one cluster moves the count by one. */
  lemma FreeUpdate(fat: seq<nat>, c: nat, v: nat)
    requires IsCluster(fat, c)
    ensures Free(fat[c := v]) + One(fat[c] == 0) == Free(fat) + One(v == 0)
  {
    FreeFromUpdate(fat, 2, c, v);
  }

  ghost predicate NoneFreeIn(fat: seq<nat>, lo: nat, hi: nat) {
    forall c :: lo <= c < hi && c < |fat| ==> fat[c] != 0
  }

  lemma {:induction false} NoneFree(fat: seq<nat>, i: nat)
    requires NoneFreeIn(fat, i, |fat|)
    ensures FreeFrom(fat, i) == 0
    decreases |fat| - i
  {
    if i < |fat| {
      NoneFree(fat, i + 1);
    }
  }

  /** Counting from entry 0 gives the same number when entries 0 and 1 are in use, as
      the standard requires of them; else it is too high by the number that are not. */
  lemma FreeFromStart(fat: seq<nat>)
    requires |fat| >= 2
    ensures FreeFrom(fat, 0) == Free(fat) + One(fat[0] == 0) + One(fat[1] == 0)
  {
    assert FreeFrom(fat, 0) == One(fat[0] == 0) + FreeFrom(fat, 1);
  }

  /** Where the search for a free cluster starts (create_chain, tff.c, lines 280-290):
      after the cluster to stretch, or after the last one allocated. */
  function SearchStart(max: nat, clust: nat, last: nat): nat {
    if clust != 0 then clust else if 2 <= last < max then last else 1
  }

  /** n is the first free cluster after scl, going round once. */
  ghost predicate NextFit(fat: seq<nat>, scl: nat, n: nat) {
    && IsCluster(fat, n) && fat[n] == 0
    && if n > scl then NoneFreeIn(fat, scl + 1, n)
       else NoneFreeIn(fat, scl + 1, |fat|) && NoneFreeIn(fat, 2, n)
  }

  /** The cluster looked at in turn i of that search. */
  function Probe(scl: nat, i: nat, max: nat): int {
    if scl + 1 + i < max then scl + 1 + i else scl + 1 + i - max + 2
  }

  /** No cluster is looked at twice, so there are at most as many turns as clusters. */
  lemma ProbedOnce(probed: seq<nat>, scl: nat, max: nat)
    requires 1 <= scl < max && |probed| <= max - 2
    requires forall i :: 0 <= i < |probed| ==> probed[i] == Probe(scl, i, max)
    ensures Distinct(probed) && forall i :: 0 <= i < |probed| ==> 2 <= probed[i] < max
  {
  }

  // ----- removal

  /** What remove_chain leaves of a table, and whether it got to an end: it gives up,
      without clearing, at an entry that holds 1. The clusters cleared on the way make
      it stop even on a cyclic table. */
  function Removed(fat: seq<nat>, c: nat): (r: (seq<nat>, bool))
    ensures |r.0| == |fat|
    ensures forall j :: 0 <= j < |fat| ==> r.0[j] == fat[j] || r.0[j] == 0
    decreases |fat| - Free(fat), c
  {
    if !IsCluster(fat, c) then (fat, true)
    else if fat[c] == 1 then (fat, false)
    else
      FreeUpdate(fat, c, 0);
      FreeAtMost(fat[c := 0]);
      Removed(fat[c := 0], fat[c])
  }

  /** How many clusters remove_chain counts as freed on the way. */
  function Steps(fat: seq<nat>, c: nat): nat
    decreases |fat| - Free(fat), c
  {
    if !IsCluster(fat, c) || fat[c] == 1 then 0
    else
      FreeUpdate(fat, c, 0);
      FreeAtMost(fat[c := 0]);
      1 + Steps(fat[c := 0], fat[c])
  }

  /** One turn of remove_chain's loop. */
  lemma RemoveStep(fat: seq<nat>, c: nat)
    requires IsCluster(fat, c) && fat[c] != 1
    ensures Removed(fat, c) == Removed(fat[c := 0], fat[c])
    ensures Steps(fat, c) == 1 + Steps(fat[c := 0], fat[c])
    ensures Free(fat[c := 0]) <= |fat|
    ensures Free(fat[c := 0]) == Free(fat) + One(fat[c] != 0)
  {
    FreeUpdate(fat, c, 0);
    FreeAtMost(fat[c := 0]);
  }

  /** The walk of remove_chain from c comes to a cluster that is free, or that it has freed
      itself. */
  predicate ReachesFree(fat: seq<nat>, c: nat)
    decreases |fat| - Free(fat), c
  {
    if !IsCluster(fat, c) || fat[c] == 1 then false
    else
      FreeUpdate(fat, c, 0);
      FreeAtMost(fat[c := 0]);
      fat[c] == 0 || ReachesFree(fat[c := 0], fat[c])
  }

  /** On any table, cyclic or not, the count is right, or one too high if the walk comes to
      a free cluster. */
  lemma {:induction false} StepsCount(fat: seq<nat>, c: nat)
    ensures Free(fat) + Steps(fat, c) == Free(Removed(fat, c).0) + One(ReachesFree(fat, c))
    decreases |fat| - Free(fat), c
  {
    if IsCluster(fat, c) && fat[c] != 1 {
      FreeUpdate(fat, c, 0);
      FreeAtMost(fat[c := 0]);
      StepsCount(fat[c := 0], fat[c]);
      if fat[c] == 0 {
        assert fat[c := 0] == fat;
      }
    }
  }

  /** Links of the table lead from the head of p to its last cluster, through clusters in
      use, no two of them the same; the last one is free or has been passed before. */
  ghost predicate RunsIntoFree(fat: seq<nat>, p: seq<nat>) {
    && p != [] && Linked(fat, p)
    && (forall i :: 0 <= i < |p| - 1 ==> fat[p[i]] > 1)
    && Distinct(p[..|p| - 1])
    && (fat[p[|p| - 1]] == 0 || p[|p| - 1] in p[..|p| - 1])
  }

  /** In terms of the table alone: the count is one too high if and only if the links from c
      lead to a free cluster or into a cycle. */
  lemma {:induction false} ReachesFreeIs(fat: seq<nat>, c: nat)
    ensures ReachesFree(fat, c) <==> exists p :: RunsIntoFree(fat, p) && p[0] == c
    decreases |fat| - Free(fat), c
  {
    if IsCluster(fat, c) && fat[c] > 1 {
      var fat' := fat[c := 0];
      FreeUpdate(fat, c, 0);
      FreeAtMost(fat');
      ReachesFreeIs(fat', fat[c]);
      if ReachesFree(fat, c) {
        var p :| RunsIntoFree(fat', p) && p[0] == fat[c];
        PathFrom(fat, c, p);
      }
      forall p | RunsIntoFree(fat, p) && p[0] == c
        ensures RunsIntoFree(fat', p[1..]) && p[1..][0] == fat[c]
      {
        PathOnward(fat, c, p);
      }
    } else if IsCluster(fat, c) && fat[c] == 0 {
      assert RunsIntoFree(fat, [c]);
    }
  }

  /** A chain that ends in a free cluster: two are counted and one is freed. */
  lemma CountedTwice(fat: seq<nat>)
    requires fat == [0xFF8, 0xFFF, 3, 0]
    ensures Steps(fat, 2) == 2 && Removed(fat, 2) == ([0xFF8, 0xFFF, 0, 0], true)
    ensures Free(fat) == 1 && Free(Removed(fat, 2).0) == 2
  {
    var fat1 := [0xFF8, 0xFFF, 0, 0];
    assert fat[2 := 0] == fat1 && fat1[3 := 0] == fat1;
    assert Removed(fat1, 3) == Removed(fat1, 0) == (fat1, true);
    assert Steps(fat1, 3) == 1 + Steps(fat1, 0) == 1;
    assert FreeFrom(fat1, 4) == 0 && FreeFrom(fat, 4) == 0;
    assert FreeFrom(fat1, 3) == 1 && FreeFrom(fat, 3) == 1;
  }

  lemma PathFrom(fat: seq<nat>, c: nat, p: seq<nat>)
    requires IsCluster(fat, c) && fat[c] > 1 && RunsIntoFree(fat[c := 0], p) && p[0] == fat[c]
    ensures RunsIntoFree(fat, [c] + p)
  {
    var q := [c] + p;
    assert q[..|q| - 1] == [c] + p[..|p| - 1];
    forall i | 0 <= i < |q| - 1
      ensures fat[q[i]] == q[i + 1] && fat[q[i]] > 1
    {
      if i > 0 {
        assert fat[c := 0][p[i - 1]] == p[i];
      }
    }
  }

  lemma PathOnward(fat: seq<nat>, c: nat, p: seq<nat>)
    requires IsCluster(fat, c) && fat[c] > 1 && RunsIntoFree(fat, p) && p[0] == c
    ensures |p| > 1 && p[1] == fat[c] && RunsIntoFree(fat[c := 0], p[1..])
  {
    assert |p| > 1;
    var q := p[1..];
    assert q[..|q| - 1] == p[1..|p| - 1];
    assert p[..|p| - 1][0] == c;
    forall i | 0 <= i < |q| - 1
      ensures q[i] != c && fat[c := 0][q[i]] == q[i + 1]
    {
      assert p[..|p| - 1][i + 1] == q[i];
      assert fat[p[i + 1]] == p[i + 2];
    }
  }

  lemma FreeAtMost(fat: seq<nat>)
    ensures Free(fat) <= |fat|
  {
  }

  /** The table with the clusters of ch free. */
  function Cleared(fat: seq<nat>, ch: seq<nat>): (r: seq<nat>)
    ensures |r| == |fat|
    ensures forall j :: 0 <= j < |fat| ==> r[j] == if j in ch then 0 else fat[j]
  {
    seq(|fat|, j requires 0 <= j < |fat| => if j in ch then 0 else fat[j])
  }

  /** On an end-marked chain, removal frees exactly the clusters of that chain. */
  lemma {:induction false} RemovedChain(fat: seq<nat>, ch: seq<nat>)
    requires IsChain(fat, ch)
    ensures Removed(fat, ch[0]) == (Cleared(fat, ch), true)
    ensures Steps(fat, ch[0]) == |ch|
    ensures Free(Cleared(fat, ch)) == Free(fat) + |ch|
    decreases |ch|
  {
    var c := ch[0];
    ChainDistinct(fat, ch);
    FreeUpdate(fat, c, 0);
    var fat' := fat[c := 0];
    if |ch| == 1 {
      assert Cleared(fat, ch) == fat';
      assert Removed(fat', fat[c]) == (fat', true);
      assert fat[c] != 0;
    } else {
      assert fat[c] == ch[1];
      ChainTail(fat, ch);
      ChainKept(fat, fat', ch[1..]);
      RemovedChain(fat', ch[1..]);
      assert Cleared(fat, ch) == Cleared(fat', ch[1..]);
    }
  }

  /** Chains that share no cluster with the removed one survive its removal. */
  lemma RemovedOthers(fat: seq<nat>, ch: seq<nat>, other: seq<nat>)
    requires IsChain(fat, ch) && IsChain(fat, other)
    requires forall c :: c in other ==> c !in ch
    ensures IsChain(Cleared(fat, ch), other)
  {
    ChainKept(fat, Cleared(fat, ch), other);
  }

  /** Removing a whole chain keeps the other chains disjoint and end-marked. */
  lemma RemovedWellFormed(fat: seq<nat>, ch: seq<nat>)
    requires WellFormed(fat) && IsChain(fat, ch) && IsHead(fat, ch[0])
    ensures WellFormed(Cleared(fat, ch))
  {
    var fat' := Cleared(fat, ch);
    forall c | IsCluster(fat', c) && fat'[c] != 0
      ensures GoodLink(fat', c) && Ends(fat', c)
    {
      assert Ends(fat, c);
      var a :| IsChain(fat, a) && a[0] == c;
      KeptChain(fat, ch, a);
      LinkAt(fat', a, 0);
      if |a| > 1 {
        LinkAt(fat', a, 1);
      }
    }
    ClearedInjective(fat, ch);
  }

  lemma KeptChain(fat: seq<nat>, ch: seq<nat>, a: seq<nat>)
    requires WellFormed(fat) && IsChain(fat, ch) && IsHead(fat, ch[0]) && IsChain(fat, a) && a[0] !in ch
    ensures IsChain(Cleared(fat, ch), a)
  {
    forall i | 0 <= i < |a|
      ensures a[i] !in ch
    {
      OutsideStaysOutside(fat, ch, a, i);
    }
    ChainKept(fat, Cleared(fat, ch), a);
  }

  lemma ClearedInjective(fat: seq<nat>, ch: seq<nat>)
    requires Injective(fat)
    ensures Injective(Cleared(fat, ch))
  {
  }

  lemma {:induction false} OutsideStaysOutside(fat: seq<nat>, ch: seq<nat>, a: seq<nat>, i: nat)
    requires WellFormed(fat) && IsChain(fat, ch) && IsHead(fat, ch[0]) && IsChain(fat, a)
    requires a[0] !in ch && i < |a|
    ensures a[i] !in ch
  {
    if i > 0 {
      OutsideStaysOutside(fat, ch, a, i - 1);
      assert fat[a[i - 1]] == a[i];
      forall j | 0 <= j < |ch|
        ensures ch[j] != a[i]
      {
        assert j > 0 ==> fat[ch[j - 1]] == ch[j] && ch[j - 1] in ch;
      }
    }
  }

  // ----- a chain growing over several allocations

  /** The chain ch has become ch' by taking free clusters, and nothing else in the
      table has changed. A file without clusters has the empty chain. */
  ghost predicate Extends(fat: seq<nat>, fat': seq<nat>, ch: seq<nat>, ch': seq<nat>) {
    && |fat'| == |fat| && ch <= ch' && Distinct(ch')
    && (forall i :: |ch| <= i < |ch'| ==> IsCluster(fat, ch'[i]) && fat[ch'[i]] == 0)
    && (forall c :: 0 <= c < |fat| && c !in ch' ==> fat'[c] == fat[c])
    && Free(fat') + (|ch'| - |ch|) == Free(fat)
  }

  ghost predicate ChainOrNone(fat: seq<nat>, ch: seq<nat>) {
    ch != [] ==> IsChain(fat, ch)
  }

  /** create_chain at the end of a file's chain, or for a file without one. */
  lemma ExtendOne(fat: seq<nat>, ch: seq<nat>, n: nat, mark: nat)
    requires ChainOrNone(fat, ch) && WellFormed(fat) && IsCluster(fat, n) && fat[n] == 0 && mark >= |fat|
    ensures var fat' := if ch == [] then Started(fat, n, mark) else Stretched(fat, ch[|ch| - 1], n, mark);
            IsChain(fat', ch + [n]) && WellFormed(fat') && Extends(fat, fat', ch, ch + [n])
  {
    hide WellFormed, IsChain, Extends;
    if ch == [] {
      ExtendStarted(fat, n, mark);
      assert ch + [n] == [n];
    } else {
      ExtendStretched(fat, ch, n, mark);
    }
  }

  lemma ExtendStarted(fat: seq<nat>, n: nat, mark: nat)
    requires WellFormed(fat) && IsCluster(fat, n) && fat[n] == 0 && mark >= |fat|
    ensures IsChain(Started(fat, n, mark), [n]) && WellFormed(Started(fat, n, mark))
    ensures Extends(fat, Started(fat, n, mark), [], [n])
  {
    hide WellFormed;
    FreeUpdate(fat, n, mark);
    StartedChains(fat, n, mark);
    StartedWellFormed(fat, n, mark);
  }

  lemma ExtendStretched(fat: seq<nat>, ch: seq<nat>, n: nat, mark: nat)
    requires IsChain(fat, ch) && WellFormed(fat) && IsCluster(fat, n) && fat[n] == 0 && mark >= |fat|
    ensures var fat' := Stretched(fat, ch[|ch| - 1], n, mark);
            IsChain(fat', ch + [n]) && WellFormed(fat') && Extends(fat, fat', ch, ch + [n])
  {
    hide WellFormed;
    var c := ch[|ch| - 1];
    FreeUpdate(fat, n, mark);
    FreeUpdate(fat[n := mark], c, n);
    StretchedChains(fat, c, n, mark, ch);
    StretchedWellFormed(fat, c, n, mark);
    ChainDistinct(Stretched(fat, c, n, mark), ch + [n]);
  }

  lemma ExtendsCount(fat: seq<nat>, fat': seq<nat>, ch: seq<nat>, ch': seq<nat>)
    requires Extends(fat, fat', ch, ch')
    ensures ch <= ch' && Free(fat') + (|ch'| - |ch|) == Free(fat)
  {
  }

  lemma ExtendsTrans(fat: seq<nat>, fat': seq<nat>, fat'': seq<nat>, ch: seq<nat>, ch': seq<nat>, ch'': seq<nat>)
    requires Extends(fat, fat', ch, ch') && Extends(fat', fat'', ch', ch'') && ChainOrNone(fat', ch')
    ensures Extends(fat, fat'', ch, ch'')
  {
    forall i | |ch| <= i < |ch''|
      ensures IsCluster(fat, ch''[i]) && fat[ch''[i]] == 0
    {
      if i < |ch'| {
        assert ch''[i] == ch'[i];
      } else {
        FreeNotInFile(fat', ch', ch''[i]);
      }
    }
  }

  lemma FreeNotInFile(fat: seq<nat>, ch: seq<nat>, n: nat)
    requires ChainOrNone(fat, ch) && IsCluster(fat, n) && fat[n] == 0
    ensures n !in ch
  {
    if ch != [] {
      FreeNotInChain(fat, ch, n);
    }
  }

  /** The chain of any other file is still there, and still apart. */
  lemma OthersKept(fat: seq<nat>, fat': seq<nat>, ch: seq<nat>, ch': seq<nat>, other: seq<nat>)
    requires Extends(fat, fat', ch, ch') && IsChain(fat, other)
    requires forall c :: c in other ==> c !in ch
    ensures IsChain(fat', other) && forall c :: c in other ==> c !in ch'
  {
    forall c | c in other
      ensures c !in ch'
    {
      forall i | 0 <= i < |ch'|
        ensures ch'[i] != c
      {
        if i < |ch| {
          assert ch'[i] == ch[i] && ch[i] in ch;
        } else {
          FreeNotInChain(fat, other, ch'[i]);
        }
      }
    }
    ChainKept(fat, fat', other);
  }

  /** A well-formed table has no entry 1, so create_chain does not refuse. */
  lemma NoOnes(fat: seq<nat>, c: nat)
    requires WellFormed(fat) && IsCluster(fat, c)
    ensures fat[c] != 1
  {
    assert fat[c] != 0 ==> GoodLink(fat, c);
  }
}
