/** The bytes of a file: the clusters of its chain, one after the other. */
module FileData {
  import opened Arith
  import opened Bytes
  import opened Layout
  import opened Chains

  /** The clusters of a chain exist and are different. */
  ghost predicate Clusters(g: Geometry, ch: seq<nat>) {
    g.Valid() && (forall i :: 0 <= i < |ch| ==> g.IsCluster(ch[i])) && Distinct(ch)
  }

  /** The chain is long enough to have a sector number k. */
  ghost predicate Covers(g: Geometry, ch: seq<nat>, k: int) {
    g.Valid() && 0 <= k && Quot(k, g.sectsClust) < |ch|
  }

  /** The sector of the volume that holds sector k of the file. */
  ghost function SectorNo(g: Geometry, ch: seq<nat>, k: int): nat
    requires Covers(g, ch, k)
  {
    g.Clust2Sect(ch[Quot(k, g.sectsClust)]) + Rem(k, g.sectsClust)
  }

  /** Sector s of the volume belongs to the chain. */
  predicate InChain(g: Geometry, ch: seq<nat>, s: int) {
    s >= g.database && g.sectsClust > 0 && g.Sect2Clust(s) in ch
  }

  lemma SectorInChain(g: Geometry, ch: seq<nat>, k: int)
    requires Clusters(g, ch) && Covers(g, ch, k)
    ensures InChain(g, ch, SectorNo(g, ch, k))
    ensures g.database <= SectorNo(g, ch, k) < g.End()
    ensures g.Sect2Clust(SectorNo(g, ch, k)) == ch[Quot(k, g.sectsClust)]
    ensures Rem(SectorNo(g, ch, k) - g.database, g.sectsClust) == Rem(k, g.sectsClust)
  {
    ClusterOfSector(g, ch[Quot(k, g.sectsClust)], Rem(k, g.sectsClust));
  }

  /** Different sectors of a file are different sectors of the volume. */
  lemma SectorInjective(g: Geometry, ch: seq<nat>, k: int, k': int)
    requires Clusters(g, ch) && Covers(g, ch, k) && Covers(g, ch, k')
    requires SectorNo(g, ch, k) == SectorNo(g, ch, k')
    ensures k == k'
  {
    SectorInChain(g, ch, k);
    SectorInChain(g, ch, k');
    Division(k, g.sectsClust);
    Division(k', g.sectsClust);
  }

  /** From sector k to the end of its cluster, sectors of the file follow one another. */
  lemma SameCluster(g: Geometry, ch: seq<nat>, k: int, i: int)
    requires Covers(g, ch, k) && 0 <= i && Rem(k, g.sectsClust) + i < g.sectsClust
    ensures Covers(g, ch, k + i) && SectorNo(g, ch, k + i) == SectorNo(g, ch, k) + i
    ensures Quot(k + i, g.sectsClust) == Quot(k, g.sectsClust)
    ensures Rem(k + i, g.sectsClust) == Rem(k, g.sectsClust) + i
  {
    QuotStay(k, g.sectsClust, i);
  }

  lemma CoversLess(g: Geometry, ch: seq<nat>, k: int, j: int)
    requires Covers(g, ch, k) && 0 <= j <= k
    ensures Covers(g, ch, j)
  {
    QuotMonotone(j, k, g.sectsClust);
  }

  /** A chain long enough for n bytes. */
  ghost predicate Holds(g: Geometry, ch: seq<nat>, n: nat) {
    n > 0 ==> Covers(g, ch, (n - 1) / 512)
  }

  lemma HoldsLess(g: Geometry, ch: seq<nat>, n: nat, j: int)
    requires Holds(g, ch, n) && 0 <= j < n
    ensures Covers(g, ch, j / 512)
  {
    CoversLess(g, ch, (n - 1) / 512, j / 512);
  }

  /** Byte j of a file. */
  ghost function FileByte(g: Geometry, st: seq<Sector>, ch: seq<nat>, j: int): Byte
    requires 0 <= j && Covers(g, ch, j / 512)
    requires SectorNo(g, ch, j / 512) < |st|
  {
    st[SectorNo(g, ch, j / 512)][j % 512]
  }

  /** The store reaches to the end of the data area. */
  ghost predicate Big(g: Geometry, st: seq<Sector>) {
    g.Valid() && g.database <= g.End() <= |st|
  }

  /** The first n bytes of a file. */
  ghost function Content(g: Geometry, st: seq<Sector>, ch: seq<nat>, n: nat): (c: seq<Byte>)
    requires Big(g, st) && Clusters(g, ch) && Holds(g, ch, n)
    ensures |c| == n
  {
    seq(n, j requires 0 <= j < n => ByteAt(g, st, ch, n, j))
  }

  ghost function ByteAt(g: Geometry, st: seq<Sector>, ch: seq<nat>, n: nat, j: nat): Byte
    requires Big(g, st) && Clusters(g, ch) && Holds(g, ch, n) && j < n
  {
    HoldsLess(g, ch, n, j);
    SectorInChain(g, ch, j / 512);
    FileByte(g, st, ch, j)
  }

  // ----- the same bytes as a concatenation of clusters

  ghost function Joined(ss: seq<Sector>): seq<Byte> {
    if ss == [] then [] else Joined(ss[..|ss| - 1]) + ss[|ss| - 1]
  }

  ghost function ClusterData(g: Geometry, st: seq<Sector>, c: nat): (d: seq<Sector>)
    requires Big(g, st) && g.IsCluster(c)
    ensures |d| == g.sectsClust
  {
    ClusterOfSector(g, c, 0);
    ClusterOfSector(g, c, g.sectsClust - 1);
    st[g.Clust2Sect(c)..g.Clust2Sect(c) + g.sectsClust]
  }

  lemma ClusterDataAt(g: Geometry, st: seq<Sector>, c: nat, r: nat)
    requires Big(g, st) && g.IsCluster(c) && r < g.sectsClust
    ensures g.Clust2Sect(c) + r < |st| && ClusterData(g, st, c)[r] == st[g.Clust2Sect(c) + r]
  {
    ClusterOfSector(g, c, 0);
    ClusterOfSector(g, c, r);
    ClusterOfSector(g, c, g.sectsClust - 1);
  }

  /** The sectors of all the clusters of a chain, in chain order. */
  ghost function ChainData(g: Geometry, st: seq<Sector>, ch: seq<nat>): seq<Sector>
    requires Big(g, st) && forall i :: 0 <= i < |ch| ==> g.IsCluster(ch[i])
  {
    if ch == [] then [] else ChainData(g, st, ch[..|ch| - 1]) + ClusterData(g, st, ch[|ch| - 1])
  }

  lemma {:induction false} JoinedAt(ss: seq<Sector>, j: nat)
    requires j < 512 * |ss|
    ensures |Joined(ss)| == 512 * |ss|
    ensures Joined(ss)[j] == ss[j / 512][j % 512]
  {
    var front := ss[..|ss| - 1];
    JoinedLength(front);
    if j < 512 * |front| {
      JoinedAt(front, j);
    } else {
      assert j / 512 == |front| && j % 512 == j - 512 * |front|;
    }
  }

  lemma {:induction false} JoinedLength(ss: seq<Sector>)
    ensures |Joined(ss)| == 512 * |ss|
  {
    if ss != [] {
      JoinedLength(ss[..|ss| - 1]);
    }
  }

  lemma {:induction false} ChainDataAt(g: Geometry, st: seq<Sector>, ch: seq<nat>, k: nat)
    requires Big(g, st) && Clusters(g, ch)
    ensures |ChainData(g, st, ch)| == Times(|ch|, g.sectsClust)
    ensures k < Times(|ch|, g.sectsClust) ==> Covers(g, ch, k) && SectorNo(g, ch, k) < |st| &&
                                              ChainData(g, st, ch)[k] == st[SectorNo(g, ch, k)]
  {
    var sc := g.sectsClust;
    if ch != [] {
      var front, c := ch[..|ch| - 1], ch[|ch| - 1];
      ChainDataAt(g, st, front, k);
      if k < Times(|front|, sc) {
        assert SectorNo(g, front, k) == SectorNo(g, ch, k);
      } else if k < Times(|ch|, sc) {
        var r := k - Times(|front|, sc);
        QuotOf(|front|, sc, r);
        ClusterDataAt(g, st, c, r);
      }
    }
  }

  /** The bytes of a file, found through its sectors one at a time, are the leading
      bytes of the concatenation of the clusters of its chain. */
  lemma ContentIsConcatenation(g: Geometry, st: seq<Sector>, ch: seq<nat>, n: nat)
    requires Big(g, st) && Clusters(g, ch) && Holds(g, ch, n)
    ensures n <= |Joined(ChainData(g, st, ch))| == Times(|ch|, g.sectsClust) * 512
    ensures Content(g, st, ch, n) == Joined(ChainData(g, st, ch))[..n]
  {
    var all := ChainData(g, st, ch);
    ChainDataAt(g, st, ch, 0);
    JoinedLength(all);
    if n > 0 {
      LastSector(g, ch, (n - 1) / 512);
    }
    forall j | 0 <= j < n
      ensures Content(g, st, ch, n)[j] == Joined(all)[j]
    {
      JoinedAt(all, j);
      ChainDataAt(g, st, ch, j / 512);
    }
  }

  lemma LastSector(g: Geometry, ch: seq<nat>, k: int)
    requires Covers(g, ch, k)
    ensures k < Times(|ch|, g.sectsClust)
  {
    Division(k, g.sectsClust);
    TimesMonotone(Quot(k, g.sectsClust), |ch|, g.sectsClust);
  }
}
