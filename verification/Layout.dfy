/** Where things are on a FAT12/FAT16 volume, as recorded in the FATFS structure
    by auto_mount (tff.c, lines 694-722). Never changes while a volume is mounted. */
module Layout {
  import opened Arith

  datatype FatKind = Fat12 | Fat16

  predicate PowerOfTwo(n: nat) {
    n == 1 || (n > 1 && n % 2 == 0 && PowerOfTwo(n / 2))
  }

  datatype Geometry = Geometry(
    kind: FatKind,
    fatbase: nat,
    sectsFat: nat,
    nFats: nat,
    dirbase: nat,
    nRootdir: nat,
    database: nat,
    sectsClust: nat,
    maxClust: nat)
  {
    /** A consistent boot record: the regions follow one another, the table is
        large enough for all clusters, and a cluster is a power of two sectors. */
    ghost predicate Valid() {
      && 1 <= fatbase && 1 <= sectsFat && 1 <= nFats
      && dirbase == MirrorOf(fatbase, nFats)
      && fatbase + sectsFat <= dirbase
      && nRootdir % 16 == 0 && nRootdir < 0x1_0000
      && database == dirbase + nRootdir / 16
      && 1 <= sectsClust <= 128 && PowerOfTwo(sectsClust)
      && 2 <= maxClust
      && (kind.Fat12? ==> maxClust <= 0xFF7 && (maxClust - 1) * 3 / 2 + 1 < 512 * sectsFat)
      && (kind.Fat16? ==> maxClust <= 0xFFF7 && maxClust <= 256 * sectsFat)
    }

    /** Sectors of the second and later copies of the table. */
    predicate IsMirror(s: int) { fatbase + sectsFat <= s < dirbase }

    /** Sectors of the table, all copies. */
    predicate InFat(s: int) { fatbase <= s < dirbase }

    /** Copy number k of the table sector s. */
    function MirrorOf(s: nat, k: nat): nat { s + Times(k, sectsFat) }

    /** One past the last sector of the data area. */
    function End(): nat
      requires 2 <= maxClust
    {
      database + Times(maxClust - 2, sectsClust)
    }

    /** First sector of a cluster; 0 for a number that is not a cluster.
        The 16-bit subtraction wraps, so 0 and 1 come out far too large. */
    function Clust2Sect(c: nat): nat
      requires 2 <= maxClust
    {
      var d := (c - 2) % 0x1_0000;
      if d >= maxClust - 2 then 0 else Times(d, sectsClust) + database
    }

    /** The cluster holding a sector of the data area. */
    function Sect2Clust(s: nat): int
      requires 1 <= sectsClust && database <= s
    {
      Quot(s - database, sectsClust) + 2
    }

    predicate IsCluster(c: int) { 2 <= c < maxClust }

    /** The mark put at the end of a chain: 0x0FFFFFFF cut to an entry. */
    function EndMark(): nat { if kind.Fat12? then 0xFFF else 0xFFFF }

    /** What fits in one entry of the table. */
    function EntrySize(): nat { if kind.Fat12? then 0x1000 else 0x1_0000 }
  }

  lemma MirrorInRange(g: Geometry, s: nat, k: nat)
    requires g.Valid() && g.fatbase <= s < g.fatbase + g.sectsFat && 1 <= k < g.nFats
    ensures g.IsMirror(g.MirrorOf(s, k))
  {
    TimesMonotone(1, k, g.sectsFat);
    TimesMonotone(k, g.nFats, g.sectsFat);
  }

  lemma MirrorInjective(g: Geometry, s: nat, k: nat, s': nat, k': nat)
    requires g.Valid()
    requires g.fatbase <= s < g.fatbase + g.sectsFat && g.fatbase <= s' < g.fatbase + g.sectsFat
    requires g.MirrorOf(s, k) == g.MirrorOf(s', k')
    ensures s == s' && k == k'
  {
    if k < k' {
      TimesMonotone(k, k', g.sectsFat);
    } else if k' < k {
      TimesMonotone(k', k, g.sectsFat);
    }
  }

  /** Clust2Sect and Sect2Clust are inverse on the sectors of the data area. */
  lemma ClusterOfSector(g: Geometry, c: nat, r: nat)
    requires g.Valid() && g.IsCluster(c) && r < g.sectsClust
    ensures g.Clust2Sect(c) == g.database + Times(c - 2, g.sectsClust)
    ensures g.database <= g.Clust2Sect(c) + r < g.End()
    ensures g.Sect2Clust(g.Clust2Sect(c) + r) == c
    ensures Rem(g.Clust2Sect(c) + r - g.database, g.sectsClust) == r
  {
    QuotOf(c - 2, g.sectsClust, r);
    TimesMonotone(c - 2, g.maxClust - 2, g.sectsClust);
  }
}
