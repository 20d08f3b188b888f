/** What one turn of the transfer loops of f_read_or_wr and f_write does to the caller's
    buffer and to the sectors of a file, on values (tff.c, lines 928-963, 1028-1069). */
module Transfer {
  import opened Arith
  import opened Bytes
  import opened Layout
  import opened Chains
  import opened FileData

  /** The directory entry's start cluster and size fit the chain in the table. */
  ghost predicate IsFile(g: Geometry, fat: seq<nat>, org: nat, ch: seq<nat>, size: nat) {
    && g.Valid() && |fat| == g.maxClust && Clusters(g, ch)
    && if org == 0 then ch == [] && size == 0
       else IsChain(fat, ch) && ch[0] == org && Holds(g, ch, size)
  }

  /** The cursor is in sector k of the file: in its cluster, at its sector, and the
      count of sectors left in the cluster includes this one. */
  ghost predicate AtSector(g: Geometry, ch: seq<nat>, k: int, clust: nat, sect: nat, left: nat) {
    && Covers(g, ch, k)
    && clust == ch[Quot(k, g.sectsClust)]
    && sect == SectorNo(g, ch, k)
    && left == g.sectsClust - Rem(k, g.sectsClust)
  }

  /** Sector k lies wholly inside the n bytes from p: it is moved past the window. */
  predicate Full(p: nat, n: nat, k: int) {
    p <= 512 * k && 512 * k + 512 <= p + n
  }

  /** Byte i of the buffer belongs to such a sector. */
  predicate FullAt(p: nat, n: nat, i: nat) { Full(p, n, (p + i) / 512) }

  /** No whole sector of the transfer of n bytes at p is in a window on sector w. */
  ghost predicate ClearOf(g: Geometry, ch: seq<nat>, p: nat, n: nat, w: nat) {
    forall k :: Covers(g, ch, k) && Full(p, n, k) ==> SectorNo(g, ch, k) != w
  }

  /** Transfers below 512 bytes move no sector past the window. */
  lemma SmallIsClear(g: Geometry, ch: seq<nat>, p: nat, n: nat, w: nat)
    requires n < 512
    ensures ClearOf(g, ch, p, n, w)
  {
  }

  /** What the caller's buffer holds after done bytes: the bytes of the file, except
      that writing leaves the parts it takes from the buffer alone. */
  ghost function Filled(data: seq<Byte>, p: nat, n: nat, wr: bool, buf: seq<Byte>, done: nat): (r: seq<Byte>)
    requires p + done <= |data| && done <= |buf|
    ensures |r| == |buf|
  {
    seq(|buf|, i requires 0 <= i < |buf| => if i < done && !(wr && FullAt(p, n, i)) then data[p + i] else buf[i])
  }

  /** What the volume holds after done bytes: when writing, the sectors wholly passed
      hold the buffer's bytes; nothing else has changed. */
  ghost predicate Landed(g: Geometry, ch: seq<nat>, st0: seq<Sector>, st: seq<Sector>, buf: seq<Byte>, p: nat,
          done: nat, wr: bool)
    requires done <= |buf|
  {
    && |st| == |st0|
    && (forall k :: Covers(g, ch, k) && SectorNo(g, ch, k) < |st| ==>
         st[SectorNo(g, ch, k)] ==
         if wr && Full(p, done, k) then buf[512 * k - p..512 * k - p + 512] else st0[SectorNo(g, ch, k)])
    && SameOutside(g, ch, st0, st)
  }

  /** Sectors that do not belong to the file are as before. */
  ghost predicate SameOutside(g: Geometry, ch: seq<nat>, st0: seq<Sector>, st: seq<Sector>) {
    |st| == |st0| && forall s :: 0 <= s < |st| && !InChain(g, ch, s) ==> st[s] == st0[s]
  }

  /** Where the window is after done bytes from p on: on the sector that was moved in part
      last, if there was one, or as before, or in the table. The cursor was on sector first
      of the volume and is on sector last. */
  predicate WindowAfter(p: nat, done: nat, was: nat, first: nat, last: nat, now: nat, soiled: bool, inTable: bool) {
    if done == 0 then inTable || (now == was && !soiled)
    else if (p + done) % 512 != 0 then now == last
    else inTable || if p % 512 == 0 then now == was && !soiled else now == first
  }

  lemma WindowTurn(p: nat, done: nat, cnt: nat, was: nat, first: nat, last: nat, now: nat, soiled: bool, last': nat,
          now': nat, soiled': bool, table: nat)
    requires WindowAfter(p, done, was, first, last, now, soiled, now < table)
    requires 0 < cnt && (done == 0 ==> last == first)
    requires (p + done) % 512 != 0 ==> done == 0
    requires if (p + done) % 512 == 0 && (p + done + cnt) % 512 == 0
             then now' < table || (now' == now && (soiled' ==> soiled))
             else now' == last' && ((p + done) % 512 != 0 ==> last' == last)
    ensures WindowAfter(p, done + cnt, was, first, last', now', soiled', now' < table)
  {
  }

  /** From sector k of the file on, but for cc sectors of the volume from sect on, seen is
      the volume st. */
  ghost predicate SeenApart(g: Geometry, ch: seq<nat>, seen: seq<Sector>, st: seq<Sector>, k: nat, sect: nat, cc: nat) {
    && |seen| == |st|
    && forall j :: Covers(g, ch, j) && k <= j && SectorNo(g, ch, j) < |st| ==>
      var s := SectorNo(g, ch, j);
      sect <= s < sect + cc || seen[s] == st[s]
  }

  // ----- one turn of the transfer loop, on values

  /** Sectors s .. s+cc of the volume, if the cursor is in sector k with at least cc
      sectors left, are sectors k .. k+cc of the file. */
  lemma RunOfSectors(g: Geometry, ch: seq<nat>, k: nat, clust: nat, sect: nat, left: nat, i: nat)
    requires Clusters(g, ch) && AtSector(g, ch, k, clust, sect, left) && i < left
    ensures Covers(g, ch, k + i) && SectorNo(g, ch, k + i) == sect + i
    ensures InChain(g, ch, sect + i) && g.database <= sect + i < g.End()
    ensures AtSector(g, ch, k + i, clust, sect + i, left - i)
  {
    SameCluster(g, ch, k, i);
    SectorInChain(g, ch, k + i);
  }

  lemma WholeRun(g: Geometry, ch: seq<nat>, k: nat, clust: nat, sect: nat, left: nat, cc: nat)
    requires Clusters(g, ch) && AtSector(g, ch, k, clust, sect, left) && 1 <= cc <= left
    ensures left <= 128 && g.database <= sect && sect + cc <= g.End() && ch != []
    ensures AtSector(g, ch, k + cc - 1, clust, sect + (cc - 1), left - (cc - 1))
    ensures forall s :: sect <= s < sect + cc ==> InChain(g, ch, s)
  {
    hide SectorNo, InChain, Geometry.Clust2Sect;
    LeftInCluster(g, ch, k, clust, sect, left);
    RunOfSectors(g, ch, k, clust, sect, left, 0);
    RunOfSectors(g, ch, k, clust, sect, left, cc - 1);
    forall s | sect <= s < sect + cc
      ensures InChain(g, ch, s)
    {
      RunOfSectors(g, ch, k, clust, sect, left, s - sect);
    }
  }

  /** A sector of the file outside the run is outside the run on the volume. */
  lemma OutsideRun(g: Geometry, ch: seq<nat>, k: nat, clust: nat, sect: nat, left: nat, cc: nat, j: int)
    requires Clusters(g, ch) && AtSector(g, ch, k, clust, sect, left) && cc <= left
    requires Covers(g, ch, j) && !(k <= j < k + cc)
    ensures !(sect <= SectorNo(g, ch, j) < sect + cc)
  {
    var i := SectorNo(g, ch, j) - sect;
    if 0 <= i < cc {
      RunOfSectors(g, ch, k, clust, sect, left, i);
      SectorInjective(g, ch, j, k + i);
    }
  }

  /** Sectors s .. s+cc now hold the buffer's bytes from done on; no other sector has
      changed. */
  ghost predicate RunWritten(st: seq<Sector>, st': seq<Sector>, buf: seq<Byte>, done: nat, sect: nat, cc: nat)
    requires done + 512 * cc <= |buf|
  {
    && |st'| == |st|
    && (forall s :: sect <= s < sect + cc && s < |st'| ==>
      st'[s] == buf[done + 512 * (s - sect)..done + 512 * (s - sect) + 512])
    && (forall s :: 0 <= s < |st| && !(sect <= s < sect + cc) ==> st'[s] == st[s])
  }

  lemma LandedStep(g: Geometry, ch: seq<nat>, st0: seq<Sector>, st: seq<Sector>, st': seq<Sector>, buf: seq<Byte>,
          p: nat, done: nat, k: nat, clust: nat, sect: nat, left: nat, cc: nat)
    requires Clusters(g, ch) && AtSector(g, ch, k, clust, sect, left) && 1 <= cc <= left
    requires p + done == 512 * k && done + 512 * cc <= |buf|
    requires Landed(g, ch, st0, st, buf, p, done, true) && RunWritten(st, st', buf, done, sect, cc)
    ensures Landed(g, ch, st0, st', buf, p, done + 512 * cc, true)
  {
    hide AtSector, InChain, SectorNo, Covers;
    forall j | Covers(g, ch, j) && SectorNo(g, ch, j) < |st'|
      ensures st'[SectorNo(g, ch, j)] ==
              if Full(p, done + 512 * cc, j) then buf[512 * j - p..512 * j - p + 512] else st0[SectorNo(g, ch, j)]
    {
      LandedAt(g, ch, st0, st, st', buf, p, done, k, clust, sect, left, cc, j);
    }
    forall s | 0 <= s < |st'| && !InChain(g, ch, s)
      ensures st'[s] == st0[s]
    {
      if sect <= s < sect + cc {
        RunOfSectors(g, ch, k, clust, sect, left, s - sect);
      }
    }
  }

  lemma LandedAt(g: Geometry, ch: seq<nat>, st0: seq<Sector>, st: seq<Sector>, st': seq<Sector>, buf: seq<Byte>, p: nat,
          done: nat, k: nat, clust: nat, sect: nat, left: nat, cc: nat, j: int)
    requires Clusters(g, ch) && AtSector(g, ch, k, clust, sect, left) && 1 <= cc <= left
    requires p + done == 512 * k && done + 512 * cc <= |buf|
    requires Landed(g, ch, st0, st, buf, p, done, true) && RunWritten(st, st', buf, done, sect, cc)
    requires Covers(g, ch, j) && SectorNo(g, ch, j) < |st'|
    ensures st'[SectorNo(g, ch, j)] ==
            if Full(p, done + 512 * cc, j) then buf[512 * j - p..512 * j - p + 512] else st0[SectorNo(g, ch, j)]
  {
    hide AtSector, InChain, SectorNo, Covers;
    if k <= j < k + cc {
      RunOfSectors(g, ch, k, clust, sect, left, j - k);
      assert done + 512 * (j - k) == 512 * j - p;
    } else {
      OutsideRun(g, ch, k, clust, sect, left, cc, j);
      assert Full(p, done + 512 * cc, j) == Full(p, done, j);
    }
  }

  /** Only the buffer's bytes from done on matter to the run written next. */
  lemma SameRun(st: seq<Sector>, st': seq<Sector>, buf: seq<Byte>, buf': seq<Byte>, done: nat, sect: nat, cc: nat)
    requires |buf'| == |buf| && done + 512 * cc <= |buf|
    requires forall i :: done <= i < |buf| ==> buf'[i] == buf[i]
    requires RunWritten(st, st', buf, done, sect, cc)
    ensures RunWritten(st, st', buf', done, sect, cc)
  {
    forall s | sect <= s < sect + cc && s < |st'|
      ensures st'[s] == buf'[done + 512 * (s - sect)..done + 512 * (s - sect) + 512]
    {
      var a := done + 512 * (s - sect);
      assert buf'[a..a + 512] == buf[a..a + 512];
    }
  }

  /** Writing whole sectors leaves the buffer as it is. */
  lemma FilledSkip(data: seq<Byte>, p: nat, n: nat, buf: seq<Byte>, done: nat, cnt: nat)
    requires p + done + cnt <= |data| && done + cnt <= n <= |buf|
    requires (p + done) % 512 == 0 && cnt % 512 == 0
    ensures Filled(data, p, n, true, buf, done + cnt) == Filled(data, p, n, true, buf, done)
  {
    forall i | done <= i < done + cnt
      ensures FullAt(p, n, i)
    {
      SectorOfByte(p + done, i - done, cnt);
    }
  }

  lemma SectorOfByte(a: nat, i: nat, cnt: nat)
    requires a % 512 == 0 && cnt % 512 == 0 && i < cnt
    ensures a <= 512 * ((a + i) / 512) && 512 * ((a + i) / 512) + 512 <= a + cnt
    ensures (a + i) / 512 == a / 512 + i / 512 && (a + i) % 512 == i % 512
  {
  }

  lemma FilledStep(data: seq<Byte>, p: nat, n: nat, wr: bool, buf: seq<Byte>, before: seq<Byte>, after: seq<Byte>,
          done: nat, cnt: nat)
    requires p + done + cnt <= |data| && done + cnt <= |buf|
    requires before == Filled(data, p, n, wr, buf, done) && |after| == |before|
    requires forall i :: done <= i < done + cnt ==> after[i] == data[p + i] && !(wr && FullAt(p, n, i))
    requires forall i :: 0 <= i < |after| && !(done <= i < done + cnt) ==> after[i] == before[i]
    ensures after == Filled(data, p, n, wr, buf, done + cnt)
  {
  }

  /** Bytes of a file read off the sectors of a run. */
  lemma ContentOfRun(g: Geometry, st: seq<Sector>, ch: seq<nat>, size: nat, k: nat, clust: nat, sect: nat, left: nat,
          x: nat)
    requires Big(g, st) && Clusters(g, ch) && Holds(g, ch, size)
    requires AtSector(g, ch, k, clust, sect, left) && x / 512 < left && 512 * k + x < size
    ensures sect + x / 512 < |st| && Content(g, st, ch, size)[512 * k + x] == st[sect + x / 512][x % 512]
  {
    RunOfSectors(g, ch, k, clust, sect, left, x / 512);
    assert (512 * k + x) / 512 == k + x / 512 && (512 * k + x) % 512 == x % 512;
  }

  /** A sector moved in part still holds what the file held at the start. */
  lemma PieceUnchanged(g: Geometry, ch: seq<nat>, st0: seq<Sector>, st: seq<Sector>, buf: seq<Byte>, p: nat, n: nat,
          done: nat, wr: bool, k: nat, clust: nat, sect: nat, left: nat)
    requires Big(g, st0) && Clusters(g, ch) && done <= n <= |buf|
    requires Landed(g, ch, st0, st, buf, p, done, wr) && !Full(p, n, k) && AtSector(g, ch, k, clust, sect, left)
    ensures sect < |st| == |st0| && st[sect] == st0[sect]
  {
    SectorInChain(g, ch, k);
  }

  /** Bytes moved through the window belong to no whole sector of the transfer. */
  lemma PieceNotFull(p: nat, n: nat, br: nat, cnt: nat, i: nat)
    requires br <= i < br + cnt <= n && (p + br) % 512 + cnt <= 512
    requires (p + br) % 512 == 0 ==> n - br < 512
    requires (p + br) % 512 != 0 ==> br == 0
    ensures (p + i) / 512 == (p + br) / 512 && (p + i) % 512 == (p + br) % 512 + (i - br)
    ensures !FullAt(p, n, i) && !Full(p, n, (p + br) / 512)
  {
    DivMod512(p + i, (p + br) / 512, (p + br) % 512 + (i - br));
  }

  lemma LandedPiece(g: Geometry, ch: seq<nat>, st0: seq<Sector>, st: seq<Sector>, buf: seq<Byte>, p: nat, done: nat,
          cnt: nat, wr: bool)
    requires done + cnt <= |buf| && (p + done) % 512 + cnt <= 512 && Landed(g, ch, st0, st, buf, p, done, wr)
    requires (p + done) % 512 == 0 ==> cnt < 512
    requires (p + done) % 512 != 0 ==> done == 0
    ensures Landed(g, ch, st0, st, buf, p, done + cnt, wr)
  {
    hide Covers, SectorNo, SameOutside, Full;
    forall k | Covers(g, ch, k)
      ensures Full(p, done + cnt, k) == Full(p, done, k)
    {
      FullAsBefore(p, done, cnt, k);
    }
  }

  lemma FullAsBefore(p: nat, done: nat, cnt: nat, k: int)
    requires (p + done) % 512 + cnt <= 512
    requires (p + done) % 512 == 0 ==> cnt < 512
    requires (p + done) % 512 != 0 ==> done == 0
    ensures Full(p, done + cnt, k) == Full(p, done, k)
  {
    var q, r := (p + done) / 512, (p + done) % 512;
    assert p + done == 512 * q + r;
  }

  /** One turn that moves part of a sector through the window. */
  lemma PieceStep(g: Geometry, st0: seq<Sector>, seen: seq<Sector>, st: seq<Sector>, ch: seq<nat>, data: seq<Byte>,
          buf0: seq<Byte>, p: nat, n: nat, br: nat, cnt: nat, wr: bool, clust: nat, sect: nat, left: nat,
          before: seq<Byte>, after: seq<Byte>)
    requires Big(g, seen) && Clusters(g, ch) && Holds(g, ch, |data|) && data == Content(g, seen, ch, |data|)
    requires br + cnt <= n <= |buf0| && p + n <= |data| && Landed(g, ch, st0, st, buf0, p, br, wr)
    requires AtSector(g, ch, (p + br) / 512, clust, sect, left) && sect < |st| == |seen| && seen[sect] == st[sect]
    requires (p + br) % 512 + cnt <= 512 && 0 < cnt
    requires (p + br) % 512 == 0 ==> n - br < 512
    requires (p + br) % 512 != 0 ==> br == 0
    requires before == Filled(data, p, n, wr, buf0, br) && |after| == |before|
    requires forall i :: br <= i < br + cnt ==> after[i] == st[sect][(p + br) % 512 + (i - br)]
    requires forall i :: 0 <= i < |after| && !(br <= i < br + cnt) ==> after[i] == before[i]
    ensures after == Filled(data, p, n, wr, buf0, br + cnt)
    ensures Landed(g, ch, st0, st, buf0, p, br + cnt, wr)
    ensures !Full(p, n, (p + br) / 512)
  {
    hide AtSector, Landed, Filled, Content;
    PieceNotFull(p, n, br, cnt, br);
    forall i | br <= i < br + cnt
      ensures after[i] == data[p + i] && !FullAt(p, n, i)
    {
      PieceNotFull(p, n, br, cnt, i);
      LeftInCluster(g, ch, (p + br) / 512, clust, sect, left);
      ContentOfRun(g, seen, ch, |data|, (p + br) / 512, clust, sect, left, (p + br) % 512 + (i - br));
    }
    FilledStep(data, p, n, wr, buf0, before, after, br, cnt);
    LandedPiece(g, ch, st0, st, buf0, p, br, cnt, wr);
  }

  lemma NothingYet(g: Geometry, ch: seq<nat>, st: seq<Sector>, data: seq<Byte>, buf: seq<Byte>, p: nat, n: nat,
          wr: bool)
    requires p <= |data|
    ensures Landed(g, ch, st, st, buf, p, 0, wr) && Filled(data, p, n, wr, buf, 0) == buf
  {
  }

  lemma LandedOutside(g: Geometry, ch: seq<nat>, st0: seq<Sector>, st: seq<Sector>, buf: seq<Byte>, p: nat, done: nat)
    requires done <= |buf| && Landed(g, ch, st0, st, buf, p, done, true)
    ensures SameOutside(g, ch, st0, st)
  {
  }

  lemma LandedRead(g: Geometry, ch: seq<nat>, st0: seq<Sector>, st: seq<Sector>, buf: seq<Byte>, p: nat, done: nat,
          done': nat)
    requires done <= |buf| && done' <= |buf| && Landed(g, ch, st0, st, buf, p, done, false)
    ensures Landed(g, ch, st0, st, buf, p, done', false)
  {
  }

  lemma FilledTail(data: seq<Byte>, p: nat, n: nat, wr: bool, buf: seq<Byte>, done: nat)
    requires p + done <= |data| && done <= |buf|
    ensures forall i :: done <= i < |buf| ==> Filled(data, p, n, wr, buf, done)[i] == buf[i]
  {
  }

  /** The file pointer inside or after sector k. */
  lemma SectorOf(a: nat, cnt: nat)
    requires 0 < cnt && (a % 512 + cnt <= 512 || (a % 512 == 0 && cnt % 512 == 0))
    ensures a == 512 * (a / 512) + a % 512
    ensures cnt % 512 == 0 && a % 512 == 0 ==> (a + cnt - 1) / 512 == a / 512 + cnt / 512 - 1
    ensures a % 512 + cnt <= 512 ==> (a + cnt - 1) / 512 == a / 512
    ensures a % 512 != 0 ==> (a - 1) / 512 == a / 512
  {
  }

  // ----- the cursor moves

  lemma LeftInCluster(g: Geometry, ch: seq<nat>, k: int, clust: nat, sect: nat, left: nat)
    requires AtSector(g, ch, k, clust, sect, left)
    ensures Covers(g, ch, k) && 1 <= left <= g.sectsClust <= 128 && ch != []
  {
  }

  lemma StepWithin(g: Geometry, ch: seq<nat>, k: nat, clust: nat, sect: nat, left: nat)
    requires AtSector(g, ch, k, clust, sect, left) && left > 1
    ensures AtSector(g, ch, k + 1, clust, sect + 1, left - 1)
  {
    SameCluster(g, ch, k, 1);
  }

  lemma StepAcross(g: Geometry, fat: seq<nat>, ch: seq<nat>, k: nat, clust: nat, sect: nat)
    requires g.Valid() && |fat| == g.maxClust && IsChain(fat, ch) && Covers(g, ch, k + 1)
    requires AtSector(g, ch, k, clust, sect, 1)
    ensures g.IsCluster(clust) && g.IsCluster(fat[clust])
    ensures AtSector(g, ch, k + 1, fat[clust], g.Clust2Sect(fat[clust]), g.sectsClust)
  {
    QuotNext(k, g.sectsClust);
    assert fat[ch[Quot(k, g.sectsClust)]] == ch[Quot(k, g.sectsClust) + 1];
  }

  lemma StepFirst(g: Geometry, fat: seq<nat>, ch: seq<nat>)
    requires g.Valid() && |fat| == g.maxClust && IsChain(fat, ch)
    ensures g.IsCluster(ch[0])
    ensures AtSector(g, ch, 0, ch[0], g.Clust2Sect(ch[0]), g.sectsClust)
  {
  }

  // ----- writing through the allocator

  function Max(a: nat, b: nat): nat { if a >= b then a else b }

  /** The bytes of a file after done bytes of buf have been put at position p. */
  ghost function Overwritten(data: seq<Byte>, p: nat, buf: seq<Byte>, done: nat): (r: seq<Byte>)
    requires p <= |data| && done <= |buf|
    ensures |r| == Max(|data|, p + done)
  {
    seq(Max(|data|, p + done), j requires 0 <= j < Max(|data|, p + done) =>
      if p <= j < p + done then buf[j - p] else data[j])
  }

  lemma OverwrittenIsSplice(data: seq<Byte>, p: nat, buf: seq<Byte>, done: nat)
    requires p <= |data| && done <= |buf|
    ensures Overwritten(data, p, buf, done) ==
            data[..p] + buf[..done] + if p + done <= |data| then data[p + done..] else []
  {
  }

  /** A longer chain holds the same bytes. */
  lemma ContentOfLonger(g: Geometry, st: seq<Sector>, ch: seq<nat>, ch': seq<nat>, n: nat)
    requires Big(g, st) && Clusters(g, ch) && Clusters(g, ch') && ch <= ch' && Holds(g, ch, n)
    ensures Holds(g, ch', n) && Content(g, st, ch', n) == Content(g, st, ch, n)
  {
    forall j | 0 <= j < n
      ensures Covers(g, ch, j / 512) && Covers(g, ch', j / 512) && SectorNo(g, ch', j / 512) == SectorNo(g, ch, j / 512)
    {
      HoldsLess(g, ch, n, j);
    }
    if n > 0 {
      HoldsLess(g, ch, n, n - 1);
    }
  }

  lemma HoldsRun(g: Geometry, ch: seq<nat>, size: nat, k: nat, clust: nat, sect: nat, left: nat, cnt: nat, size': nat)
    requires Clusters(g, ch) && AtSector(g, ch, k, clust, sect, left) && Holds(g, ch, size)
    requires cnt <= 512 * left && size' <= Max(size, 512 * k + cnt)
    ensures Holds(g, ch, size')
  {
    if size' > 0 {
      var j := (size' - 1) / 512;
      if size' <= size {
        HoldsLess(g, ch, size, size' - 1);
      } else if j <= k {
        LeftInCluster(g, ch, k, clust, sect, left);
        CoversLess(g, ch, k, j);
      } else {
        RunOfSectors(g, ch, k, clust, sect, left, j - k);
      }
    }
  }

  /** One turn of f_write that writes whole sectors past the window. */
  lemma OverwriteRun(g: Geometry, st: seq<Sector>, st': seq<Sector>, ch: seq<nat>, data: seq<Byte>, p: nat,
          buf: seq<Byte>, done: nat, k: nat, clust: nat, sect: nat, left: nat, cc: nat)
    requires Big(g, st) && Clusters(g, ch) && AtSector(g, ch, k, clust, sect, left) && 1 <= cc <= left
    requires p <= |data| && p + done == 512 * k && done + 512 * cc <= |buf|
    requires Holds(g, ch, Max(|data|, p + done))
    requires Content(g, st, ch, Max(|data|, p + done)) == Overwritten(data, p, buf, done)
    requires RunWritten(st, st', buf, done, sect, cc)
    ensures Holds(g, ch, Max(|data|, p + done + 512 * cc))
    ensures Content(g, st', ch, Max(|data|, p + done + 512 * cc)) == Overwritten(data, p, buf, done + 512 * cc)
  {
    var size, size' := Max(|data|, p + done), Max(|data|, p + done + 512 * cc);
    HoldsRun(g, ch, size, k, clust, sect, left, 512 * cc, size');
    forall j | 0 <= j < size'
      ensures Content(g, st', ch, size')[j] == Overwritten(data, p, buf, done + 512 * cc)[j]
    {
      OverwriteRunAt(g, st, st', ch, data, p, buf, done, k, clust, sect, left, cc, j);
    }
  }

  lemma OverwriteRunAt(g: Geometry, st: seq<Sector>, st': seq<Sector>, ch: seq<nat>, data: seq<Byte>, p: nat,
          buf: seq<Byte>, done: nat, k: nat, clust: nat, sect: nat, left: nat, cc: nat, j: nat)
    requires Big(g, st) && Clusters(g, ch) && AtSector(g, ch, k, clust, sect, left) && 1 <= cc <= left
    requires p <= |data| && p + done == 512 * k && done + 512 * cc <= |buf|
    requires Holds(g, ch, Max(|data|, p + done)) && Holds(g, ch, Max(|data|, p + done + 512 * cc))
    requires Content(g, st, ch, Max(|data|, p + done)) == Overwritten(data, p, buf, done)
    requires RunWritten(st, st', buf, done, sect, cc) && j < Max(|data|, p + done + 512 * cc)
    ensures Content(g, st', ch, Max(|data|, p + done + 512 * cc))[j] == Overwritten(data, p, buf, done + 512 * cc)[j]
  {
    hide AtSector, SectorNo, Holds;
    var size, size' := Max(|data|, p + done), Max(|data|, p + done + 512 * cc);
    if 512 * k <= j < 512 * k + 512 * cc {
      var x := j - 512 * k;
      ContentOfRun(g, st', ch, size', k, clust, sect, left, x);
      BlockByte(buf, done, x);
    } else {
      HoldsLess(g, ch, size', j);
      SectorInChain(g, ch, j / 512);
      OutsideRun(g, ch, k, clust, sect, left, cc, j / 512);
      assert Content(g, st', ch, size')[j] == ByteAt(g, st', ch, size', j);
      assert ByteAt(g, st, ch, size, j) == Content(g, st, ch, size)[j];
    }
  }

  lemma BlockByte(buf: seq<Byte>, done: nat, x: nat)
    requires done + x / 512 * 512 + 512 <= |buf|
    ensures buf[done + 512 * (x / 512)..done + 512 * (x / 512) + 512][x % 512] == buf[done + x]
  {
  }

  /** One turn of f_write that puts part of a sector in the window. */
  lemma OverwritePiece(g: Geometry, st: seq<Sector>, st': seq<Sector>, ch: seq<nat>, data: seq<Byte>, p: nat,
          buf: seq<Byte>, done: nat, clust: nat, sect: nat, left: nat, cnt: nat, isNew: bool)
    requires Big(g, st) && Clusters(g, ch) && AtSector(g, ch, (p + done) / 512, clust, sect, left)
    requires p <= |data| && 0 < cnt && done + cnt <= |buf| && (p + done) % 512 + cnt <= 512
    requires isNew ==> (p + done) % 512 == 0 && p + done >= |data|
    requires Holds(g, ch, Max(|data|, p + done))
    requires Content(g, st, ch, Max(|data|, p + done)) == Overwritten(data, p, buf, done)
    requires |st'| == |st| && sect < |st| && forall s :: 0 <= s < |st| && s != sect ==> st'[s] == st[s]
    requires forall i :: (p + done) % 512 <= i < (p + done) % 512 + cnt ==>
      st'[sect][i] == buf[done + (i - (p + done) % 512)]
    requires !isNew ==>
      forall i :: 0 <= i < 512 && !((p + done) % 512 <= i < (p + done) % 512 + cnt) ==> st'[sect][i] == st[sect][i]
    ensures Holds(g, ch, Max(|data|, p + done + cnt))
    ensures Content(g, st', ch, Max(|data|, p + done + cnt)) == Overwritten(data, p, buf, done + cnt)
  {
    hide AtSector, SectorNo, Holds, Content;
    var size, size', k, off := Max(|data|, p + done), Max(|data|, p + done + cnt), (p + done) / 512, (p + done) % 512;
    LeftInCluster(g, ch, k, clust, sect, left);
    HoldsRun(g, ch, size, k, clust, sect, left, off + cnt, size');
    forall j | 0 <= j < size'
      ensures Content(g, st', ch, size')[j] == Overwritten(data, p, buf, done + cnt)[j]
    {
      HoldsLess(g, ch, size', j);
      if j / 512 == k {
        ContentOfRun(g, st', ch, size', k, clust, sect, left, j % 512);
        if j < size {
          ContentOfRun(g, st, ch, size, k, clust, sect, left, j % 512);
        }
      } else {
        OutsideRun(g, ch, k, clust, sect, left, 1, j / 512);
        SameContent(g, st, st', ch, size, size', sect, j);
      }
    }
  }

  /** A byte of the file that lies outside the only changed sector. */
  lemma SameContent(g: Geometry, st: seq<Sector>, st': seq<Sector>, ch: seq<nat>, size: nat, size': nat, sect: nat,
          j: nat)
    requires Big(g, st) && Clusters(g, ch) && Holds(g, ch, size) && Holds(g, ch, size') && j < size && j < size'
    requires |st'| == |st| && forall s :: 0 <= s < |st| && s != sect ==> st'[s] == st[s]
    requires Covers(g, ch, j / 512) && SectorNo(g, ch, j / 512) != sect
    ensures Content(g, st', ch, size')[j] == Content(g, st, ch, size)[j]
  {
    SectorInChain(g, ch, j / 512);
    assert Content(g, st', ch, size')[j] == ByteAt(g, st', ch, size', j);
    assert Content(g, st, ch, size)[j] == ByteAt(g, st, ch, size, j);
  }

  // ----- the chain of a file under allocation

  /** Giving a file one more cluster leaves it a file, of any size it already had. */
  lemma GrowFile(g: Geometry, fat: seq<nat>, org: nat, ch: seq<nat>, size: nat, n: nat, mark: nat)
    requires IsFile(g, fat, org, ch, size) && WellFormed(fat) && IsCluster(fat, n) && fat[n] == 0 && mark >= |fat|
    ensures var fat' := if ch == [] then Started(fat, n, mark) else Stretched(fat, ch[|ch| - 1], n, mark);
            && IsFile(g, fat', if ch == [] then n else org, ch + [n], size)
            && WellFormed(fat') && Extends(fat, fat', ch, ch + [n])
  {
    hide WellFormed, Extends;
    ExtendOne(fat, ch, n, mark);
    var fat' := if ch == [] then Started(fat, n, mark) else Stretched(fat, ch[|ch| - 1], n, mark);
    ChainDistinct(fat', ch + [n]);
    assert Clusters(g, ch + [n]);
  }

  lemma ExtendsSelf(g: Geometry, fat: seq<nat>, ch: seq<nat>)
    requires Clusters(g, ch)
    ensures Extends(fat, fat, ch, ch)
  {
  }

  /** The cursor in a chain is the cursor in a longer one. */
  lemma AtLonger(g: Geometry, ch: seq<nat>, ch': seq<nat>, k: int, clust: nat, sect: nat, left: nat)
    requires AtSector(g, ch, k, clust, sect, left) && ch <= ch'
    ensures AtSector(g, ch', k, clust, sect, left)
  {
  }

  /** At the last sector of a cluster, the next sector needs the next cluster. */
  lemma NextCovered(g: Geometry, ch: seq<nat>, k: nat, clust: nat, sect: nat)
    requires AtSector(g, ch, k, clust, sect, 1)
    ensures clust in ch && Quot(k, g.sectsClust) < |ch|
    ensures Covers(g, ch, k + 1) <==> Quot(k, g.sectsClust) + 1 < |ch|
  {
    QuotNext(k, g.sectsClust);
  }

  /** The cluster of the cursor is the last of the chain, or links to the next. */
  lemma LastOrNot(g: Geometry, fat: seq<nat>, ch: seq<nat>, k: nat, clust: nat, sect: nat)
    requires g.Valid() && |fat| == g.maxClust && IsChain(fat, ch) && AtSector(g, ch, k, clust, sect, 1)
    ensures g.IsCluster(clust) && fat[clust] >= 2 && clust != 0
    ensures if Covers(g, ch, k + 1) then IsCluster(fat, fat[clust])
            else clust == ch[|ch| - 1] && fat[clust] >= g.maxClust
  {
    QuotNext(k, g.sectsClust);
    var q := Quot(k, g.sectsClust);
    if q + 1 < |ch| {
      assert fat[ch[q]] == ch[q + 1];
    }
  }

  lemma FirstCluster(g: Geometry, fat: seq<nat>, org: nat, ch: seq<nat>, size: nat)
    requires IsFile(g, fat, org, ch, size)
    ensures Clusters(g, ch) && ChainOrNone(fat, ch) && |fat| == g.maxClust && Holds(g, ch, size)
    ensures if org == 0 then ch == [] else ch != [] && ch[0] == org && g.IsCluster(org)
  {
  }

  /** A store changed outside a longer chain only is changed outside the chain only. */
  lemma SameOutsideLonger(g: Geometry, ch: seq<nat>, ch': seq<nat>, st0: seq<Sector>, st: seq<Sector>)
    requires SameOutside(g, ch, st0, st) && ch <= ch'
    ensures SameOutside(g, ch', st0, st)
  {
    forall c | c in ch
      ensures c in ch'
    {
      var i :| 0 <= i < |ch| && ch[i] == c;
      assert ch'[i] == c;
    }
  }

  /** A window outside the data area is clear of every transfer. */
  lemma ClearOfData(g: Geometry, ch: seq<nat>, p: nat, n: nat, w: nat)
    requires Clusters(g, ch) && w < g.database
    ensures ClearOf(g, ch, p, n, w)
  {
    forall k | Covers(g, ch, k)
      ensures SectorNo(g, ch, k) != w
    {
      SectorInChain(g, ch, k);
    }
  }

  lemma SameOutsideRun(g: Geometry, ch: seq<nat>, st0: seq<Sector>, st: seq<Sector>, st': seq<Sector>)
    requires SameOutside(g, ch, st0, st) && SameOutside(g, ch, st, st')
    ensures SameOutside(g, ch, st0, st')
  {
  }

  lemma NothingCovered(g: Geometry, k: int)
    ensures !Covers(g, [], k)
  {
  }

  lemma RunIsWritten(st: seq<Sector>, st': seq<Sector>, buf: seq<Byte>, done: nat, sect: nat, cc: nat)
    requires done + 512 * cc <= |buf| && |st'| == |st| && sect + cc <= |st|
    requires forall i :: 0 <= i < cc ==> st'[sect + i] == buf[done + 512 * i..done + 512 * i + 512]
    requires forall s :: 0 <= s < |st| && !(sect <= s < sect + cc) ==> st'[s] == st[s]
    ensures RunWritten(st, st', buf, done, sect, cc)
  {
    forall s | sect <= s < sect + cc
      ensures st'[s] == buf[done + 512 * (s - sect)..done + 512 * (s - sect) + 512]
    {
      assert st'[sect + (s - sect)] == st'[s];
    }
  }

  lemma OutsideOfRun(g: Geometry, ch: seq<nat>, st: seq<Sector>, st': seq<Sector>, sect: nat, cc: nat)
    requires |st'| == |st| && forall s :: 0 <= s < |st| && !(sect <= s < sect + cc) ==> st'[s] == st[s]
    requires forall s :: sect <= s < sect + cc ==> InChain(g, ch, s)
    ensures SameOutside(g, ch, st, st')
  {
  }

  lemma FileUpTo(g: Geometry, fat: seq<nat>, org: nat, ch: seq<nat>, size: nat, size': nat)
    requires IsFile(g, fat, org, ch, size) && ch != [] && Holds(g, ch, size')
    ensures IsFile(g, fat, org, ch, size')
  {
  }

  /** Everything one turn of f_write does when it writes cc whole sectors. */
  lemma WholeWritten(g: Geometry, fat: seq<nat>, org: nat, ch: seq<nat>, st0: seq<Sector>, st: seq<Sector>,
          st': seq<Sector>, data: seq<Byte>, p: nat, buf: seq<Byte>, done: nat, clust: nat, sect: nat, left: nat,
          cc: nat)
    requires Big(g, st) && p <= |data| && done + 512 * cc <= |buf| && (p + done) % 512 == 0 && 1 <= cc <= left
    requires IsFile(g, fat, org, ch, Max(|data|, p + done)) && AtSector(g, ch, (p + done) / 512, clust, sect, left)
    requires SameOutside(g, ch, st0, st)
    requires Holds(g, ch, Max(|data|, p + done))
    requires Content(g, st, ch, Max(|data|, p + done)) == Overwritten(data, p, buf, done)
    requires RunWritten(st, st', buf, done, sect, cc) && SameOutside(g, ch, st, st')
    ensures var done' := done + 512 * cc;
            && IsFile(g, fat, org, ch, Max(|data|, p + done')) && Holds(g, ch, Max(|data|, p + done'))
            && SameOutside(g, ch, st0, st')
            && Content(g, st', ch, Max(|data|, p + done')) == Overwritten(data, p, buf, done')
            && AtSector(g, ch, (p + done' - 1) / 512, clust, sect + (cc - 1), left - (cc - 1))
  {
    hide AtSector, Content, InChain, RunWritten, SameOutside, IsFile, Overwritten;
    FirstCluster(g, fat, org, ch, Max(|data|, p + done));
    WholeRun(g, ch, (p + done) / 512, clust, sect, left, cc);
    SameOutsideRun(g, ch, st0, st, st');
    SectorOf(p + done, 512 * cc);
    OverwriteRun(g, st, st', ch, data, p, buf, done, (p + done) / 512, clust, sect, left, cc);
    FileUpTo(g, fat, org, ch, Max(|data|, p + done), Max(|data|, p + done + 512 * cc));
  }

  /** Everything one turn of f_write does when it writes part of a sector. */
  lemma PieceWritten(g: Geometry, fat: seq<nat>, org: nat, ch: seq<nat>, st0: seq<Sector>, st: seq<Sector>,
          st': seq<Sector>, data: seq<Byte>, p: nat, buf: seq<Byte>, done: nat, clust: nat, sect: nat, left: nat,
          cnt: nat, isNew: bool)
    requires Big(g, st) && p <= |data| && 0 < cnt && done + cnt <= |buf| && (p + done) % 512 + cnt <= 512
    requires isNew ==> (p + done) % 512 == 0 && p + done >= |data|
    requires IsFile(g, fat, org, ch, Max(|data|, p + done)) && AtSector(g, ch, (p + done) / 512, clust, sect, left)
    requires SameOutside(g, ch, st0, st)
    requires Holds(g, ch, Max(|data|, p + done))
    requires Content(g, st, ch, Max(|data|, p + done)) == Overwritten(data, p, buf, done)
    requires |st'| == |st| && sect < |st| && forall s :: 0 <= s < |st| && s != sect ==> st'[s] == st[s]
    requires forall i :: (p + done) % 512 <= i < (p + done) % 512 + cnt ==>
      st'[sect][i] == buf[done + (i - (p + done) % 512)]
    requires !isNew ==>
      forall i :: 0 <= i < 512 && !((p + done) % 512 <= i < (p + done) % 512 + cnt) ==> st'[sect][i] == st[sect][i]
    ensures var done' := done + cnt;
            && IsFile(g, fat, org, ch, Max(|data|, p + done')) && Holds(g, ch, Max(|data|, p + done'))
            && SameOutside(g, ch, st0, st')
            && Content(g, st', ch, Max(|data|, p + done')) == Overwritten(data, p, buf, done')
            && AtSector(g, ch, (p + done' - 1) / 512, clust, sect, left)
  {
    hide AtSector, Content, InChain, RunWritten, SameOutside, IsFile, Overwritten;
    FirstCluster(g, fat, org, ch, Max(|data|, p + done));
    LeftInCluster(g, ch, (p + done) / 512, clust, sect, left);
    WholeRun(g, ch, (p + done) / 512, clust, sect, left, 1);
    OutsideOfRun(g, ch, st, st', sect, 1);
    SameOutsideRun(g, ch, st0, st, st');
    SectorOf(p + done, cnt);
    OverwritePiece(g, st, st', ch, data, p, buf, done, clust, sect, left, cnt, isNew);
    FileUpTo(g, fat, org, ch, Max(|data|, p + done), Max(|data|, p + done + cnt));
  }

  /** No sector of the file that starts at or after byte a is sector w of the volume. */
  ghost predicate AheadOf(g: Geometry, ch: seq<nat>, a: nat, w: nat) {
    forall k :: Covers(g, ch, k) && a <= 512 * k ==> SectorNo(g, ch, k) != w
  }

  lemma AheadLater(g: Geometry, ch: seq<nat>, a: nat, b: nat, w: nat)
    requires AheadOf(g, ch, a, w) && a <= b
    ensures AheadOf(g, ch, b, w)
  {
  }

  lemma AheadOfData(g: Geometry, ch: seq<nat>, a: nat, w: nat)
    requires Clusters(g, ch) && w < g.database
    ensures AheadOf(g, ch, a, w)
  {
    forall k | Covers(g, ch, k)
      ensures SectorNo(g, ch, k) != w
    {
      SectorInChain(g, ch, k);
    }
  }

  lemma AheadOfPiece(g: Geometry, ch: seq<nat>, a: nat, clust: nat, sect: nat, left: nat)
    requires Clusters(g, ch) && a > 0 && AtSector(g, ch, (a - 1) / 512, clust, sect, left)
    ensures AheadOf(g, ch, a, sect)
  {
    forall k | Covers(g, ch, k) && a <= 512 * k
      ensures SectorNo(g, ch, k) != sect
    {
      if SectorNo(g, ch, k) == sect {
        SectorInjective(g, ch, k, (a - 1) / 512);
      }
    }
  }

  lemma AheadIsClear(g: Geometry, ch: seq<nat>, a: nat, n: nat, w: nat)
    requires AheadOf(g, ch, a, w)
    ensures ClearOf(g, ch, a, n, w)
  {
  }

  lemma SameOutsideSelf(g: Geometry, ch: seq<nat>, st: seq<Sector>)
    ensures SameOutside(g, ch, st, st)
  {
  }

  lemma OverwrittenNone(data: seq<Byte>, p: nat, buf: seq<Byte>)
    requires p <= |data|
    ensures Overwritten(data, p, buf, 0) == data
  {
  }

  // ----- seeking

  /** How many clusters a file of n bytes needs. */
  ghost function Needed(g: Geometry, n: nat): nat
    requires g.Valid()
  {
    if n == 0 then 0 else Quot((n - 1) / 512, g.sectsClust) + 1
  }

  lemma HoldsNeeded(g: Geometry, ch: seq<nat>, n: nat)
    requires g.Valid()
    ensures Holds(g, ch, n) <==> Needed(g, n) <= |ch|
  {
  }

  /** f_write writes all n bytes at p if and only if the clusters are enough: bw is how far
      it got, and if that is not far enough no cluster is free and the chain is at its end. */
  lemma WriteFits(g: Geometry, fat0: seq<nat>, fat: seq<nat>, ch0: seq<nat>, ch: seq<nat>, p: nat, bw: nat, n: nat)
    requires g.Valid() && Extends(fat0, fat, ch0, ch) && bw <= n && Holds(g, ch, p + bw)
    requires bw < n ==> Free(fat) == 0 && !Covers(g, ch, (p + bw) / 512)
    ensures bw == n <==> Needed(g, p + n) <= |ch0| + Free(fat0)
  {
    ExtendsCount(fat0, fat, ch0, ch);
    HoldsNeeded(g, ch, p + n);
    if bw < n && Holds(g, ch, p + n) {
      HoldsLess(g, ch, p + n, p + bw);
    }
  }

  /** The target lies in cluster number i of the chain. */
  lemma SeekLands(g: Geometry, ch: seq<nat>, i: nat, ofs: nat)
    requires g.Valid() && i < |ch| && 0 < ofs <= g.sectsClust * 512
    ensures (ofs - 1) / 512 < g.sectsClust
    ensures AtSector(g, ch, (512 * Times(i, g.sectsClust) + ofs - 1) / 512,
                     ch[i], g.Clust2Sect(ch[i]) + (ofs - 1) / 512, g.sectsClust - (ofs - 1) / 512)
    ensures Holds(g, ch, 512 * Times(i, g.sectsClust) + ofs)
  {
    hide Geometry.Clust2Sect, Geometry.Valid, Times, Quot, Rem;
    var sc, csect := g.sectsClust, (ofs - 1) / 512;
    QuotOf(i, sc, csect);
    SectorAfter(Times(i, sc), ofs);
    assert (512 * Times(i, sc) + ofs - 1) / 512 == Times(i, sc) + csect;
  }

  lemma SectorAfter(a: nat, ofs: nat)
    requires ofs > 0
    ensures (512 * a + ofs - 1) / 512 == a + (ofs - 1) / 512
  {
  }

  /** A target beyond cluster number i needs another cluster. */
  lemma SeekBeyond(g: Geometry, i: nat, n: nat)
    requires g.Valid() && n > 512 * Times(i + 1, g.sectsClust)
    ensures Needed(g, n) > i + 1
  {
    QuotOf(i + 1, g.sectsClust, 0);
    QuotMonotone(Times(i + 1, g.sectsClust), (n - 1) / 512, g.sectsClust);
  }

  /** All the clusters of the chain, and no more. */
  lemma SeekAll(g: Geometry, ch: seq<nat>)
    requires g.Valid() && ch != []
    ensures Holds(g, ch, 512 * Times(|ch|, g.sectsClust)) && Needed(g, 512 * Times(|ch|, g.sectsClust)) == |ch|
    ensures Covers(g, ch, Times(|ch|, g.sectsClust) - 1) && !Covers(g, ch, Times(|ch|, g.sectsClust))
  {
    QuotOf(|ch| - 1, g.sectsClust, g.sectsClust - 1);
    QuotOf(|ch|, g.sectsClust, 0);
  }

  /** The bytes of a file whose chain and size have grown begin as before. */
  lemma ContentGrown(g: Geometry, st: seq<Sector>, ch: seq<nat>, ch': seq<nat>, n: nat, n': nat)
    requires Big(g, st) && Clusters(g, ch) && Clusters(g, ch') && ch <= ch' && n <= n' && Holds(g, ch, n)
    requires Holds(g, ch', n')
    ensures Content(g, st, ch', n')[..n] == Content(g, st, ch, n)
  {
    ContentOfLonger(g, st, ch, ch', n);
    forall j | 0 <= j < n
      ensures Content(g, st, ch', n')[j] == Content(g, st, ch', n)[j]
    {
      assert ByteAt(g, st, ch', n', j) == ByteAt(g, st, ch', n, j);
    }
  }

  /** After a seek cut short, the sector number that clust2sect(0) yields is not the
      one the pointer is in. */
  lemma SeekMisses(g: Geometry, ch: seq<nat>, clust: nat, sect: nat, left: nat)
    requires Clusters(g, ch) && ch != [] && sect == g.sectsClust - 1
    ensures Times(|ch|, g.sectsClust) >= 1
    ensures !AtSector(g, ch, (512 * Times(|ch|, g.sectsClust) - 1) / 512, clust, sect, left)
  {
    SeekAll(g, ch);
    var k := Times(|ch|, g.sectsClust) - 1;
    QuotOf(|ch| - 1, g.sectsClust, g.sectsClust - 1);
    ClusterOfSector(g, ch[|ch| - 1], g.sectsClust - 1);
    assert (512 * (k + 1) - 1) / 512 == k;
  }

  /** clust2sect of the "no cluster" number is 0, the answer for a bad number. */
  lemma NoClusterNoSector(g: Geometry)
    requires g.Valid()
    ensures g.Clust2Sect(0) == 0
  {
  }

  // ----- what f_write_inplace achieves

  /** The file after f_write_inplace: only sectors wholly in the range are written. */
  ghost function InPlace(data: seq<Byte>, p: nat, n: nat, buf: seq<Byte>): (r: seq<Byte>)
    requires p + n <= |data| && n <= |buf|
    ensures |r| == |data|
  {
    seq(|data|, j requires 0 <= j < |data| => if Full(p, n, j / 512) then buf[j - p] else data[j])
  }

  lemma LandedContent(g: Geometry, ch: seq<nat>, st0: seq<Sector>, st: seq<Sector>, buf: seq<Byte>, p: nat, n: nat,
          size: nat)
    requires Big(g, st0) && Clusters(g, ch) && Holds(g, ch, size) && p + n <= size && n <= |buf|
    requires Landed(g, ch, st0, st, buf, p, n, true)
    ensures Content(g, st, ch, size) == InPlace(Content(g, st0, ch, size), p, n, buf)
  {
    hide Landed, Full, ByteAt, Clusters, Holds;
    LandedLength(g, ch, st0, st, buf, p, n);
    forall j | 0 <= j < size
      ensures Content(g, st, ch, size)[j] == InPlace(Content(g, st0, ch, size), p, n, buf)[j]
    {
      LandedByte(g, ch, st0, st, buf, p, n, size, j);
    }
  }

  lemma LandedLength(g: Geometry, ch: seq<nat>, st0: seq<Sector>, st: seq<Sector>, buf: seq<Byte>, p: nat, n: nat)
    requires Big(g, st0) && n <= |buf| && Landed(g, ch, st0, st, buf, p, n, true)
    ensures Big(g, st)
  {
  }

  lemma LandedByte(g: Geometry, ch: seq<nat>, st0: seq<Sector>, st: seq<Sector>, buf: seq<Byte>, p: nat, n: nat,
          size: nat, j: nat)
    requires Big(g, st0) && Clusters(g, ch) && Holds(g, ch, size) && p + n <= size && n <= |buf| && j < size
    requires Landed(g, ch, st0, st, buf, p, n, true)
    ensures Big(g, st) && (Full(p, n, j / 512) ==> p <= j < p + n)
    ensures ByteAt(g, st, ch, size, j) == if Full(p, n, j / 512) then buf[j - p] else ByteAt(g, st0, ch, size, j)
  {
    hide Clusters, Holds, Covers, SectorNo, InChain;
    HoldsLess(g, ch, size, j);
    SectorInChain(g, ch, j / 512);
    if Full(p, n, j / 512) {
      SectorSlice(buf, p, j);
    }
  }

  lemma SectorSlice(buf: seq<Byte>, p: nat, j: nat)
    requires p <= 512 * (j / 512) && 512 * (j / 512) + 512 - p <= |buf|
    ensures buf[512 * (j / 512) - p..512 * (j / 512) - p + 512][j % 512] == buf[j - p]
  {
  }

  /** What its name promises. */
  ghost function Replaced(data: seq<Byte>, p: nat, n: nat, buf: seq<Byte>): (r: seq<Byte>)
    requires p + n <= |data| && n <= |buf|
    ensures |r| == |data|
  {
    data[..p] + buf[..n] + data[p + n..]
  }

  /** f_write_inplace keeps its promise for all files and buffers exactly when the
      transfer begins and ends on sector boundaries. */
  lemma InPlaceExactly(size: nat, p: nat, n: nat)
    requires p + n <= size
    ensures (forall data: seq<Byte>, buf: seq<Byte> :: |data| == size && |buf| == n ==>
               InPlace(data, p, n, buf) == Replaced(data, p, n, buf))
            <==> n == 0 || (p % 512 == 0 && n % 512 == 0)
  {
    if n == 0 || (p % 512 == 0 && n % 512 == 0) {
      forall data: seq<Byte>, buf: seq<Byte> | |data| == size && |buf| == n
        ensures InPlace(data, p, n, buf) == Replaced(data, p, n, buf)
      {
        InPlaceAligned(data, p, n, buf);
      }
    } else {
      var data: seq<Byte>, buf: seq<Byte> := seq(size, _ => 0), seq(n, _ => 1);
      var j := if p % 512 != 0 then p else p + n - 1;
      NotWhole(p, n);
      assert InPlace(data, p, n, buf)[j] == 0 && Replaced(data, p, n, buf)[j] == 1;
    }
  }

  lemma NotWhole(p: nat, n: nat)
    requires n > 0 && (p % 512 != 0 || n % 512 != 0)
    ensures !Full(p, n, (if p % 512 != 0 then p else p + n - 1) / 512)
  {
  }

  lemma InPlaceAligned(data: seq<Byte>, p: nat, n: nat, buf: seq<Byte>)
    requires p + n <= |data| && n <= |buf|
    requires n == 0 || (p % 512 == 0 && n % 512 == 0)
    ensures InPlace(data, p, n, buf) == Replaced(data, p, n, buf)
  {
    forall j | 0 <= j < |data|
      ensures Full(p, n, j / 512) <==> p <= j < p + n
    {
      if n > 0 && p <= j < p + n {
        SectorOfByte(p, j - p, n);
      }
    }
  }

  /** On sector boundaries, writing leaves the caller's buffer alone. */
  lemma FilledAligned(data: seq<Byte>, p: nat, n: nat, buf: seq<Byte>)
    requires p + n <= |data| && n <= |buf|
    requires p % 512 == 0 && n % 512 == 0
    ensures Filled(data, p, n, true, buf, n) == buf
  {
    forall i | 0 <= i < n
      ensures FullAt(p, n, i)
    {
      SectorOfByte(p, i, n);
    }
  }

  lemma FilledRead(data: seq<Byte>, p: nat, n: nat, buf: seq<Byte>)
    requires p + n <= |data| && n <= |buf|
    ensures Filled(data, p, n, false, buf, n) == data[p..p + n] + buf[n..]
  {
  }

  // ----- f_sync

  lemma StartIsWord(g: Geometry, fat: seq<nat>, org: nat, ch: seq<nat>, size: nat)
    requires IsFile(g, fat, org, ch, size)
    ensures org < 0x1_0000 && Clusters(g, ch) && Holds(g, ch, size)
  {
  }

  /** Changing a sector outside the file changes none of its bytes. */
  lemma EditApart(g: Geometry, ch: seq<nat>, st: seq<Sector>, s: nat, x: Sector, size: nat)
    requires Big(g, st) && Clusters(g, ch) && Holds(g, ch, size) && s < |st| && !InChain(g, ch, s)
    ensures Content(g, st[s := x], ch, size) == Content(g, st, ch, size)
  {
    forall j | 0 <= j < size
      ensures Content(g, st[s := x], ch, size)[j] == Content(g, st, ch, size)[j]
    {
      HoldsLess(g, ch, size, j);
      SectorInChain(g, ch, j / 512);
      assert ByteAt(g, st[s := x], ch, size, j) == ByteAt(g, st, ch, size, j);
    }
  }

  lemma NeededLess(g: Geometry, ch: seq<nat>, n: nat, m: nat)
    requires g.Valid() && Holds(g, ch, n) && m <= n
    ensures Holds(g, ch, m) && Needed(g, m) <= |ch|
  {
    if m > 0 {
      HoldsLess(g, ch, n, m - 1);
    }
  }

  /** The first sector of the cluster that follows the pointer. */
  lemma StepInto(g: Geometry, fat: seq<nat>, org: nat, ch: seq<nat>, size: nat, fptr: nat, clust: nat, sect: nat,
          next: nat)
    requires IsFile(g, fat, org, ch, size) && ch != [] && fptr % 512 == 0
    requires fptr == 0 ==> next == ch[0]
    requires fptr > 0 ==> AtSector(g, ch, (fptr - 1) / 512, clust, sect, 1) && Covers(g, ch, (fptr - 1) / 512 + 1)
    requires fptr > 0 ==> clust < |fat| && next == fat[clust]
    ensures AtSector(g, ch, fptr / 512, next, g.Clust2Sect(next), g.sectsClust)
  {
    if fptr == 0 {
      StepFirst(g, fat, ch);
    } else {
      StepAcross(g, fat, ch, (fptr - 1) / 512, clust, sect);
    }
  }
}
