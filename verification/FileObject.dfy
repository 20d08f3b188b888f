/** An open file: a cursor that walks the cluster chain as bytes are transferred
    (tff.c, lines 904-1117, 1154-1224). */
module FileObject {
  import opened Arith
  import opened Bytes
  import opened Layout
  import opened Chains
  import opened FileData
  import opened FileSystem
  import opened Transfer

  /** The directory entry at offset at of a sector, with the archive bit set and the
      size, start cluster and time of a written file (tff.c, lines 1104-1111). */
  function Stamped(sector: Sector, at: nat, size: nat, org: Word, time: nat): (r: Sector)
    requires at + 32 <= 512 && size < 0x1_0000_0000 && time < 0x1_0000_0000
  {
    var attr := sector[at + 11];
    var s1 := sector[at + 11 := if attr / 0x20 % 2 == 1 then attr else attr + 0x20];
    StoreDword(StoreWord(StoreDword(s1, at + 28, size), at + 26, org), at + 22, time)
  }

  /** What a later f_open finds in the entry; the other bytes of the sector are as
      they were. */
  lemma StampedReads(sector: Sector, at: nat, size: nat, org: Word, time: nat)
    requires at + 32 <= 512 && size < 0x1_0000_0000 && time < 0x1_0000_0000
    ensures var r := Stamped(sector, at, size, org, time);
            && LoadDword(r, at + 28) == size && LoadWord(r, at + 26) == org && LoadDword(r, at + 22) == time
            && r[at + 11] / 0x20 % 2 == 1 && r[at..at + 11] == sector[at..at + 11]
            && forall i :: 0 <= i < 512 && !(at <= i < at + 32) ==> r[i] == sector[i]
  {
    hide StoreWord, StoreDword;
    var attr := sector[at + 11];
    var s1 := sector[at + 11 := if attr / 0x20 % 2 == 1 then attr else attr + 0x20];
    var s2 := StoreDword(s1, at + 28, size);
    var s3 := StoreWord(s2, at + 26, org);
    DwordReads(s1, at + 28, size);
    WordReads(s2, at + 26, org);
    DwordReads(s3, at + 22, time);
    assert s1[at + 11] / 0x20 % 2 == 1;
  }

  datatype Advance = Moved | DiskFull | Failed

  class FIL {
    const fs: FATFS
    var id: Word
    /** fp->fs is not NULL */
    var attached: bool
    /** The bits of fp->flag */
    var canRead: bool
    var canWrite: bool
    var written: bool
    var error: bool
    /** Sectors left in the cluster */
    var sectClust: Byte
    var fptr: nat
    var fsize: nat
    var orgClust: nat
    var currClust: nat
    var currSect: nat
    /** The directory entry: its sector and its offset there */
    var dirSect: nat
    var dirPtr: nat
    /** The clusters of the file */
    ghost var chain: seq<nat>

    ghost predicate Valid()
      reads this, fs, fs.disk, fs.win
    {
      fs.Valid() && fptr <= fsize < 0x1_0000_0000 && IsFile(fs.g, fs.Fat(), orgClust, chain, fsize)
    }

    ghost predicate At(k: int)
      reads this
    {
      AtSector(fs.g, chain, k, currClust, currSect, sectClust)
    }

    /** The end of f_open: the entry found at dirPtr in sector dirSect gives the start
        cluster and the size; the pointer is at the top of the file. */
    constructor (fs: FATFS, read: bool, write: bool, org: nat, size: nat, dirSect: nat, dirPtr: nat, ghost ch: seq<nat>)
      requires fs.Valid() && size < 0x1_0000_0000 && IsFile(fs.g, fs.Fat(), org, ch, size)
      ensures Valid() && Cursor() && this.fs == fs && chain == ch && fptr == 0 && fsize == size
      ensures canRead == read && canWrite == write && !written && !error
      ensures Refusal(true) == if fs.disk.noInit then FR_NOT_READY else FR_OK
      ensures this.dirSect == dirSect && this.dirPtr == dirPtr && orgClust == org
    {
      this.fs := fs;
      this.dirSect, this.dirPtr := dirSect, dirPtr;
      canRead, canWrite, written, error := read, write, false, false;
      orgClust, fsize, chain := org, size, ch;
      fptr, sectClust := 0, 1;
      currClust, currSect := 0, 0;
      attached, id := true, fs.id;
    }

    /** The cursor agrees with the file pointer. */
    ghost predicate Cursor()
      reads this
    {
      if fptr == 0 then sectClust == 1 else At((fptr - 1) / 512)
    }

    /** The bytes of the file. */
    ghost function Data(): (d: seq<Byte>)
      requires Valid()
      reads this, fs, fs.disk, fs.win
      ensures |d| == fsize
    {
      Content(fs.g, fs.Store(), chain, fsize)
    }

    ghost predicate Clear(p: nat, n: nat)
      reads this, fs
    {
      ClearOf(fs.g, chain, p, n, fs.winsect)
    }

    /** validate, the error flag and the access mode, in the order they are checked. */
    function Refusal(allowed: bool): FResult
      reads this, fs, fs.disk
    {
      if !attached || fs.id != id then FR_INVALID_OBJECT
      else if fs.disk.noInit then FR_NOT_READY
      else if error then FR_RW_ERROR
      else if !allowed then FR_DENIED
      else FR_OK
    }

    /** The sectors behind the cursor that it can go on to without a look at the table:
        the first one, and how many. */
    function RunStart(): nat
      requires 2 <= fs.g.maxClust
      reads this
    {
      if fptr == 0 then fs.g.Clust2Sect(orgClust) else currSect + 1
    }

    function RunRoom(): nat
      reads this
    {
      if fptr == 0 then fs.g.sectsClust else if sectClust == 0 then 0 else sectClust - 1
    }

    /** F_read of n bytes begins with a disk_read past the window that takes the sector
        the window holds dirty. */
    predicate Stale(n: nat)
      requires 2 <= fs.g.maxClust
      reads this, fs
    {
      fs.winflag && fptr % 512 == 0 && RunStart() <= fs.winsect < RunStart() + Min(n / 512, RunRoom())
    }

    /** The volume as f_read of n bytes sees it: such a sector as it is on the disk. */
    ghost function Seen(n: nat): (st: seq<Sector>)
      requires fs.Valid() && 2 <= fs.g.maxClust
      reads this, fs, fs.disk, fs.win
      ensures |st| == |fs.Store()|
    {
      if Stale(n) && fs.winsect < |fs.Store()| then fs.Store()[fs.winsect := fs.disk.sectors[fs.winsect]]
      else fs.Store()
    }

    /** And the bytes of the file on it. */
    ghost function SeenData(n: nat): (d: seq<Byte>)
      requires Valid()
      reads this, fs, fs.disk, fs.win
      ensures |d| == fsize
    {
      Content(fs.g, Seen(n), chain, fsize)
    }

    /** Of the sectors still to be read, seen has what reading the next n bytes will find. */
    ghost predicate Sees(seen: seq<Sector>, n: nat)
      requires fs.Valid() && 2 <= fs.g.maxClust
      reads this, fs, fs.disk, fs.win
    {
      SeenApart(fs.g, chain, seen, Seen(n), fptr / 512, 0, 0)
    }

    /** The same when the cursor is already on the first of them. */
    ghost predicate Poised(seen: seq<Sector>, n: nat)
      requires fs.Valid()
      reads this, fs, fs.disk, fs.win
    {
      && SeenApart(fs.g, chain, seen, fs.Store(), fptr / 512, currSect, Min(n / 512, sectClust))
      && forall s :: currSect <= s < currSect + Min(n / 512, sectClust) && s < |seen| ==> seen[s] == fs.disk.sectors[s]
    }

    /** The cluster that the sector at the file pointer is the first of. */
    method FollowingCluster() returns (clust: nat)
      requires Valid() && fptr % 512 == 0 && fptr < fsize
      requires fptr > 0 ==> AtSector(fs.g, chain, (fptr - 1) / 512, currClust, currSect, 1)
      modifies fs`winsect, fs`winflag, fs.win, fs.disk
      ensures Valid() && fs.SameDisk() && fs.Fat() == old(fs.Fat()) && fs.Store() == old(fs.Store())
      ensures if 2 <= clust < fs.g.maxClust
        then AtSector(fs.g, chain, fptr / 512, clust, fs.g.Clust2Sect(clust), fs.g.sectsClust)
        else fs.disk.Faults() > old(fs.disk.Faults())
      ensures fs.winsect == old(fs.winsect) || fs.winsect < fs.g.database
      ensures fs.winflag ==> old(fs.winflag) && fs.winsect == old(fs.winsect)
      ensures old(fptr) == 0 ==> clust == orgClust && unchanged(fs, fs.win, fs.disk)
      ensures old(fptr) > 0 && 2 <= clust < fs.g.maxClust ==> fs.winsect < fs.g.database
    {
      hide FATFS.Fat, FATFS.Store, FATFS.Valid, AtSector, IsChain, Holds, Geometry.Clust2Sect;
      HoldsLess(fs.g, chain, fsize, fptr);
      if fptr == 0 {
        StepFirst(fs.g, fs.Fat(), chain);
        clust := orgClust;
      } else {
        StepAcross(fs.g, fs.Fat(), chain, (fptr - 1) / 512, currClust, currSect);
        clust := fs.GetCluster(currClust);
      }
    }

    /** The top of the transfer loop, on a sector boundary when reading: on to the next
        sector, through the table at the end of a cluster. */
    method StepRead() returns (ok: bool)
      requires Valid() && Cursor() && fptr % 512 == 0 && fptr < fsize
      modifies this`sectClust, this`currClust, this`currSect, fs`winsect, fs`winflag, fs.win, fs.disk
      ensures Valid() && fs.SameDisk() && fs.Fat() == old(fs.Fat()) && fs.Store() == old(fs.Store())
      ensures ok ==> At(fptr / 512)
      ensures !ok ==> fs.disk.Faults() > old(fs.disk.Faults())
      ensures fs.winsect == old(fs.winsect) || fs.winsect < fs.g.database
      ensures fs.winflag ==> old(fs.winflag) && fs.winsect == old(fs.winsect)
      ensures ok && old(RunRoom()) > 0 ==>
        currSect == old(RunStart()) && sectClust == old(RunRoom()) && unchanged(fs, fs.win, fs.disk)
      ensures ok && old(RunRoom()) == 0 ==> fs.winsect < fs.g.database
    {
      hide FATFS.Fat, FATFS.Store, FATFS.Valid, AtSector, IsChain, Holds, Geometry.Clust2Sect, IsFile, Covers, Clusters;
      if fptr > 0 {
        LeftInCluster(fs.g, chain, (fptr - 1) / 512, currClust, currSect, sectClust);
      }
      sectClust := (sectClust - 1) % 256;
      var sect;
      if sectClust != 0 {
        StepWithin(fs.g, chain, (fptr - 1) / 512, currClust, currSect, sectClust + 1);
        sect := currSect + 1;
      } else {
        var clust := FollowingCluster();
        if clust < 2 || clust >= fs.g.maxClust { return false; }
        currClust := clust;
        sect := fs.g.Clust2Sect(clust);
        sectClust := fs.g.sectsClust;
      }
      currSect := sect;
      ok := true;
    }

    /** The loop's direct write of cc whole sectors, past the window. */
    method WriteRun(buff: array<Byte>, at: nat, cc: nat) returns (ok: bool)
      requires fs.Valid() && Clusters(fs.g, chain) && buff != fs.win && At(fptr / 512)
      requires 1 <= cc <= sectClust && at + 512 * cc <= buff.Length
      requires !(currSect <= fs.winsect < currSect + cc)
      modifies this`sectClust, this`currSect, fs.disk
      ensures fs.Valid() && fs.SameDisk() && fs.Fat() == old(fs.Fat())
      ensures ok ==>
        At(fptr / 512 + cc - 1) && sectClust == old(sectClust) - (cc - 1) && currSect == old(currSect) + (cc - 1)
      ensures !ok ==> fs.disk.Faults() > old(fs.disk.Faults())
      ensures ok ==> RunWritten(old(fs.Store()), fs.Store(), buff[..], at, old(currSect), cc)
      ensures SameOutside(fs.g, chain, old(fs.Store()), fs.Store())
    {
      hide FATFS.Fat, FATFS.Store, FATFS.Valid, AtSector, InChain, SameOutside, RunWritten;
      WholeRun(fs.g, chain, fptr / 512, currClust, currSect, sectClust, cc);
      ghost var st, sect := fs.Store(), currSect;
      ok := fs.WriteSectors(buff, at, currSect, cc);
      OutsideOfRun(fs.g, chain, st, fs.Store(), sect, cc);
      if !ok { return; }
      RunIsWritten(st, fs.Store(), buff[..], at, sect, cc);
      sectClust := sectClust - (cc - 1);
      currSect := currSect + (cc - 1);
    }

    /** The loop's direct read of cc whole sectors, past the window. */
    method ReadRun(buff: array<Byte>, at: nat, cc: nat) returns (ok: bool)
      requires Valid() && buff != fs.win && At(fptr / 512)
      requires 1 <= cc <= sectClust && at + 512 * cc <= buff.Length
      modifies this`sectClust, this`currSect, fs.disk`readFaults, buff
      ensures Valid() && fs.SameDisk() && fs.Fat() == old(fs.Fat()) && fs.Store() == old(fs.Store())
      ensures ok ==>
        At(fptr / 512 + cc - 1) && sectClust == old(sectClust) - (cc - 1) && currSect == old(currSect) + (cc - 1)
      ensures !ok ==> fs.disk.Faults() > old(fs.disk.Faults())
      ensures ok ==> forall i :: at <= i < at + 512 * cc ==>
                old(currSect) + (i - at) / 512 < |fs.disk.sectors|
                  && buff[i] == fs.disk.sectors[old(currSect) + (i - at) / 512][(i - at) % 512]
      ensures forall i :: 0 <= i < buff.Length && !(at <= i < at + 512 * cc) ==> buff[i] == old(buff[i])
    {
      hide FATFS.Fat, FATFS.Store, FATFS.Valid, AtSector, IsChain, Holds, InChain;
      WholeRun(fs.g, chain, fptr / 512, currClust, currSect, sectClust, cc);
      ok := fs.ReadSectors(buff, at, currSect, cc);
      if !ok { return; }
      sectClust := sectClust - (cc - 1);
      currSect := currSect + (cc - 1);
    }

    /** Everything the transfer loop has achieved after done of n bytes. Data are the bytes
        of the file as they are on the volume seen: when writing, the volume st0 of the
        beginning; when reading, that volume as it is going to be found. */
    ghost predicate Progress(p: nat, n: nat, wr: bool, st0: seq<Sector>, seen: seq<Sector>, data: seq<Byte>,
            buf0: seq<Byte>, buff: array<Byte>, done: nat)
      reads this, fs, fs.disk, fs.win, buff
    {
      && Valid() && Cursor() && fptr == p + done && done <= n && p + n <= fsize == |data| && n <= |buf0|
      && Big(fs.g, st0) && Big(fs.g, seen) && data == Content(fs.g, seen, chain, fsize)
      && Landed(fs.g, chain, st0, fs.Store(), buf0, p, done, wr)
      && buff[..] == Filled(data, p, n, wr, buf0, done)
      && (if wr then seen == st0 && Clear(p, n) else fs.Store() == st0 && Sees(seen, n - done))
      && (fptr % 512 != 0 && done < n ==> done == 0)
    }

    /** Moving the window to the table keeps the transfer clear of it. */
    lemma ClearKept(p: nat, n: nat, was: nat)
      requires Valid() && ClearOf(fs.g, chain, p, n, was)
      requires fs.winsect == was || fs.winsect < fs.g.database
      ensures Clear(p, n)
    {
      forall k | Covers(fs.g, chain, k) && Full(p, n, k)
        ensures fs.g.database <= SectorNo(fs.g, chain, k)
      {
        SectorInChain(fs.g, chain, k);
      }
    }

    /** Where the window is after one turn of a transfer that was at p, with the cursor on
        sector first of the volume: on the cursor's sector if that was moved in part, else
        as it was or in the table. */
    predicate TurnWindow(p: nat, first: nat, was: nat, flag: bool)
      reads this, fs
    {
      if p % 512 == 0 && fptr % 512 == 0
      then fs.winsect < fs.g.database || (fs.winsect == was && (fs.winflag ==> flag))
      else fs.winsect == currSect && (p % 512 != 0 ==> currSect == first)
    }

    /** The same after all turns so far. */
    predicate WindowIs(p: nat, done: nat, first: nat, was: nat, flag: bool)
      reads this, fs
    {
      WindowAfter(p, done, was, first, currSect, fs.winsect, fs.winflag && !flag, fs.winsect < fs.g.database)
    }

    /** With new clusters the window is in the table, unless part of a sector was moved after
        that. */
    ghost predicate WindowGrown(p: nat, was: seq<nat>)
      reads this, fs
    {
      chain != was ==> fptr > p && (p % 512 == 0 && fptr % 512 == 0 ==> fs.winsect < fs.g.database)
    }

    /** The next sectors are read where the cursor has gone: whether past a stale window
        or not, they are those seen. */
    lemma PoisedAfterStep(seen: seq<Sector>, n: nat, was: seq<Sector>, start: nat, room: nat, found: seq<Sector>)
      requires fs.Valid() && Clusters(fs.g, chain) && fptr % 512 == 0 && At(fptr / 512)
      requires |was| == |fs.Store()| && SeenApart(fs.g, chain, seen, was, fptr / 512, 0, 0)
      requires if room > 0 then currSect == start && sectClust == room && found == fs.disk.sectors
               else fs.winsect < fs.g.database
      requires was == if fs.winflag && start <= fs.winsect < start + Min(n / 512, room) && fs.winsect < |found|
                      then fs.Store()[fs.winsect := found[fs.winsect]] else fs.Store()
      ensures Poised(seen, n)
    {
      hide FATFS.Valid, FATFS.Store, FATFS.Fat, AtSector, SectorNo, Covers, Geometry.Clust2Sect;
      forall s | currSect <= s < currSect + Min(n / 512, sectClust) && s < |seen|
        ensures seen[s] == fs.disk.sectors[s]
      {
        RunOfSectors(fs.g, chain, fptr / 512, currClust, currSect, sectClust, s - currSect);
        if !(fs.winflag && fs.winsect == s) {
          StoreOnDisk(fs, s);
        }
      }
    }

    /** After the whole sectors the window is in the way of none to come. */
    lemma SeesAfterRun(seen: seq<Sector>, n: nat, cc: nat, k: nat, clust: nat, sect: nat, left: nat)
      requires fs.Valid() && 2 <= fs.g.maxClust && Clusters(fs.g, chain)
      requires SeenApart(fs.g, chain, seen, fs.Store(), k, sect, cc)
      requires AtSector(fs.g, chain, k, clust, sect, left) && 1 <= cc == Min(n / 512, left)
      requires fptr == 512 * (k + cc) && sectClust == left - (cc - 1)
      ensures Sees(seen, n - 512 * cc)
    {
      hide FATFS.Valid, FATFS.Store, FATFS.Fat, AtSector, SectorNo, Covers, Geometry.Clust2Sect;
      assert fptr / 512 == k + cc && (n - 512 * cc) / 512 == n / 512 - cc;
      forall j | Covers(fs.g, chain, j) && fptr / 512 <= j
        ensures !(sect <= SectorNo(fs.g, chain, j) < sect + cc)
      {
        OutsideRun(fs.g, chain, k, clust, sect, left, cc, j);
      }
    }

    /** After part of a sector its window is behind the cursor. */
    lemma SeesAfterPiece(seen: seq<Sector>, n: nat, k: nat)
      requires fs.Valid() && 2 <= fs.g.maxClust && SeenApart(fs.g, chain, seen, fs.Store(), k, 0, 0)
      requires 0 < fptr && k <= fptr / 512 && fs.winsect == currSect
      ensures Sees(seen, n)
    {
      hide FATFS.Valid, FATFS.Store, FATFS.Fat, SectorNo, Covers, Geometry.Clust2Sect;
    }

    lemma SeenAt(seen: seq<Sector>)
      requires fs.Valid() && Clusters(fs.g, chain) && Big(fs.g, seen) && At(fptr / 512)
      requires SeenApart(fs.g, chain, seen, fs.Store(), fptr / 512, 0, 0)
      ensures currSect < |seen| == |fs.Store()| && seen[currSect] == fs.Store()[currSect]
    {
      hide FATFS.Valid, FATFS.Store, FATFS.Fat, SectorNo, Covers, Geometry.Clust2Sect;
      RunOfSectors(fs.g, chain, fptr / 512, currClust, currSect, sectClust, 0);
    }

    /** When there is no whole sector to be read, all to come are seen as they are. */
    lemma NothingStale(seen: seq<Sector>, n: nat)
      requires fs.Valid() && 2 <= fs.g.maxClust
      requires (fptr % 512 != 0 && Sees(seen, n)) || (n < 512 && Poised(seen, n))
      ensures SeenApart(fs.g, chain, seen, fs.Store(), fptr / 512, 0, 0)
    {
      hide FATFS.Valid, FATFS.Store, FATFS.Fat, SectorNo, Covers;
    }

    /** StepRead in the midst of a transfer. */
    method StepOn(btr: nat, wr: bool, ghost p: nat, ghost n: nat, ghost seen: seq<Sector>) returns (ok: bool)
      requires Valid() && Cursor() && fptr % 512 == 0 && fptr < fsize && 2 <= fs.g.maxClust
      requires if wr then Clear(p, n) else Sees(seen, btr)
      modifies this`sectClust, this`currClust, this`currSect, fs`winsect, fs`winflag, fs.win, fs.disk
      ensures Valid() && fs.SameDisk() && fs.Fat() == old(fs.Fat()) && fs.Store() == old(fs.Store())
      ensures ok ==> At(fptr / 512) && if wr then Clear(p, n) else Poised(seen, btr)
      ensures fs.winflag ==> old(fs.winflag) && fs.winsect == old(fs.winsect)
      ensures !ok ==> fs.disk.Faults() > old(fs.disk.Faults())
      ensures fs.winsect == old(fs.winsect) || fs.winsect < fs.g.database
    {
      hide FATFS.Fat, FATFS.Store, FATFS.Valid, AtSector, IsChain, ClearOf, SeenApart, FIL.Poised, Geometry.Clust2Sect;
      hide Holds, Covers, SectorNo, InChain;
      ghost var was := fs.winsect;
      ghost var expected, start, room, found := Seen(btr), RunStart(), RunRoom(), fs.disk.sectors;
      ok := StepRead();
      if !ok { return; }
      if wr {
        ClearKept(p, n, was);
      } else {
        PoisedAfterStep(seen, btr, expected, start, room, found);
      }
    }

    static lemma WholeStays(p: nat, cc: nat)
      requires p % 512 == 0
      ensures (p + 512 * cc) % 512 == 0
    {
    }

    /** One turn of the loop of f_read_or_wr, for the btr bytes still to go: rcnt bytes
        are transferred. */
    method Turn(buff: array<Byte>, br: nat, btr: nat, wr: bool, ghost p: nat, ghost n: nat, ghost st0: seq<Sector>,
            ghost seen: seq<Sector>, ghost data: seq<Byte>, ghost buf0: seq<Byte>)
      returns (ok: bool, rcnt: nat)
      requires buff != fs.win && Progress(p, n, wr, st0, seen, data, buf0, buff, br) && 0 < btr == n - br
      modifies this`sectClust, this`currClust, this`currSect, this`fptr, fs`winsect, fs`winflag, fs.win, fs.disk, buff
      ensures Valid() && fs.SameDisk() && fs.Fat() == old(fs.Fat())
      ensures ok ==> 0 < rcnt <= btr && Progress(p, n, wr, st0, seen, data, buf0, buff, br + rcnt)
      ensures !ok ==> fs.disk.Faults() > old(fs.disk.Faults())
      ensures SameOutside(fs.g, chain, st0, fs.Store())
      ensures !wr ==> fs.Store() == st0
      ensures ok ==> TurnWindow(old(fptr), old(currSect), old(fs.winsect), old(fs.winflag))
      ensures fs.winflag ==> old(fs.winflag) && fs.winsect == old(fs.winsect)
    {
      hide Clusters, FATFS.Fat, FATFS.Store, FATFS.Valid, AtSector, IsChain, Filled, ClearOf, Content, SectorNo;
      hide InChain, SameOutside, Big, Landed, IsFile, SeenApart, FIL.Poised, FIL.Sees, FIL.Clear, Geometry.Clust2Sect;
      rcnt := 0;
      ProgressParts(p, n, wr, st0, seen, data, buf0, buff, br);
      SectorOf(fptr, 1);
      if fptr % 512 == 0 {
        ok := StepOn(btr, wr, p, n, seen);
        if !ok { return; }
        LeftInCluster(fs.g, chain, fptr / 512, currClust, currSect, sectClust);
        var cc := btr / 512;
        if cc != 0 {
          if cc > sectClust {
            cc := sectClust;
          }
          WholeStays(fptr, cc);
          if wr {
            ok, rcnt := WriteWhole(buff, br, cc, p, n, st0, data, buf0);
          } else {
            ok, rcnt := ReadWhole(buff, br, cc, p, n, st0, seen, data, buf0);
          }
          return;
        }
      }
      if !wr {
        NothingStale(seen, btr);
      }
      ok, rcnt := TransferPiece(buff, br, btr, wr, p, n, st0, seen, data, buf0);
    }

    method WriteWhole(buff: array<Byte>, br: nat, cc: nat, ghost p: nat, ghost n: nat, ghost st0: seq<Sector>,
            ghost data: seq<Byte>, ghost buf0: seq<Byte>)
      returns (ok: bool, rcnt: nat)
      requires buff != fs.win && Valid() && fptr == p + br && br <= n && p + n <= fsize == |data| && n <= |buf0|
      requires Big(fs.g, st0) && data == Content(fs.g, st0, chain, fsize)
      requires Landed(fs.g, chain, st0, fs.Store(), buf0, p, br, true)
      requires buff[..] == Filled(data, p, n, true, buf0, br) && Clear(p, n)
      requires fptr % 512 == 0 && At(fptr / 512) && 1 <= cc <= sectClust && br + 512 * cc <= n
      modifies this`sectClust, this`currSect, this`fptr, fs.disk
      ensures Valid() && fs.SameDisk() && fs.Fat() == old(fs.Fat())
      ensures ok ==> Progress(p, n, true, st0, st0, data, buf0, buff, br + rcnt) && 0 < rcnt == 512 * cc
      ensures !ok ==> fs.disk.Faults() > old(fs.disk.Faults())
      ensures SameOutside(fs.g, chain, st0, fs.Store())
    {
      hide FATFS.Fat, FATFS.Store, FATFS.Valid, AtSector, IsChain, SectorNo, Filled, InChain, ClearOf, Content, Big;
      hide RunWritten, Landed, SameOutside, IsFile, Holds, Covers, Clusters, Full, WellFormed;
      FirstCluster(fs.g, fs.Fat(), orgClust, chain, fsize);
      LandedOutside(fs.g, chain, st0, fs.Store(), buf0, p, br);
      ghost var k, clust, sect, left := fptr / 512, currClust, currSect, sectClust;
      ghost var st, before := fs.Store(), buff[..];
      SectorOf(fptr, 512 * cc);
      ClearOfRun(p, n, cc);
      rcnt := 512 * cc;
      ok := WriteRun(buff, br, cc);
      SameOutsideRun(fs.g, chain, st0, st, fs.Store());
      if !ok { return; }
      fptr := fptr + 512 * cc;
      FilledTail(data, p, n, true, buf0, br);
      SameRun(st, fs.Store(), before, buf0, br, sect, cc);
      LandedStep(fs.g, chain, st0, st, fs.Store(), buf0, p, br, k, clust, sect, left, cc);
      FilledSkip(data, p, n, buf0, br, 512 * cc);
    }

    method ReadWhole(buff: array<Byte>, br: nat, cc: nat, ghost p: nat, ghost n: nat, ghost st0: seq<Sector>,
            ghost seen: seq<Sector>, ghost data: seq<Byte>, ghost buf0: seq<Byte>)
      returns (ok: bool, rcnt: nat)
      requires buff != fs.win && Valid() && fptr == p + br && br <= n && p + n <= fsize == |data| && n <= |buf0|
      requires Big(fs.g, st0) && Big(fs.g, seen) && data == Content(fs.g, seen, chain, fsize)
      requires Landed(fs.g, chain, st0, fs.Store(), buf0, p, br, false) && fs.Store() == st0
      requires buff[..] == Filled(data, p, n, false, buf0, br) && Poised(seen, n - br)
      requires fptr % 512 == 0 && At(fptr / 512) && 1 <= cc == Min((n - br) / 512, sectClust)
      modifies this`sectClust, this`currSect, this`fptr, fs.disk`readFaults, buff
      ensures Valid() && fs.SameDisk() && fs.Fat() == old(fs.Fat())
      ensures ok ==> Progress(p, n, false, st0, seen, data, buf0, buff, br + rcnt) && 0 < rcnt == 512 * cc
      ensures !ok ==> fs.disk.Faults() > old(fs.disk.Faults())
      ensures fs.Store() == st0
    {
      hide FATFS.Fat, FATFS.Store, FATFS.Valid, AtSector, IsChain, SectorNo, Filled, InChain, ClearOf, Content, Big;
      hide Landed, WellFormed, Holds, FIL.Sees, FIL.Poised, SeenApart;
      ghost var k, clust, sect, left := fptr / 512, currClust, currSect, sectClust;
      ghost var before := buff[..];
      SectorOf(fptr, 512 * cc);
      PoisedRun(seen, n - br);
      rcnt := 512 * cc;
      ok := ReadRun(buff, br, cc);
      if !ok { return; }
      fptr := fptr + 512 * cc;
      forall i | br <= i < br + 512 * cc
        ensures buff[i] == data[p + i]
      {
        ContentOfRun(fs.g, seen, chain, fsize, k, clust, sect, left, i - br);
      }
      FilledStep(data, p, n, false, buf0, before, buff[..], br, 512 * cc);
      LandedRead(fs.g, chain, st0, st0, buf0, p, br, br + rcnt);
      SeesAfterRun(seen, n - br, cc, k, clust, sect, left);
    }

    lemma PoisedRun(seen: seq<Sector>, n: nat)
      requires fs.Valid() && Poised(seen, n)
      ensures forall s :: currSect <= s < currSect + Min(n / 512, sectClust) && s < |seen| ==>
        s < |fs.disk.sectors| && seen[s] == fs.disk.sectors[s]
      ensures SeenApart(fs.g, chain, seen, fs.Store(), fptr / 512, currSect, Min(n / 512, sectClust))
    {
    }

    lemma ClearOfRun(p: nat, n: nat, cc: nat)
      requires Valid() && At(fptr / 512) && 1 <= cc <= sectClust && Clear(p, n)
      requires fptr % 512 == 0 && p <= fptr && fptr + 512 * cc <= p + n
      ensures !(currSect <= fs.winsect < currSect + cc)
    {
      if currSect <= fs.winsect < currSect + cc {
        var k, i := fptr / 512, fs.winsect - currSect;
        RunOfSectors(fs.g, chain, k, currClust, currSect, sectClust, i);
        assert Full(p, n, k + i);
      }
    }

    method TransferPiece(buff: array<Byte>, br: nat, btr: nat, wr: bool, ghost p: nat, ghost n: nat,
            ghost st0: seq<Sector>, ghost seen: seq<Sector>, ghost data: seq<Byte>, ghost buf0: seq<Byte>)
      returns (ok: bool, rcnt: nat)
      requires buff != fs.win && Valid() && fptr == p + br && br <= n && p + n <= fsize == |data| && n <= |buf0|
      requires Big(fs.g, st0) && Big(fs.g, seen) && data == Content(fs.g, seen, chain, fsize)
      requires Landed(fs.g, chain, st0, fs.Store(), buf0, p, br, wr)
      requires if wr then seen == st0 && Clear(p, n)
               else fs.Store() == st0 && SeenApart(fs.g, chain, seen, st0, fptr / 512, 0, 0)
      requires buff[..] == Filled(data, p, n, wr, buf0, br)
      requires At(fptr / 512) && 0 < btr == n - br && (fptr % 512 == 0 ==> btr < 512) && (fptr % 512 != 0 ==> br == 0)
      modifies this`fptr, fs`winsect, fs`winflag, fs.win, fs.disk, buff
      ensures Valid() && fs.SameDisk() && fs.Fat() == old(fs.Fat())
      ensures ok ==> 0 < rcnt <= btr && Progress(p, n, wr, st0, seen, data, buf0, buff, br + rcnt)
      ensures ok ==> fs.winsect == currSect && (old(fptr) % 512 == 0 ==> fptr % 512 != 0)
      ensures fs.winflag ==> old(fs.winflag) && fs.winsect == old(fs.winsect)
      ensures !ok ==> fs.disk.Faults() > old(fs.disk.Faults())
      ensures fs.Store() == old(fs.Store())
    {
      hide WellFormed, Holds, Covers, NoneFreeIn, FATFS.Fat, FATFS.Store, FATFS.Valid, AtSector, IsChain;
      hide Geometry.Clust2Sect, SectorNo, Landed, Filled, InChain, ClearOf, Content, Big, FIL.Sees, SeenApart;
      ghost var k, before := fptr / 512, buff[..];
      ghost var was := fs.winsect;
      LeftInCluster(fs.g, chain, k, currClust, currSect, sectClust);
      RunOfSectors(fs.g, chain, k, currClust, currSect, sectClust, 0);
      rcnt := 512 - fptr % 512;
      if rcnt > btr {
        rcnt := btr;
      }
      SectorOf(fptr, rcnt);
      PieceNotFull(p, n, br, rcnt, br);
      if wr {
        PieceUnchanged(fs.g, chain, st0, fs.Store(), buf0, p, n, br, wr, k, currClust, currSect, sectClust);
      } else {
        SeenAt(seen);
      }
      var off := fptr % 512;
      ok := fs.ReadPart(currSect, off, buff, br, rcnt);
      if !ok {
        return;
      }
      fptr := fptr + rcnt;
      PieceStep(fs.g, st0, seen, fs.Store(), chain, data, buf0, p, n, br, rcnt, wr, currClust, currSect, sectClust,
        before, buff[..]);
      if wr {
        ClearOfPiece(p, n, k, was);
      } else {
        SeesAfterPiece(seen, btr - rcnt, k);
      }
    }

    /** A sector that is transferred in part is none of the whole ones. */
    lemma ClearOfPiece(p: nat, n: nat, k: nat, was: nat)
      requires Valid() && At(k) && !Full(p, n, k) && ClearOf(fs.g, chain, p, n, was)
      requires fs.winsect == was || fs.winsect == currSect
      ensures Clear(p, n)
    {
      forall j | Covers(fs.g, chain, j) && Full(p, n, j)
        ensures SectorNo(fs.g, chain, j) != currSect
      {
        if SectorNo(fs.g, chain, j) == SectorNo(fs.g, chain, k) {
          SectorInjective(fs.g, chain, j, k);
        }
      }
    }

    /** f_read_or_wr. Reading delivers the bytes from the file pointer to the end of the
        request or of the file, as they are on the volume seen. Writing puts the caller's bytes in the sectors lying
        wholly in that range; for the parts of sectors at its ends it reads instead. */
    method ReadOrWrite(buff: array<Byte>, btr0: nat, wr: bool) returns (res: FResult, br: nat)
      requires Valid() && Cursor() && buff != fs.win && btr0 <= buff.Length && btr0 < 0x1_0000
      requires wr ==> Clear(fptr, Min(btr0, fsize - fptr))
      modifies this`sectClust, this`currClust, this`currSect, this`fptr, this`error, fs`winsect, fs`winflag, fs.win
      modifies fs.disk, buff
      ensures Valid() && fs.SameDisk() && fs.Fat() == old(fs.Fat())
      ensures old(Refusal(canRead)) != FR_OK ==>
        res == old(Refusal(canRead)) && br == 0 && fptr == old(fptr) && Cursor()
      ensures old(Refusal(canRead)) != FR_OK ==>
        error == old(error) && fs.Store() == old(fs.Store()) && buff[..] == old(buff[..])
      ensures old(Refusal(canRead)) == FR_OK ==>
        res == FR_OK || (res == FR_RW_ERROR && error && fs.disk.Faults() > old(fs.disk.Faults()))
      ensures res == FR_OK ==>
        Cursor() && error == old(error) && br == Min(btr0, fsize - old(fptr)) && fptr == old(fptr) + br
      ensures res == FR_OK && wr ==> buff[..] == Filled(old(Data()), old(fptr), br, true, old(buff[..]), br)
      ensures res == FR_OK && !wr ==>
        buff[..] == Filled(old(SeenData(Min(btr0, fsize - fptr))), old(fptr), br, false, old(buff[..]), br)
      ensures res == FR_OK ==> Landed(fs.g, chain, old(fs.Store()), fs.Store(), old(buff[..]), old(fptr), br, wr)
      ensures res == FR_OK && wr ==> Clear(old(fptr), br)
      ensures SameOutside(fs.g, chain, old(fs.Store()), fs.Store())
      ensures !wr ==> fs.Store() == old(fs.Store())
      ensures res == FR_OK ==> WindowIs(old(fptr), br, old(currSect), old(fs.winsect), old(fs.winflag))
      ensures fs.winflag ==> old(fs.winflag) && fs.winsect == old(fs.winsect)
    {
      hide FATFS.Fat, FATFS.Store, FATFS.Valid, AtSector, IsChain, ClearOf, Content, Filled, Landed, InChain;
      hide FIL.Progress, FIL.Seen, FIL.Clear, IsFile, SameOutside, FIL.WindowIs, Clusters, Holds, Covers, WellFormed;
      SameOutsideSelf(fs.g, chain, fs.Store());
      br := 0;
      res := Refusal(canRead);
      if res != FR_OK { return; }
      var remain, btr := fsize - fptr, btr0;
      if btr > remain {
        btr := remain % 0x1_0000;
      }
      FirstCluster(fs.g, fs.Fat(), orgClust, chain, fsize);
      ghost var st0, seen := fs.Store(), if wr then fs.Store() else Seen(btr);
      ghost var data, p, buf0 := if wr then Data() else SeenData(btr), fptr, buff[..];
      ProgressAtFirst(btr, wr, seen, data, buff);
      var ok;
      ok, br := TransferLoop(buff, btr, wr, p, st0, seen, data, buf0);
      if !ok {
        error := true;
        res := FR_RW_ERROR;
      } else {
        ProgressAtEnd(p, br, wr, st0, seen, data, buf0, buff);
      }
    }

    lemma ProgressAtFirst(n: nat, wr: bool, seen: seq<Sector>, data: seq<Byte>, buff: array<Byte>)
      requires Valid() && Cursor() && fptr + n <= fsize && n <= buff.Length && 2 <= fs.g.maxClust
      requires wr ==> Clear(fptr, n)
      requires seen == (if wr then fs.Store() else Seen(n)) && data == if wr then Data() else SeenData(n)
      ensures Progress(fptr, n, wr, fs.Store(), seen, data, buff[..], buff, 0)
    {
      hide FATFS.Fat, FATFS.Store, FATFS.Valid, AtSector, IsChain, ClearOf, Content, Filled, Landed, InChain;
      NothingYet(fs.g, chain, fs.Store(), data, buff[..], fptr, n, wr);
      FirstCluster(fs.g, fs.Fat(), orgClust, chain, fsize);
    }

    lemma ProgressAtEnd(p: nat, n: nat, wr: bool, st0: seq<Sector>, seen: seq<Sector>, data: seq<Byte>, buf0: seq<Byte>,
            buff: array<Byte>)
      requires Progress(p, n, wr, st0, seen, data, buf0, buff, n)
      ensures Valid() && Cursor() && fptr == p + n && p + n <= |data| && n <= |buf0|
      ensures buff[..] == Filled(data, p, n, wr, buf0, n)
      ensures Landed(fs.g, chain, st0, fs.Store(), buf0, p, n, wr) && (wr ==> Clear(p, n))
    {
    }

    /** The loop of f_read_or_wr. */
    method TransferLoop(buff: array<Byte>, n: nat, wr: bool, ghost p: nat, ghost st0: seq<Sector>,
            ghost seen: seq<Sector>, ghost data: seq<Byte>, ghost buf0: seq<Byte>)
      returns (ok: bool, br: nat)
      requires buff != fs.win && Progress(p, n, wr, st0, seen, data, buf0, buff, 0)
      modifies this`sectClust, this`currClust, this`currSect, this`fptr, fs`winsect, fs`winflag, fs.win, fs.disk, buff
      ensures Valid() && fs.SameDisk() && fs.Fat() == old(fs.Fat()) && SameOutside(fs.g, chain, st0, fs.Store())
      ensures !wr ==> fs.Store() == st0
      ensures ok ==> br == n && Progress(p, n, wr, st0, seen, data, buf0, buff, n)
      ensures !ok ==> fs.disk.Faults() > old(fs.disk.Faults())
      ensures ok ==> WindowIs(p, n, old(currSect), old(fs.winsect), old(fs.winflag))
      ensures fs.winflag ==> old(fs.winflag) && fs.winsect == old(fs.winsect)
    {
      hide FIL.Progress, SameOutside, FATFS.Fat, FATFS.Store, FATFS.Valid, IsFile;
      br := 0;
      ok := true;
      var btr := n;
      ProgressParts(p, n, wr, st0, seen, data, buf0, buff, 0);
      while btr != 0
        invariant Progress(p, n, wr, st0, seen, data, buf0, buff, br) && br + btr == n
        invariant Valid() && fs.SameDisk() && fs.Fat() == old(fs.Fat()) && ok
        invariant SameOutside(fs.g, chain, st0, fs.Store()) && (!wr ==> fs.Store() == st0)
        invariant WindowIs(p, br, old(currSect), old(fs.winsect), old(fs.winflag))
        invariant br == 0 ==> currSect == old(currSect)
        invariant fs.winflag ==> old(fs.winflag) && fs.winsect == old(fs.winsect)
      {
        ProgressParts(p, n, wr, st0, seen, data, buf0, buff, br);
        var rcnt;
        ghost var last, now, dirty := currSect, fs.winsect, fs.winflag;
        ok, rcnt := Turn(buff, br, btr, wr, p, n, st0, seen, data, buf0);
        if !ok { return; }
        ProgressParts(p, n, wr, st0, seen, data, buf0, buff, br + rcnt);
        WindowTurn(p, br, rcnt, old(fs.winsect), old(currSect), last, now, dirty && !old(fs.winflag),
          currSect, fs.winsect, fs.winflag && !old(fs.winflag), fs.g.database);
        br := br + rcnt;
        btr := btr - rcnt;
      }
    }

    lemma ProgressParts(p: nat, n: nat, wr: bool, st0: seq<Sector>, seen: seq<Sector>, data: seq<Byte>, buf0: seq<Byte>,
            buff: array<Byte>, done: nat)
      requires Progress(p, n, wr, st0, seen, data, buf0, buff, done)
      ensures Valid() && fptr == p + done && SameOutside(fs.g, chain, st0, fs.Store()) && (!wr ==> fs.Store() == st0)
      ensures fptr % 512 != 0 && done < n ==> done == 0
    {
    }

    /** f_read: the bytes from the pointer to the end of the request or of the file. They
        are those of the file if and only if the window does not hold, with other bytes
        than the disk, a sector that the first disk_read takes. */
    method Read(buff: array<Byte>, btr: nat) returns (res: FResult, br: nat)
      requires Valid() && Cursor() && buff != fs.win && btr <= buff.Length && btr < 0x1_0000
      modifies this`sectClust, this`currClust, this`currSect, this`fptr, this`error, fs`winsect, fs`winflag, fs.win
      modifies fs.disk, buff
      ensures Valid() && fs.SameDisk() && fs.Fat() == old(fs.Fat()) && fs.Store() == old(fs.Store())
      ensures Data() == old(Data())
      ensures old(Refusal(canRead)) != FR_OK ==>
        res == old(Refusal(canRead)) && br == 0 && fptr == old(fptr) && Cursor() && buff[..] == old(buff[..])
      ensures old(Refusal(canRead)) == FR_OK ==>
        res == FR_OK || (res == FR_RW_ERROR && error && fs.disk.Faults() > old(fs.disk.Faults()))
      ensures res == FR_OK ==>
        Cursor() && error == old(error) && br == Min(btr, fsize - old(fptr)) && fptr == old(fptr) + br
      ensures res == FR_OK ==>
        buff[..] == old(SeenData(Min(btr, fsize - fptr)))[old(fptr)..old(fptr) + br] + old(buff[..])[br..]
      ensures res == FR_OK ==>
        (buff[..] == old(Data())[old(fptr)..old(fptr) + br] + old(buff[..])[br..] <==>
         !old(Outdated(Min(btr, fsize - fptr))))
      ensures res == FR_OK ==> WindowIs(old(fptr), br, old(currSect), old(fs.winsect), old(fs.winflag))
      ensures fs.winflag ==> old(fs.winflag) && fs.winsect == old(fs.winsect)
    {
      hide FATFS.Fat, FATFS.Store, FATFS.Valid, AtSector, IsChain, ClearOf, Content, Filled, Landed, FIL.Outdated;
      hide FIL.Seen, FIL.SeenData, FIL.Stale, IsFile, SameOutside, FIL.Cursor, FIL.WindowIs;
      ghost var data, seen, p, buf := Data(), SeenData(Min(btr, fsize - fptr)), fptr, buff[..];
      SeenRight(Min(btr, fsize - fptr));
      res, br := ReadOrWrite(buff, btr, false);
      if res == FR_OK {
        FilledRead(seen, p, br, buf);
        SameFront(seen[p..p + br], data[p..p + br], buf[br..]);
      }
    }

    /** A sector that the first disk_read takes is dirty in the window, with other bytes
        than the disk. */
    predicate Outdated(n: nat)
      requires fs.Valid()
      reads this, fs, fs.disk, fs.win
    {
      Stale(n) && fs.win[..] != fs.disk.sectors[fs.winsect]
    }

    /** The bytes seen are those of the file unless such a sector is in the way. */
    lemma SeenRight(n: nat)
      requires Valid() && Cursor() && fptr + n <= fsize
      ensures SeenData(n)[fptr..fptr + n] == Data()[fptr..fptr + n] <==> !Outdated(n)
    {
      hide FATFS.Fat, FATFS.Store, FATFS.Valid, AtSector, Content, IsFile, Holds, Covers, Geometry.Clust2Sect;
      FirstCluster(fs.g, fs.Fat(), orgClust, chain, fsize);
      if Stale(n) {
        var k, i := fptr / 512, fs.winsect - RunStart();
        RunAhead();
        RunOfSectors(fs.g, chain, k, RunCluster(), RunStart(), RunRoom(), i);
        DirtyInStore(fs);
        if fs.win[..] == fs.disk.sectors[fs.winsect] {
          assert Seen(n) == fs.Store();
        } else {
          ghost var x :| 0 <= x < 512 && fs.win[..][x] != fs.disk.sectors[fs.winsect][x];
          SectorOf(fptr, 512);
          OffsetInRun(i, x, n);
          ContentOfRun(fs.g, fs.Store(), chain, fsize, k, RunCluster(), RunStart(), RunRoom(), 512 * i + x);
          ContentOfRun(fs.g, Seen(n), chain, fsize, k, RunCluster(), RunStart(), RunRoom(), 512 * i + x);
          assert SeenData(n)[fptr..fptr + n][512 * i + x] != Data()[fptr..fptr + n][512 * i + x];
        }
      }
    }

    /** There is no such sector when the window is clean, or on no whole sector that is
        read. */
    lemma Fresh(n: nat)
      requires Valid() && Cursor() && fptr + n <= fsize && (fs.winflag ==> Clear(fptr, n))
      ensures !Outdated(n)
    {
      hide FATFS.Fat, FATFS.Store, FATFS.Valid, AtSector, Content, IsFile, Holds, Covers, SectorNo, InChain;
      hide Geometry.Clust2Sect;
      FirstCluster(fs.g, fs.Fat(), orgClust, chain, fsize);
      if Stale(n) {
        var k, i := fptr / 512, fs.winsect - RunStart();
        RunAhead();
        RunOfSectors(fs.g, chain, k, RunCluster(), RunStart(), RunRoom(), i);
      }
    }

    static lemma OffsetInRun(i: nat, x: nat, n: nat)
      requires i < n / 512 && x < 512
      ensures 512 * i + x < n && (512 * i + x) / 512 == i && (512 * i + x) % 512 == x
    {
    }

    function RunCluster(): nat
      reads this
    {
      if fptr == 0 then orgClust else currClust
    }

    /** Those sectors follow one another in the file. */
    lemma RunAhead()
      requires Valid() && Cursor() && fptr % 512 == 0 && fptr < fsize && RunRoom() > 0
      ensures AtSector(fs.g, chain, fptr / 512, RunCluster(), RunStart(), RunRoom())
    {
      hide FATFS.Fat, FATFS.Store, FATFS.Valid, AtSector, IsChain, Holds, Geometry.Clust2Sect;
      if fptr == 0 {
        StepFirst(fs.g, fs.Fat(), chain);
      } else {
        LeftInCluster(fs.g, chain, (fptr - 1) / 512, currClust, currSect, sectClust);
        StepWithin(fs.g, chain, (fptr - 1) / 512, currClust, currSect, sectClust);
      }
    }

    static lemma SameFront(a: seq<Byte>, b: seq<Byte>, c: seq<Byte>)
      requires |a| == |b|
      ensures a + c == b + c <==> a == b
    {
      if a + c == b + c {
        assert a == (a + c)[..|a|] && b == (b + c)[..|b|];
      }
    }

    /** f_write_inplace. On sector boundaries the caller's bytes replace those of the
        file; in general InPlace says what happens. */
    method WriteInPlace(buff: array<Byte>, btw: nat) returns (res: FResult, bw: nat)
      requires Valid() && Cursor() && buff != fs.win && btw <= buff.Length && btw < 0x1_0000
      requires Clear(fptr, Min(btw, fsize - fptr))
      modifies this`sectClust, this`currClust, this`currSect, this`fptr, this`error, fs`winsect, fs`winflag, fs.win
      modifies fs.disk, buff
      ensures Valid() && fs.SameDisk() && fs.Fat() == old(fs.Fat())
      ensures SameOutside(fs.g, chain, old(fs.Store()), fs.Store())
      ensures old(Refusal(canRead)) != FR_OK ==>
        res == old(Refusal(canRead)) && bw == 0 && fptr == old(fptr) && Cursor() && fs.Store() == old(fs.Store())
      ensures old(Refusal(canRead)) == FR_OK ==>
        res == FR_OK || (res == FR_RW_ERROR && error && fs.disk.Faults() > old(fs.disk.Faults()))
      ensures res == FR_OK ==>
        Cursor() && error == old(error) && bw == Min(btw, fsize - old(fptr)) && fptr == old(fptr) + bw
      ensures res == FR_OK ==> Data() == InPlace(old(Data()), old(fptr), bw, old(buff[..]))
      ensures res == FR_OK && old(fptr) % 512 == 0 && bw % 512 == 0 ==>
        Data() == Replaced(old(Data()), old(fptr), bw, old(buff[..])) && buff[..] == old(buff[..])
      ensures res == FR_OK ==> WindowIs(old(fptr), bw, old(currSect), old(fs.winsect), old(fs.winflag))
    {
      hide FATFS.Fat, FATFS.Store, FATFS.Valid, AtSector, IsChain, ClearOf, Content, Filled, Landed, SameOutside;
      hide InPlace, Replaced;
      ghost var data, p, buf, st := Data(), fptr, buff[..], fs.Store();
      res, bw := ReadOrWrite(buff, btw, true);
      if res == FR_OK {
        LandedContent(fs.g, chain, st, fs.Store(), buf, p, bw, fsize);
        if p % 512 == 0 && bw % 512 == 0 {
          InPlaceAligned(data, p, bw, buf);
          FilledAligned(data, p, bw, buf);
        }
      }
    }

    // ----- writing through the allocator

    /** The window holds no sector of the file that starts at or after the pointer. */
    ghost predicate Ahead()
      reads this, fs
    {
      AheadOf(fs.g, chain, fptr, fs.winsect)
    }

    /** The file, taken to be size bytes long, is on a well-formed volume. While bytes
        are appended the pointer runs ahead of fsize. */
    ghost predicate Good(size: nat)
      reads this, fs, fs.disk, fs.win
    {
      fs.Valid() && WellFormed(fs.Fat()) && IsFile(fs.g, fs.Fat(), orgClust, chain, size)
    }

    /** The next cluster of the file, allocated if need be (tff.c, lines 1034-1042). */
    method NextCluster(ghost size: nat) returns (clust: nat)
      requires Good(size) && fptr <= size
      requires fptr > 0 ==> AtSector(fs.g, chain, (fptr - 1) / 512, currClust, currSect, 1)
      modifies this`orgClust, this`chain, fs`winsect, fs`winflag, fs`lastClust, fs`freeClust, fs.win, fs.disk
      ensures fs.Valid() && fs.SameDisk() && fs.Store() == old(fs.Store())
      ensures clust == 0 ==> fs.Fat() == old(fs.Fat()) && chain == old(chain) && Good(size)
      ensures clust == 0 ==>
        Free(fs.Fat()) == 0 && if fptr == 0 then chain == [] else !Covers(fs.g, chain, (fptr - 1) / 512 + 1)
      ensures clust == 1 || clust >= fs.g.maxClust ==> fs.disk.Faults() > old(fs.disk.Faults())
      ensures clust > 1 ==> Good(size) && Extends(old(fs.Fat()), fs.Fat(), old(chain), chain)
      ensures clust > 1 && fptr == 0 ==> chain != [] && chain[0] == clust
      ensures clust > 1 && fptr > 0 ==> AtSector(fs.g, chain, (fptr - 1) / 512, currClust, currSect, 1)
      ensures clust > 1 && fptr > 0 ==>
        chain != [] && currClust < |fs.Fat()| && Covers(fs.g, chain, (fptr - 1) / 512 + 1)
      ensures clust > 1 && fptr > 0 ==> clust == fs.Fat()[currClust]
      ensures fs.winsect == old(fs.winsect) || fs.winsect < fs.g.database
      ensures clust > 1 && chain != old(chain) ==> fs.winsect < fs.g.database
      ensures clust > 1 ==> fs.winsect < fs.g.database || unchanged(fs, fs.win, fs.disk)
      ensures old(fptr) == 0 && old(orgClust) != 0 ==> unchanged(fs, fs.win, fs.disk)
    {
      hide FATFS.Fat, FATFS.Store, FATFS.Valid, IsChain, WellFormed, Extends, NoneFreeIn, AtSector;
      ghost var fat, ch := fs.Fat(), chain;
      ExtendsSelf(fs.g, fat, chain);
      FirstCluster(fs.g, fat, orgClust, chain, size);
      if fptr == 0 {
        clust := orgClust;
        if clust == 0 {
          orgClust := fs.CreateChain(0);
          clust := orgClust;
          assert clust == 0 ==> Free(fat) == 0 by { if clust == 0 { NoneFree(fat, 2); } }
          NeverRefused(fat, 0);
          if clust > 1 {
            GrowFile(fs.g, fat, 0, ch, size, clust, fs.g.EndMark());
            chain := ch + [clust];
          }
        }
      } else {
        NextCovered(fs.g, chain, (fptr - 1) / 512, currClust, currSect);
        LastOrNot(fs.g, fat, ch, (fptr - 1) / 512, currClust, currSect);
        NeverRefused(fat, currClust);
        clust := fs.CreateChain(currClust);
        assert clust == 0 ==> Free(fat) == 0 by { if clust == 0 { NoneFree(fat, 2); } }
        if clust > 1 && fat[currClust] >= fs.g.maxClust {
          GrowFile(fs.g, fat, orgClust, ch, size, clust, fs.g.EndMark());
          chain := ch + [clust];
          AtLonger(fs.g, ch, chain, (fptr - 1) / 512, currClust, currSect, 1);
          NextCovered(fs.g, chain, (fptr - 1) / 512, currClust, currSect);
        }
      }
    }

    /** And the file's sector at the pointer is the first of that cluster. */
    method ClusterToWrite(ghost size: nat) returns (clust: nat)
      requires Good(size) && fptr % 512 == 0 && fptr <= size
      requires fptr > 0 ==> AtSector(fs.g, chain, (fptr - 1) / 512, currClust, currSect, 1)
      modifies this`orgClust, this`chain, fs`winsect, fs`winflag, fs`lastClust, fs`freeClust, fs.win, fs.disk
      ensures fs.Valid() && fs.SameDisk() && fs.Store() == old(fs.Store())
      ensures clust == 0 ==> Good(size) && fs.Fat() == old(fs.Fat()) && chain == old(chain)
      ensures clust == 0 ==> Free(fs.Fat()) == 0 && !Covers(fs.g, chain, fptr / 512)
      ensures clust == 1 || clust >= fs.g.maxClust ==> fs.disk.Faults() > old(fs.disk.Faults())
      ensures 2 <= clust < fs.g.maxClust ==>
        && Good(size) && Extends(old(fs.Fat()), fs.Fat(), old(chain), chain)
        && AtSector(fs.g, chain, fptr / 512, clust, fs.g.Clust2Sect(clust), fs.g.sectsClust)
      ensures fs.winsect == old(fs.winsect) || fs.winsect < fs.g.database
      ensures clust > 1 && chain != old(chain) ==> fs.winsect < fs.g.database
      ensures clust > 1 ==> fs.winsect < fs.g.database || unchanged(fs, fs.win, fs.disk)
      ensures old(fptr) == 0 && old(orgClust) != 0 ==> unchanged(fs, fs.win, fs.disk)
    {
      hide FATFS.Fat, FATFS.Store, FATFS.Valid, IsChain, WellFormed, Extends, AtSector, IsFile, Geometry.Clust2Sect;
      hide Holds, Covers;
      FirstCluster(fs.g, fs.Fat(), orgClust, chain, size);
      clust := NextCluster(size);
      if clust == 0 {
        if chain == [] {
          NothingCovered(fs.g, fptr / 512);
        }
      } else if 2 <= clust < fs.g.maxClust {
        FirstCluster(fs.g, fs.Fat(), orgClust, chain, size);
        StepInto(fs.g, fs.Fat(), orgClust, chain, size, fptr, currClust, currSect, clust);
      }
    }

    /** The top of f_write's loop on a sector boundary: on to the next sector, through
        the allocator at the end of a cluster. */
    method StepWrite(ghost size: nat) returns (r: Advance)
      requires Good(size) && Cursor() && fptr % 512 == 0 && fptr <= size
      modifies this`sectClust, this`currClust, this`currSect, this`orgClust, this`chain
      modifies fs`winsect, fs`winflag, fs`lastClust, fs`freeClust, fs.win, fs.disk
      ensures fs.Valid() && fs.SameDisk() && fs.Store() == old(fs.Store())
      ensures r.Moved? ==> Good(size) && At(fptr / 512) && Extends(old(fs.Fat()), fs.Fat(), old(chain), chain)
      ensures r.DiskFull? ==> Good(size) && fs.Fat() == old(fs.Fat()) && chain == old(chain)
      ensures r.DiskFull? ==> Free(fs.Fat()) == 0 && !Covers(fs.g, chain, fptr / 512) && sectClust == 0
      ensures r.Failed? ==> fs.disk.Faults() > old(fs.disk.Faults())
      ensures fs.winsect == old(fs.winsect) || fs.winsect < fs.g.database
      ensures r.Moved? && chain != old(chain) ==> fs.winsect < fs.g.database
      ensures r.Moved? ==> fs.winsect < fs.g.database || unchanged(fs, fs.win, fs.disk)
      ensures old(fptr) == 0 && old(orgClust) != 0 ==> unchanged(fs, fs.win, fs.disk)
    {
      hide FATFS.Fat, FATFS.Store, FATFS.Valid, IsChain, WellFormed, Extends, AtSector, IsFile, Geometry.Clust2Sect;
      hide Holds, Covers;
      FirstCluster(fs.g, fs.Fat(), orgClust, chain, size);
      if fptr > 0 {
        LeftInCluster(fs.g, chain, (fptr - 1) / 512, currClust, currSect, sectClust);
      }
      ExtendsSelf(fs.g, fs.Fat(), chain);
      sectClust := (sectClust - 1) % 256;
      var sect;
      if sectClust != 0 {
        StepWithin(fs.g, chain, (fptr - 1) / 512, currClust, currSect, sectClust + 1);
        sect := currSect + 1;
      } else {
        var clust := ClusterToWrite(size);
        if clust == 0 { return DiskFull; }
        if clust == 1 || clust >= fs.g.maxClust { return Failed; }
        currClust := clust;
        sect := fs.g.Clust2Sect(clust);
        sectClust := fs.g.sectsClust;
      }
      currSect := sect;
      r := Moved;
    }

    /** What f_write has achieved after done of n bytes of buf put at position p: the
        chain has grown from ch0, the file holds the bytes, and no sector of another
        file has changed. */
    ghost predicate Wrote(fat0: seq<nat>, ch0: seq<nat>, st0: seq<Sector>, data: seq<Byte>, p: nat, n: nat,
            buf: seq<Byte>, done: nat)
      reads this, fs, fs.disk, fs.win
    {
      && p <= |data| == fsize && done <= n <= |buf| && fptr == p + done
      && Good(Max(fsize, fptr)) && Extends(fat0, fs.Fat(), ch0, chain)
      && SameOutside(fs.g, chain, st0, fs.Store())
      && Content(fs.g, fs.Store(), chain, Max(fsize, fptr)) == Overwritten(data, p, buf, done)
      && Clear(p, n)
      && (fptr % 512 != 0 && done < n ==> done == 0)
    }

    /** Moving on to the next sector, with or without a new cluster, keeps all that. */
    lemma WroteAfterStep(fat0: seq<nat>, ch0: seq<nat>, st0: seq<Sector>, data: seq<Byte>, p: nat, n: nat,
            buf: seq<Byte>, done: nat, fat: seq<nat>, ch: seq<nat>, st: seq<Sector>, was: nat)
      requires p <= |data| == fsize && done <= n <= |buf| && fptr == p + done
      requires Good(Max(fsize, fptr)) && fs.Store() == st && fptr % 512 == 0
      requires Clusters(fs.g, ch) && ChainOrNone(fat, ch) && Holds(fs.g, ch, Max(fsize, fptr))
      requires Extends(fat0, fat, ch0, ch) && Extends(fat, fs.Fat(), ch, chain)
      requires SameOutside(fs.g, ch, st0, st)
      requires Content(fs.g, st, ch, Max(fsize, fptr)) == Overwritten(data, p, buf, done)
      requires ClearOf(fs.g, ch, p, n, was)
      requires fs.winsect == was || fs.winsect < fs.g.database
      requires chain != ch ==> fs.winsect < fs.g.database
      ensures Wrote(fat0, ch0, st0, data, p, n, buf, done)
    {
      hide FATFS.Fat, FATFS.Store, FATFS.Valid, IsChain, WellFormed, SameOutside, Content, InChain;
      ExtendsTrans(fat0, fat, fs.Fat(), ch0, ch, chain);
      SameOutsideLonger(fs.g, ch, chain, st0, st);
      ContentOfLonger(fs.g, st, ch, chain, Max(fsize, fptr));
      if fs.winsect < fs.g.database {
        ClearOfData(fs.g, chain, p, n, fs.winsect);
      }
    }

    /** f_write's transfer of cc whole sectors, past the window. */
    method PutWhole(buff: array<Byte>, bw: nat, cc: nat, ghost fat0: seq<nat>, ghost ch0: seq<nat>,
            ghost st0: seq<Sector>, ghost data: seq<Byte>, ghost p: nat, ghost n: nat)
      returns (ok: bool, wcnt: nat)
      requires buff != fs.win && Wrote(fat0, ch0, st0, data, p, n, buff[..], bw)
      requires fptr % 512 == 0 && At(fptr / 512) && 1 <= cc <= sectClust && bw + 512 * cc <= n
      modifies this`sectClust, this`currSect, this`fptr, fs.disk
      ensures fs.Valid() && fs.SameDisk() && fs.Fat() == old(fs.Fat())
      ensures ok ==> 0 < wcnt == 512 * cc && Wrote(fat0, ch0, st0, data, p, n, buff[..], bw + wcnt) && Cursor()
      ensures !ok ==> fs.disk.Faults() > old(fs.disk.Faults())
      ensures fs.winsect == old(fs.winsect) && fs.winflag == old(fs.winflag)
    {
      hide FATFS.Fat, FATFS.Store, FATFS.Valid, WellFormed, AtSector, Content, InChain, ClearOf, Extends, IsFile;
      hide Overwritten, SameOutside, Holds, Covers, Full, IsCluster, PowerOfTwo;
      wcnt := 512 * cc;
      ghost var clust, sect, left, st := currClust, currSect, sectClust, fs.Store();
      FirstCluster(fs.g, fs.Fat(), orgClust, chain, Max(fsize, fptr));
      ClearOfWrite(p, n, cc);
      SectorOf(fptr, wcnt);
      ok := WriteRun(buff, bw, cc);
      if !ok { return; }
      WholeWritten(fs.g, fs.Fat(), orgClust, chain, st0, st, fs.Store(), data, p, buff[..], bw, clust, sect, left, cc);
      fptr := fptr + wcnt;
    }

    /** As many of cc whole sectors as are left in the cluster. */
    method PutRun(buff: array<Byte>, bw: nat, btw: nat, cc0: nat, ghost fat0: seq<nat>, ghost ch0: seq<nat>,
            ghost st0: seq<Sector>, ghost data: seq<Byte>, ghost p: nat, ghost n: nat)
      returns (ok: bool, wcnt: nat)
      requires buff != fs.win && Wrote(fat0, ch0, st0, data, p, n, buff[..], bw) && 1 <= sectClust
      requires fptr % 512 == 0 && At(fptr / 512) && 1 <= cc0 == btw / 512 && btw == n - bw
      modifies this`sectClust, this`currSect, this`fptr, fs.disk
      ensures fs.Valid() && fs.SameDisk()
      ensures ok ==> 0 < wcnt <= btw && Wrote(fat0, ch0, st0, data, p, n, buff[..], bw + wcnt) && Cursor()
      ensures ok ==> fptr % 512 == 0 && (old(Ahead()) ==> Ahead())
      ensures !ok ==> fs.disk.Faults() > old(fs.disk.Faults())
      ensures fs.winsect == old(fs.winsect) && fs.winflag == old(fs.winflag)
    {
      hide FATFS.Fat, FATFS.Store, FATFS.Valid, WellFormed, AtSector, Content, InChain, ClearOf, Extends, IsFile;
      hide Overwritten, SameOutside, Holds, Covers, AheadOf, FIL.Wrote;
      var cc := cc0;
      if cc > sectClust {
        cc := sectClust;
      }
      WholeStays(fptr, cc);
      WroteStops(fat0, ch0, st0, data, p, n, buff[..], bw);
      ghost var at := fptr;
      ok, wcnt := PutWhole(buff, bw, cc, fat0, ch0, st0, data, p, n);
      if !ok { return; }
      WroteStops(fat0, ch0, st0, data, p, n, buff[..], bw + wcnt);
      if AheadOf(fs.g, chain, at, fs.winsect) {
        AheadLater(fs.g, chain, at, fptr, fs.winsect);
      }
    }

    lemma ClearOfWrite(p: nat, n: nat, cc: nat)
      requires Clusters(fs.g, chain) && At(fptr / 512) && 1 <= cc <= sectClust && Clear(p, n)
      requires fptr % 512 == 0 && p <= fptr && fptr + 512 * cc <= p + n
      ensures !(currSect <= fs.winsect < currSect + cc)
    {
      if currSect <= fs.winsect < currSect + cc {
        var k, i := fptr / 512, fs.winsect - currSect;
        RunOfSectors(fs.g, chain, k, currClust, currSect, sectClust, i);
        assert Full(p, n, k + i);
      }
    }

    /** f_write's transfer of part of a sector, through the window. */
    method PutPiece(buff: array<Byte>, bw: nat, btw: nat, isNew: bool, ghost fat0: seq<nat>, ghost ch0: seq<nat>,
            ghost st0: seq<Sector>, ghost data: seq<Byte>, ghost p: nat, ghost n: nat)
      returns (ok: bool, wcnt: nat)
      requires buff != fs.win && Wrote(fat0, ch0, st0, data, p, n, buff[..], bw)
      requires At(fptr / 512) && 0 < btw == n - bw && (fptr % 512 == 0 ==> btw < 512)
      requires isNew ==> fptr % 512 == 0 && fptr >= fsize
      modifies this`fptr, fs`winsect, fs`winflag, fs.win, fs.disk
      ensures fs.Valid() && fs.SameDisk() && fs.Fat() == old(fs.Fat())
      ensures ok ==> 0 < wcnt <= btw && Wrote(fat0, ch0, st0, data, p, n, buff[..], bw + wcnt) && Cursor()
      ensures ok ==> fs.winsect == currSect && (old(fptr) % 512 == 0 ==> wcnt == btw && fptr % 512 != 0)
      ensures ok ==> fs.winflag && (!old(fs.winflag) ==> fs.disk.sectors == old(fs.disk.sectors))
      ensures !ok ==> fs.disk.Faults() > old(fs.disk.Faults())
    {
      hide FATFS.Fat, FATFS.Store, FATFS.Valid, IsChain, WellFormed, AtSector, Content, InChain, ClearOf, Extends;
      hide IsFile, Overwritten, SameOutside, Holds, Covers, Full, IsCluster, PowerOfTwo, SectorNo;
      ghost var k, st := fptr / 512, fs.Store();
      FirstCluster(fs.g, fs.Fat(), orgClust, chain, Max(fsize, fptr));
      LeftInCluster(fs.g, chain, k, currClust, currSect, sectClust);
      WholeRun(fs.g, chain, k, currClust, currSect, sectClust, 1);
      var off := fptr % 512;
      wcnt := 512 - off;
      if wcnt > btw {
        wcnt := btw;
      }
      ok := fs.WritePart(isNew, currSect, off, buff, bw, wcnt);
      if !ok { return; }
      PieceWritten(fs.g, fs.Fat(), orgClust, chain, st0, st, fs.Store(), data, p, buff[..], bw, currClust, currSect,
        sectClust, wcnt, isNew);
      PieceNotFull(p, n, bw, wcnt, bw);
      ClearAtPiece(p, n, k);
      SectorOf(fptr, wcnt);
      fptr := fptr + wcnt;
    }

    lemma ClearAtPiece(p: nat, n: nat, k: nat)
      requires Clusters(fs.g, chain) && At(k) && !Full(p, n, k) && fs.winsect == currSect
      ensures Clear(p, n)
    {
      forall j | Covers(fs.g, chain, j) && Full(p, n, j)
        ensures SectorNo(fs.g, chain, j) != currSect
      {
        if SectorNo(fs.g, chain, j) == SectorNo(fs.g, chain, k) {
          SectorInjective(fs.g, chain, j, k);
        }
      }
    }

    /** A few bytes are written at the top of a file that has clusters, and the window is
        clean. */
    predicate AtTop(n: nat)
      reads this, fs
    {
      fptr == 0 && orgClust != 0 && 0 < n < 512 && !fs.winflag
    }

    /** One turn of the loop of f_write, for the btw bytes still to go: wcnt bytes are
        written, or the disk is full, or a disk call failed. */
    method WriteTurn(buff: array<Byte>, bw: nat, btw: nat, ghost fat0: seq<nat>, ghost ch0: seq<nat>,
            ghost st0: seq<Sector>, ghost data: seq<Byte>, ghost p: nat, ghost n: nat)
      returns (r: Advance, wcnt: nat)
      requires buff != fs.win && Wrote(fat0, ch0, st0, data, p, n, buff[..], bw) && Cursor() && 0 < btw == n - bw
      modifies this`sectClust, this`currClust, this`currSect, this`orgClust, this`chain, this`fptr
      modifies fs`winsect, fs`winflag, fs`lastClust, fs`freeClust, fs.win, fs.disk
      ensures fs.Valid() && fs.SameDisk()
      ensures r.Moved? ==> 0 < wcnt <= btw && Wrote(fat0, ch0, st0, data, p, n, buff[..], bw + wcnt) && Cursor()
      ensures r.DiskFull? ==> Wrote(fat0, ch0, st0, data, p, n, buff[..], bw) && fptr % 512 == 0
      ensures r.DiskFull? ==> Free(fs.Fat()) == 0 && sectClust == 0 && !Covers(fs.g, chain, fptr / 512)
      ensures r.Failed? ==> fs.disk.Faults() > old(fs.disk.Faults())
      ensures old(Ahead()) && r.Moved? ==> Ahead()
      ensures r.Moved? ==> TurnWindow(old(fptr), old(currSect), old(fs.winsect), old(fs.winflag))
      ensures r.Moved? && chain != old(chain) && fptr % 512 == 0 ==> fs.winsect < fs.g.database
      ensures r.Moved? && old(AtTop(btw)) ==>
        wcnt == btw && fs.winflag && fs.disk.sectors == old(fs.disk.sectors)
    {
      hide Clusters, FATFS.Fat, FATFS.Store, FATFS.Valid, IsChain, WellFormed, AtSector, Content, InChain, ClearOf;
      hide Extends, Overwritten, SameOutside, AheadOf, IsFile, Holds, Covers;
      wcnt := 0;
      var isNew, ok := false, true;
      SectorOf(fptr, 1);
      if fptr % 512 == 0 {
        r := AdvanceTo(buff, bw, fat0, ch0, st0, data, p, n);
        if r != Moved { return; }
        var cc := btw / 512;
        if cc != 0 {
          ok, wcnt := PutRun(buff, bw, btw, cc, fat0, ch0, st0, data, p, n);
          r := if ok then Moved else Failed;
          return;
        }
        isNew := fptr >= fsize;
      }
      ok, wcnt := PutPiece(buff, bw, btw, isNew, fat0, ch0, st0, data, p, n);
      r := if ok then Moved else Failed;
      if ok {
        FirstCluster(fs.g, fs.Fat(), orgClust, chain, Max(fsize, fptr));
        AheadOfPiece(fs.g, chain, fptr, currClust, currSect, sectClust);
      }
    }

    /** StepWrite in the midst of a transfer. */
    method AdvanceTo(buff: array<Byte>, bw: nat, ghost fat0: seq<nat>, ghost ch0: seq<nat>, ghost st0: seq<Sector>,
            ghost data: seq<Byte>, ghost p: nat, ghost n: nat)
      returns (r: Advance)
      requires buff != fs.win && Wrote(fat0, ch0, st0, data, p, n, buff[..], bw) && Cursor() && fptr % 512 == 0
      modifies this`sectClust, this`currClust, this`currSect, this`orgClust, this`chain
      modifies fs`winsect, fs`winflag, fs`lastClust, fs`freeClust, fs.win, fs.disk
      ensures fs.Valid() && fs.SameDisk()
      ensures !r.Failed? ==> Wrote(fat0, ch0, st0, data, p, n, buff[..], bw)
      ensures r.Moved? ==> At(fptr / 512) && 1 <= sectClust
      ensures r.DiskFull? ==> Free(fs.Fat()) == 0 && sectClust == 0 && !Covers(fs.g, chain, fptr / 512)
      ensures r.Failed? ==> fs.disk.Faults() > old(fs.disk.Faults())
      ensures old(Ahead()) && r.Moved? ==> Ahead()
      ensures r.Moved? ==> fs.winsect < fs.g.database || unchanged(fs, fs.win, fs.disk)
      ensures r.Moved? && chain != old(chain) ==> fs.winsect < fs.g.database
      ensures old(fptr) == 0 && old(orgClust) != 0 ==> unchanged(fs, fs.win, fs.disk)
    {
      hide FATFS.Fat, FATFS.Store, FATFS.Valid, IsChain, WellFormed, AtSector, Content, InChain, ClearOf, Extends;
      hide Overwritten, SameOutside, AheadOf;
      ghost var fat, ch, was := fs.Fat(), chain, fs.winsect;
      FirstCluster(fs.g, fat, orgClust, ch, Max(fsize, fptr));
      r := StepWrite(Max(fsize, fptr));
      if r == Failed { return; }
      if r == DiskFull {
        ExtendsSelf(fs.g, fat, ch);
      }
      WroteAfterStep(fat0, ch0, st0, data, p, n, buff[..], bw, fat, ch, fs.Store(), was);
      if r == Moved {
        LeftInCluster(fs.g, chain, fptr / 512, currClust, currSect, sectClust);
        if fs.winsect < fs.g.database {
          FirstCluster(fs.g, fs.Fat(), orgClust, chain, Max(fsize, fptr));
          AheadOfData(fs.g, chain, fptr, fs.winsect);
        }
      }
    }

    /** The 32-bit test at the head of f_write: the size would pass 4 GB. */
    predicate TooBig(btw: nat)
      reads this
    {
      (fsize + btw) % 0x1_0000_0000 < fsize
    }

    /** The chain and the free clusters of the volume are enough for n bytes. */
    ghost predicate HasRoom(n: nat)
      requires fs.Valid() && fs.g.Valid()
      reads this, fs, fs.disk, fs.win
    {
      Needed(fs.g, n) <= |chain| + Free(fs.Fat())
    }

    /** f_write. The caller's bytes replace and extend what the file holds from the
        pointer on; the chain grows by free clusters; nothing else changes. Fewer bytes
        are written only when the disk is full, and then the cursor is lost. */
    method Write(buff: array<Byte>, btw0: nat) returns (res: FResult, bw: nat)
      requires Valid() && Cursor() && WellFormed(fs.Fat()) && buff != fs.win && btw0 <= buff.Length && btw0 < 0x1_0000
      requires Clear(fptr, btw0)
      modifies this`sectClust, this`currClust, this`currSect, this`orgClust, this`chain, this`fptr, this`fsize
      modifies this`written, this`error
      modifies fs`winsect, fs`winflag, fs`lastClust, fs`freeClust, fs.win, fs.disk
      ensures fs.Valid() && fs.SameDisk()
      ensures old(Refusal(canWrite)) != FR_OK || old(TooBig(btw0)) ==>
        && bw == 0 && Valid() && Cursor() && fptr == old(fptr) && written == old(written)
        && fs.Fat() == old(fs.Fat()) && fs.Store() == old(fs.Store())
      ensures old(Refusal(canWrite)) != FR_OK ==> res == old(Refusal(canWrite))
      ensures old(Refusal(canWrite)) == FR_OK ==>
        res == FR_OK || (res == FR_RW_ERROR && error && fs.disk.Faults() > old(fs.disk.Faults()))
      ensures res == FR_OK ==> Valid() && WellFormed(fs.Fat()) && error == old(error) && bw <= btw0
      ensures res == FR_OK ==> fptr == old(fptr) + bw && Data() == Overwritten(old(Data()), old(fptr), buff[..], bw)
      ensures res == FR_OK ==>
        Extends(old(fs.Fat()), fs.Fat(), old(chain), chain) && SameOutside(fs.g, chain, old(fs.Store()), fs.Store())
      ensures res == FR_OK && !old(TooBig(btw0)) ==> written
      ensures res == FR_OK && !old(TooBig(btw0)) ==> (bw == btw0 <==> old(HasRoom(fptr + btw0)))
      ensures res == FR_OK && !old(TooBig(btw0)) ==> (Cursor() <==> old(HasRoom(fptr + btw0)))
      ensures res == FR_OK && bw == btw0 ==> Cursor() && (old(Ahead()) ==> Ahead())
      ensures res == FR_OK && bw == btw0 ==> WindowIs(old(fptr), bw, old(currSect), old(fs.winsect), old(fs.winflag))
      ensures res == FR_OK && bw == btw0 ==> WindowGrown(old(fptr), old(chain))
      ensures res == FR_OK && bw == btw0 && old(AtTop(btw0)) && !old(TooBig(btw0)) ==>
        fs.winflag && fs.disk.sectors == old(fs.disk.sectors)
      ensures res == FR_OK && bw < btw0 && !old(TooBig(btw0)) ==>
        Free(fs.Fat()) == 0 && fptr % 512 == 0 && !Covers(fs.g, chain, fptr / 512) && sectClust == 0
    {
      hide FATFS.Fat, FATFS.Store, FATFS.Valid, IsChain, WellFormed, AtSector, Content, InChain, ClearOf, Extends;
      hide Overwritten, SameOutside, AheadOf, IsFile, Needed, Covers, Free;
      bw := 0;
      res := Refusal(canWrite);
      FirstCluster(fs.g, fs.Fat(), orgClust, chain, fsize);
      ExtendsSelf(fs.g, fs.Fat(), chain);
      SameOutsideSelf(fs.g, chain, fs.Store());
      OverwrittenNone(Data(), fptr, buff[..]);
      if res != FR_OK { return; }
      if (fsize + btw0) % 0x1_0000_0000 < fsize { return; }
      res, bw := WriteBytes(buff, btw0);
    }

    /** F_write past its checks. */
    method WriteBytes(buff: array<Byte>, btw0: nat) returns (res: FResult, bw: nat)
      requires Valid() && Cursor() && WellFormed(fs.Fat()) && buff != fs.win && btw0 <= buff.Length && btw0 < 0x1_0000
      requires Clear(fptr, btw0) && !TooBig(btw0)
      modifies this`sectClust, this`currClust, this`currSect, this`orgClust, this`chain, this`fptr, this`fsize
      modifies this`written, this`error
      modifies fs`winsect, fs`winflag, fs`lastClust, fs`freeClust, fs.win, fs.disk
      ensures fs.Valid() && fs.SameDisk()
      ensures res == FR_OK || (res == FR_RW_ERROR && error && fs.disk.Faults() > old(fs.disk.Faults()))
      ensures res == FR_OK ==>
        && Valid() && WellFormed(fs.Fat()) && error == old(error) && bw <= btw0 && written
        && fptr == old(fptr) + bw && Data() == Overwritten(old(Data()), old(fptr), buff[..], bw)
        && Extends(old(fs.Fat()), fs.Fat(), old(chain), chain) && SameOutside(fs.g, chain, old(fs.Store()), fs.Store())
      ensures res == FR_OK ==> (bw == btw0 <==> old(HasRoom(fptr + btw0))) && (Cursor() <==> bw == btw0)
      ensures res == FR_OK && bw == btw0 ==> old(Ahead()) ==> Ahead()
      ensures res == FR_OK && bw == btw0 ==> WindowIs(old(fptr), bw, old(currSect), old(fs.winsect), old(fs.winflag))
      ensures res == FR_OK && bw == btw0 ==> WindowGrown(old(fptr), old(chain))
      ensures res == FR_OK && bw == btw0 && old(AtTop(btw0)) ==> fs.winflag && fs.disk.sectors == old(fs.disk.sectors)
      ensures res == FR_OK && bw < btw0 ==>
        Free(fs.Fat()) == 0 && fptr % 512 == 0 && !Covers(fs.g, chain, fptr / 512) && sectClust == 0
    {
      hide FATFS.Fat, FATFS.Store, FATFS.Valid, IsChain, WellFormed, AtSector, Content, InChain, ClearOf, Extends;
      hide Overwritten, SameOutside, AheadOf, IsFile, Needed, Covers, Free;
      FirstCluster(fs.g, fs.Fat(), orgClust, chain, fsize);
      ExtendsSelf(fs.g, fs.Fat(), chain);
      SameOutsideSelf(fs.g, chain, fs.Store());
      OverwrittenNone(Data(), fptr, buff[..]);
      ghost var p, data, fat0, ch0, st0 := fptr, Data(), fs.Fat(), chain, fs.Store();
      var r;
      r, bw := WriteLoop(buff, btw0, fat0, ch0, st0, data, p);
      if r == Failed {
        error := true;
        return FR_RW_ERROR, bw;
      }
      WroteAll(fat0, ch0, st0, data, p, btw0, buff[..], bw);
      if fptr > fsize {
        fsize := fptr;
      }
      written := true;
      LostCursor();
      res := FR_OK;
    }

    /** When f_write has written everything. */
    lemma WroteAll(fat0: seq<nat>, ch0: seq<nat>, st0: seq<Sector>, data: seq<Byte>, p: nat, n: nat, buf: seq<Byte>,
            done: nat)
      requires Wrote(fat0, ch0, st0, data, p, n, buf, done)
      requires done < n ==> Free(fs.Fat()) == 0 && !Covers(fs.g, chain, fptr / 512)
      ensures fs.g.Valid() && (done == n <==> Needed(fs.g, p + n) <= |ch0| + Free(fat0))
    {
      hide FATFS.Fat, FATFS.Store, FATFS.Valid, WellFormed, SameOutside, Content, Overwritten, Extends, Needed, Covers;
      hide ClearOf;
      FirstCluster(fs.g, fs.Fat(), orgClust, chain, Max(fsize, fptr));
      NeededLess(fs.g, chain, Max(fsize, fptr), fptr);
      WriteFits(fs.g, fat0, fs.Fat(), ch0, chain, p, done, n);
    }

    lemma WroteStops(fat0: seq<nat>, ch0: seq<nat>, st0: seq<Sector>, data: seq<Byte>, p: nat, n: nat, buf: seq<Byte>,
            done: nat)
      requires Wrote(fat0, ch0, st0, data, p, n, buf, done)
      ensures fptr == p + done && (fptr % 512 != 0 && done < n ==> done == 0)
    {
    }

    lemma LostCursor()
      ensures sectClust == 0 ==> !Cursor()
    {
    }

    /** The loop of f_write. */
    method WriteLoop(buff: array<Byte>, btw0: nat, ghost fat0: seq<nat>, ghost ch0: seq<nat>, ghost st0: seq<Sector>,
            ghost data: seq<Byte>, ghost p: nat)
      returns (r: Advance, bw: nat)
      requires buff != fs.win && btw0 <= buff.Length && Wrote(fat0, ch0, st0, data, p, btw0, buff[..], 0) && Cursor()
      modifies this`sectClust, this`currClust, this`currSect, this`orgClust, this`chain, this`fptr
      modifies fs`winsect, fs`winflag, fs`lastClust, fs`freeClust, fs.win, fs.disk
      ensures fs.Valid() && fs.SameDisk() && bw <= btw0
      ensures r.Failed? ==> fs.disk.Faults() > old(fs.disk.Faults())
      ensures !r.Failed? ==> Wrote(fat0, ch0, st0, data, p, btw0, buff[..], bw)
      ensures r.Moved? ==> bw == btw0 && Cursor() && (old(Ahead()) ==> Ahead())
      ensures r.Moved? ==> WindowIs(p, bw, old(currSect), old(fs.winsect), old(fs.winflag))
      ensures r.Moved? ==> WindowGrown(p, old(chain))
      ensures r.Moved? && old(AtTop(btw0)) ==> fs.winflag && fs.disk.sectors == old(fs.disk.sectors)
      ensures r.DiskFull? ==>
        bw < btw0 && Free(fs.Fat()) == 0 && fptr % 512 == 0 && !Covers(fs.g, chain, fptr / 512) && sectClust == 0
    {
      hide FIL.Wrote, AtSector, AheadOf, FATFS.Fat, FATFS.Valid, Covers;
      var btw := btw0;
      bw := 0;
      r := Moved;
      assert fs.Valid() by { GoodParts(fat0, ch0, st0, data, p, btw0, buff[..], 0); }
      while btw != 0
        invariant Wrote(fat0, ch0, st0, data, p, btw0, buff[..], bw) && Cursor() && bw + btw == btw0
        invariant fs.Valid() && fs.SameDisk() && r == Moved
        invariant old(Ahead()) ==> Ahead()
        invariant WindowIs(p, bw, old(currSect), old(fs.winsect), old(fs.winflag))
        invariant bw == 0 ==> currSect == old(currSect)
        invariant WindowGrown(p, old(chain)) && (bw == 0 ==> chain == old(chain))
        invariant bw == 0 ==> unchanged(this, fs)
        invariant old(AtTop(btw0)) ==> fs.disk.sectors == old(fs.disk.sectors) && (bw == 0 || (btw == 0 && fs.winflag))
      {
        WroteStops(fat0, ch0, st0, data, p, btw0, buff[..], bw);
        var wcnt;
        ghost var last, now, dirty := currSect, fs.winsect, fs.winflag;
        r, wcnt := WriteTurn(buff, bw, btw, fat0, ch0, st0, data, p, btw0);
        if r != Moved { return; }
        WroteStops(fat0, ch0, st0, data, p, btw0, buff[..], bw + wcnt);
        WindowTurn(p, bw, wcnt, old(fs.winsect), old(currSect), last, now, dirty && !old(fs.winflag),
          currSect, fs.winsect, fs.winflag && !old(fs.winflag), fs.g.database);
        bw := bw + wcnt;
        btw := btw - wcnt;
      }
    }

    lemma GoodParts(fat0: seq<nat>, ch0: seq<nat>, st0: seq<Sector>, data: seq<Byte>, p: nat, n: nat, buf: seq<Byte>,
            done: nat)
      requires Wrote(fat0, ch0, st0, data, p, n, buf, done)
      ensures fs.Valid()
    {
    }

    // ----- f_lseek

    /** The file is intact while f_lseek follows or stretches its chain. */
    ghost predicate Seeking(fat0: seq<nat>, ch0: seq<nat>)
      reads this, fs, fs.disk, fs.win
    {
      && fs.Valid() && IsFile(fs.g, fs.Fat(), orgClust, chain, fsize)
      && Extends(fat0, fs.Fat(), ch0, chain)
      && (canWrite ==> WellFormed(fs.Fat()))
      && (!canWrite ==> fs.Fat() == fat0 && chain == ch0)
    }

    /** The next cluster on the way: forced to exist in write mode, only followed
        otherwise. */
    method Follow(ghost i: nat, clust: nat, ghost fat0: seq<nat>, ghost ch0: seq<nat>) returns (next: nat)
      requires Seeking(fat0, ch0) && i < |chain| && clust == chain[i]
      requires !canWrite ==> i + 1 < |chain|
      modifies this`chain, fs`winsect, fs`winflag, fs`lastClust, fs`freeClust, fs.win, fs.disk
      ensures fs.Valid() && fs.SameDisk() && fs.Store() == old(fs.Store())
      ensures next == 0 ==> Seeking(fat0, ch0) && chain == old(chain) && Free(fs.Fat()) == 0 && |chain| == i + 1
      ensures next == 1 || next >= fs.g.maxClust ==> fs.disk.Faults() > old(fs.disk.Faults())
      ensures next > 1 ==> Seeking(fat0, ch0) && old(chain) <= chain && i + 1 < |chain| && chain[i + 1] == next
      ensures next > 1 && i + 1 < old(|chain|) ==> chain == old(chain) && fs.Fat() == old(fs.Fat())
      ensures !canWrite && fs.winflag ==> old(fs.winflag) && fs.winsect == old(fs.winsect)
      ensures fs.winsect == old(fs.winsect) || fs.winsect < fs.g.database
      ensures next > 1 ==> fs.winsect < fs.g.database
    {
      hide FATFS.Fat, FATFS.Store, FATFS.Valid, WellFormed, Extends, NoneFreeIn;
      ghost var fat, ch := fs.Fat(), chain;
      ExtendsSelf(fs.g, fat, ch);
      LinkAt(fat, ch, i);
      if canWrite {
        NeverRefused(fat, clust);
        next := fs.CreateChain(clust);
        assert next == 0 ==> Free(fat) == 0 by { if next == 0 { NoneFree(fat, 2); } }
        if next > 1 && i + 1 == |ch| {
          GrowFile(fs.g, fat, orgClust, ch, fsize, next, fs.g.EndMark());
          chain := ch + [next];
          ExtendsTrans(fat0, fat, fs.Fat(), ch0, ch, chain);
        }
      } else {
        next := fs.GetCluster(clust);
      }
    }

    /** Where f_lseek leaves the cursor: at byte ofs, or at the end of the chain on a
        full volume. */
    ghost predicate Sought(ofs: nat)
      reads this, fs, fs.disk, fs.win
    {
      && fs.Valid() && fptr <= ofs && Holds(fs.g, chain, fptr)
      && if fptr == ofs then Cursor()
         else && Free(fs.Fat()) == 0 && !Holds(fs.g, chain, ofs)
              && if chain == [] then fptr == 0 && sectClust == 1
                 else fptr == 512 * Times(|chain|, fs.g.sectsClust) && currSect == fs.g.sectsClust - 1
    }

    /** The body of f_lseek for a target other than 0 (tff.c, lines 1180-1210). */
    method SeekChain(ofs0: nat, ghost fat0: seq<nat>, ghost ch0: seq<nat>) returns (ok: bool)
      requires Seeking(fat0, ch0) && fptr == 0 && sectClust == 1 && ofs0 > 0 && (!canWrite ==> ofs0 <= fsize)
      modifies this`sectClust, this`currClust, this`currSect, this`orgClust, this`chain, this`fptr
      modifies fs`winsect, fs`winflag, fs`lastClust, fs`freeClust, fs.win, fs.disk
      ensures fs.Valid() && fs.SameDisk() && fs.Store() == old(fs.Store())
      ensures ok ==> Seeking(fat0, ch0) && Sought(ofs0)
      ensures !ok ==> fs.disk.Faults() > old(fs.disk.Faults())
      ensures !canWrite && fs.winflag ==> old(fs.winflag) && fs.winsect == old(fs.winsect)
      ensures fs.winsect == old(fs.winsect) || fs.winsect < fs.g.database
      ensures ok && ofs0 <= fsize ==> chain == old(chain) && fs.Fat() == old(fs.Fat())
      ensures ok && chain != old(chain) ==> fs.winsect < fs.g.database
      ensures ok && fptr == ofs0 ==> fs.winsect < fs.g.database || unchanged(fs, fs.win, fs.disk)
    {
      hide FATFS.Fat, FATFS.Store, FATFS.Valid, WellFormed, Extends, IsFile, AtSector, NoneFreeIn;
      var ofs, clust := ofs0, orgClust;
      ghost var fat, ch := fs.Fat(), chain;
      FirstCluster(fs.g, fat, orgClust, ch, fsize);
      if clust == 0 {
        NeverRefused(fat, 0);
        clust := fs.CreateChain(0);
        if clust == 1 { return false; }
        orgClust := clust;
        if clust == 0 {
          NoneFree(fat, 2);
        } else {
          GrowFile(fs.g, fat, 0, ch, fsize, clust, fs.g.EndMark());
          chain := ch + [clust];
          ExtendsTrans(fat0, fat, fs.Fat(), ch0, ch, chain);
        }
      }
      ok := true;
      if clust != 0 {
        ok := SeekLoop(ofs, clust, fat0, ch0);
      }
    }

    /** The loop that skips the leading clusters, and the final placement. */
    method SeekLoop(ofs0: nat, org: nat, ghost fat0: seq<nat>, ghost ch0: seq<nat>) returns (ok: bool)
      requires Seeking(fat0, ch0) && fptr == 0 && ofs0 > 0 && (!canWrite ==> ofs0 <= fsize)
      requires chain != [] && chain[0] == org
      modifies this`sectClust, this`currClust, this`currSect, this`chain, this`fptr
      modifies fs`winsect, fs`winflag, fs`lastClust, fs`freeClust, fs.win, fs.disk
      ensures fs.Valid() && fs.SameDisk() && fs.Store() == old(fs.Store())
      ensures ok ==> Seeking(fat0, ch0) && Sought(ofs0)
      ensures !ok ==> fs.disk.Faults() > old(fs.disk.Faults())
      ensures !canWrite && fs.winflag ==> old(fs.winflag) && fs.winsect == old(fs.winsect)
      ensures fs.winsect == old(fs.winsect) || fs.winsect < fs.g.database
      ensures ok && ofs0 <= fsize ==> chain == old(chain) && fs.Fat() == old(fs.Fat())
      ensures ok && chain != old(chain) ==> fs.winsect < fs.g.database
      ensures ok && fptr == ofs0 ==> fs.winsect < fs.g.database || unchanged(fs, fs.win, fs.disk)
    {
      hide FATFS.Fat, FATFS.Store, FATFS.Valid, WellFormed, Extends, IsFile, AtSector, Holds, Geometry.Clust2Sect;
      var csize := fs.g.sectsClust * 512;
      var clust, ofs;
      ghost var i;
      ok, clust, ofs, i := SkipClusters(ofs0, org, csize, fat0, ch0);
      if !ok { return; }
      if clust == 0 {
        HoldsNeeded(fs.g, chain, ofs0);
        SeekBeyond(fs.g, i, ofs0);
        NoClusterNoSector(fs.g);
        ofs := csize;
        assert (ofs - 1) / 512 == fs.g.sectsClust - 1;
      }
      SeekLands(fs.g, chain, i, ofs);
      Place(clust, ofs);
    }

    /** The loop itself: i clusters are skipped; it ends in the cluster of the target, or
        with clust = 0 at the last cluster of a full volume. */
    method SkipClusters(ofs0: nat, org: nat, csize: nat, ghost fat0: seq<nat>, ghost ch0: seq<nat>)
      returns (ok: bool, clust: nat, ofs: nat, ghost i: nat)
      requires Seeking(fat0, ch0) && fptr == 0 && ofs0 > 0 && (!canWrite ==> ofs0 <= fsize)
      requires chain != [] && chain[0] == org && csize == 512 * fs.g.sectsClust
      modifies this`currClust, this`chain, this`fptr, fs`winsect, fs`winflag, fs`lastClust, fs`freeClust, fs.win
      modifies fs.disk
      ensures fs.Valid() && fs.SameDisk() && fs.Store() == old(fs.Store())
      ensures !ok ==> fs.disk.Faults() > old(fs.disk.Faults())
      ensures !canWrite && fs.winflag ==> old(fs.winflag) && fs.winsect == old(fs.winsect)
      ensures fs.winsect == old(fs.winsect) || fs.winsect < fs.g.database
      ensures ok && ofs0 <= fsize ==> chain == old(chain) && fs.Fat() == old(fs.Fat())
      ensures ok && chain != old(chain) ==> fs.winsect < fs.g.database
      ensures ok ==> Seeking(fat0, ch0) && i < |chain| && currClust == chain[i]
      ensures ok ==> fptr == 512 * Times(i, fs.g.sectsClust) && fptr + ofs == ofs0
      ensures ok && clust != 0 ==> clust == chain[i] && 0 < ofs <= csize
      ensures ok && clust != 0 ==> fs.winsect < fs.g.database || unchanged(fs, fs.win, fs.disk)
      ensures ok && clust == 0 ==> ofs > csize && |chain| == i + 1 && Free(fs.Fat()) == 0
    {
      hide FATFS.Fat, FATFS.Store, FATFS.Valid, WellFormed, Extends, IsFile, Holds, Needed;
      ghost var fat, ch := fs.Fat(), chain;
      ofs, clust, i, ok := ofs0, org, 0, true;
      FirstCluster(fs.g, fat, orgClust, ch, fsize);
      while true
        invariant Seeking(fat0, ch0) && fs.SameDisk() && fs.Store() == old(fs.Store()) && ok
        invariant !canWrite && fs.winflag ==> old(fs.winflag) && fs.winsect == old(fs.winsect)
        invariant fs.winsect == old(fs.winsect) || fs.winsect < fs.g.database
        invariant chain != ch ==> fs.winsect < fs.g.database
        invariant fs.winsect < fs.g.database || unchanged(fs, fs.win, fs.disk)
        invariant i < |chain| && clust == chain[i] && 0 < ofs && 2 <= clust
        invariant ofs0 <= fsize ==> chain == ch && fs.Fat() == fat
        invariant fptr == 512 * Times(i, fs.g.sectsClust) && fptr + ofs == ofs0
        decreases ofs
      {
        currClust := clust;
        if ofs <= csize { return; }
        if ofs0 <= fsize {
          HoldsNeeded(fs.g, ch, fsize);
          SeekBeyond(fs.g, i, fsize);
        }
        clust := Follow(i, clust, fat0, ch0);
        if clust == 0 { return; }
        if clust == 1 || clust >= fs.g.maxClust { ok := false; return; }
        fptr := fptr + csize;
        ofs := ofs - csize;
        i := i + 1;
      }
    }

    /** The last statements of f_lseek's body (tff.c, lines 1206-1209). */
    method Place(clust: nat, ofs: nat)
      requires 2 <= fs.g.maxClust && 0 < ofs && (ofs - 1) / 512 < fs.g.sectsClust <= 128
      modifies this`sectClust, this`currSect, this`fptr
      ensures currSect == fs.g.Clust2Sect(clust) + (ofs - 1) / 512
      ensures sectClust == fs.g.sectsClust - (ofs - 1) / 512 && fptr == old(fptr) + ofs
    {
      var csect := (ofs - 1) / 512;
      currSect := fs.g.Clust2Sect(clust) + csect;
      sectClust := fs.g.sectsClust - csect;
      fptr := fptr + ofs;
    }

    /** f_lseek. Without write access the target is cut to the size of the file. With
        it, a target past the end stretches the chain and the file. The pointer falls
        short of the target only when the volume has too few free clusters; then the
        sector number of the cursor is wrong, although nothing has failed. */
    method Seek(ofs0: nat) returns (res: FResult)
      requires Valid() && ofs0 < 0x1_0000_0000 && (canWrite ==> WellFormed(fs.Fat()))
      modifies this`sectClust, this`currClust, this`currSect, this`orgClust, this`chain, this`fptr, this`fsize
      modifies this`written, this`error
      modifies fs`winsect, fs`winflag, fs`lastClust, fs`freeClust, fs.win, fs.disk
      ensures fs.Valid() && fs.SameDisk() && fs.Store() == old(fs.Store())
      ensures old(Refusal(true)) != FR_OK ==>
        res == old(Refusal(true)) && Valid() && fptr == old(fptr) && (old(Cursor()) ==> Cursor())
      ensures old(Refusal(true)) == FR_OK ==>
        res == FR_OK || (res == FR_RW_ERROR && error && fs.disk.Faults() > old(fs.disk.Faults()))
      ensures res == FR_OK ==> Valid() && error == old(error) && (canWrite ==> WellFormed(fs.Fat()))
      ensures res == FR_OK ==> Extends(old(fs.Fat()), fs.Fat(), old(chain), chain)
      ensures res == FR_OK && !canWrite ==> fs.Fat() == old(fs.Fat()) && chain == old(chain)
      ensures res == FR_OK ==>
        fptr <= SeekTarget(ofs0, old(fsize)) && fsize == if canWrite then Max(old(fsize), fptr) else old(fsize)
      ensures res == FR_OK ==> (fptr == SeekTarget(ofs0, old(fsize)) <==> old(HasRoom(SeekTarget(ofs0, fsize))))
      ensures res == FR_OK && SeekTarget(ofs0, old(fsize)) <= old(fsize) ==>
        fs.Fat() == old(fs.Fat()) && chain == old(chain) && fsize == old(fsize) && fptr == SeekTarget(ofs0, old(fsize))
          && Data() == old(Data())
      ensures res == FR_OK ==>
        (Cursor() <==> old(HasRoom(SeekTarget(ofs0, fsize))) || old(chain == [] && Free(fs.Fat()) == 0))
      ensures res == FR_OK ==> Data()[..old(fsize)] == old(Data())
      ensures !canWrite && fs.winflag ==> old(fs.winflag) && fs.winsect == old(fs.winsect)
      ensures res == FR_OK ==> fs.winsect == old(fs.winsect) || fs.winsect < fs.g.database
      ensures SeekTarget(ofs0, old(fsize)) == 0 ==> unchanged(fs, fs.win, fs.disk)
      ensures res == FR_OK && chain != old(chain) ==> fs.winsect < fs.g.database
      ensures res == FR_OK && fptr == SeekTarget(ofs0, old(fsize)) ==>
        fs.winsect < fs.g.database || unchanged(fs, fs.win, fs.disk)
      ensures res == FR_OK ==> written == (old(written) || fsize > old(fsize))
    {
      hide Clusters, PowerOfTwo, Geometry.Valid, FATFS.Fat, FATFS.Store, FATFS.Valid, WellFormed, Extends, IsFile;
      hide AtSector, Content, FIL.Sought, Needed;
      res := Refusal(true);
      if res != FR_OK { return; }
      ghost var fat0, ch0, st := fs.Fat(), chain, fs.Store();
      FirstCluster(fs.g, fat0, orgClust, ch0, fsize);
      ExtendsSelf(fs.g, fat0, ch0);
      var ofs: nat := ofs0;
      if ofs > fsize && !canWrite {
        ofs := fsize;
      }
      fptr := 0;
      sectClust := 1;
      var ok := true;
      if ofs != 0 {
        ok := SeekChain(ofs, fat0, ch0);
      } else {
        SoughtTop();
      }
      if !ok {
        error := true;
        return FR_RW_ERROR;
      }
      SoughtMeans(ofs, fat0, ch0);
      if ofs <= fsize {
        NeededLess(fs.g, ch0, fsize, ofs);
      }
      ExtendSize(st, ch0);
    }

    /** The end of f_lseek: in write mode the size follows the pointer. */
    method ExtendSize(ghost st: seq<Sector>, ghost ch0: seq<nat>)
      requires fs.Valid() && IsFile(fs.g, fs.Fat(), orgClust, chain, fsize) && Holds(fs.g, chain, fptr)
      requires fptr < 0x1_0000_0000
      requires (!canWrite ==> fptr <= fsize) && fsize < 0x1_0000_0000 && fs.Store() == st
      requires ch0 <= chain && Clusters(fs.g, ch0) && Holds(fs.g, ch0, fsize)
      modifies this`fsize, this`written
      ensures Valid() && fsize == (if canWrite then Max(old(fsize), fptr) else old(fsize))
      ensures Data()[..old(fsize)] == Content(fs.g, st, ch0, old(fsize))
      ensures fptr <= old(fsize) ==> fsize == old(fsize) && Data() == Content(fs.g, st, ch0, fsize)
      ensures written == (old(written) || fsize > old(fsize))
      ensures old(Cursor()) <==> Cursor()
    {
      hide FATFS.Fat, FATFS.Store, FATFS.Valid, AtSector, Content, IsChain;
      ghost var size := fsize;
      if canWrite && fptr > fsize {
        fsize := fptr;
        written := true;
      }
      ContentGrown(fs.g, st, ch0, chain, size, fsize);
      ContentOfLonger(fs.g, st, ch0, chain, size);
    }

    lemma SoughtTop()
      requires fs.Valid() && fptr == 0 && sectClust == 1
      ensures Sought(0)
    {
    }

    /** When the pointer reaches the target, and when the cursor is right. */
    lemma SoughtMeans(target: nat, fat0: seq<nat>, ch0: seq<nat>)
      requires Seeking(fat0, ch0) && Sought(target)
      ensures fptr == target <==> Needed(fs.g, target) <= |ch0| + Free(fat0)
      ensures Cursor() <==> fptr == target || (ch0 == [] && Free(fat0) == 0)
      ensures ch0 <= chain && fptr <= target && Holds(fs.g, chain, fptr)
    {
      hide FATFS.Fat, FATFS.Valid, WellFormed, AtSector, IsChain;
      FirstCluster(fs.g, fs.Fat(), orgClust, chain, fsize);
      HoldsNeeded(fs.g, chain, target);
      ExtendsCount(fat0, fs.Fat(), ch0, chain);
      if fptr != target && chain != [] {
        SeekMisses(fs.g, chain, currClust, currSect, sectClust);
      }
    }

    function SeekTarget(ofs: nat, size: nat): nat
      reads this
    {
      if ofs > size && !canWrite then size else ofs
    }

    // ----- f_sync

    /** The directory entry lies outside the table and outside the file. */
    ghost predicate EntryApart()
      reads this, fs, fs.disk
    {
      && fs.g.dirbase <= dirSect < |fs.disk.sectors| && dirPtr + 32 <= 512
      && !InChain(fs.g, chain, dirSect)
    }

    /** f_sync: the entry of a written file is brought up to date and everything is
        written back. */
    method Sync(time: nat) returns (res: FResult)
      requires Valid() && EntryApart() && time < 0x1_0000_0000
      modifies this`written, fs`winsect, fs`winflag, fs.win, fs.disk
      ensures Valid() && EntryApart() && fs.SameDisk() && fs.Fat() == old(fs.Fat()) && Data() == old(Data())
      ensures old(Cursor()) <==> Cursor()
      ensures fs.Store() == old(fs.Store())[dirSect := fs.Store()[dirSect]]
      ensures Idle() != FR_OK ==> res == Idle() && fs.Store() == old(fs.Store())
      ensures Idle() == FR_OK ==> res == FR_OK || (res == FR_RW_ERROR && fs.disk.Faults() > old(fs.disk.Faults()))
      ensures Idle() == FR_OK && !old(written) ==>
        res == FR_OK && fs.Store() == old(fs.Store()) && fs.winflag == old(fs.winflag) && fs.winsect == old(fs.winsect)
      ensures res == FR_OK && old(written) ==>
        !written && !fs.winflag && fs.disk.sectors == fs.View() && fs.winsect == dirSect
      ensures res == FR_OK && old(written) ==>
        fs.Store() == old(fs.Store())[dirSect := Stamped(old(fs.Store())[dirSect], dirPtr, fsize, orgClust, time)]
    {
      hide Holds, Covers, Landed, FATFS.Fat, FATFS.Valid, AtSector, IsChain, Content, Stamped;
      res := Idle();
      ghost var st := fs.Store();
      StartIsWord(fs.g, fs.Fat(), orgClust, chain, fsize);
      if res == FR_OK && written {
        var ok := fs.MoveWindow(dirSect);
        if !ok {
          assert st[dirSect := fs.Store()[dirSect]] == st;
          return FR_RW_ERROR;
        }
        assert fs.win[..] == fs.Store()[dirSect];
        var edited := Stamped(fs.win[..], dirPtr, fsize, orgClust, time);
        written := false;
        ok := fs.EditAndSync(dirSect, edited);
        EditApart(fs.g, chain, st, dirSect, edited, fsize);
        if !ok { return FR_RW_ERROR; }
      } else {
        assert st[dirSect := fs.Store()[dirSect]] == st;
      }
    }

    /** validate */
    function Idle(): FResult
      reads this, fs, fs.disk
    {
      if !attached || fs.id != id then FR_INVALID_OBJECT else if fs.disk.noInit then FR_NOT_READY else FR_OK
    }
  }
}
