/** Any sequence of f_read, f_write, f_lseek and f_sync on one open file: the file is a
    sequence of bytes with a pointer into it. Whole sectors go past the window, so none of
    them may be the one that was last moved in part and is still in the window; which one
    that is follows from the calls alone. */
module Calls {
  import opened Bytes
  import opened Layout
  import opened Chains
  import opened FileData
  import opened FileSystem
  import opened Transfer
  import opened FileObject
  import opened Sessions

  datatype Call = ReadCall(n: nat) | WriteCall(bytes: seq<Byte>) | SeekCall(ofs: nat) | SyncCall(time: nat) {
    /** The arguments have the widths of the source's parameters. */
    predicate Fitting() {
      match this
      case ReadCall(n) => n < 0x1_0000
      case WriteCall(bytes) => |bytes| < 0x1_0000
      case SeekCall(ofs) => ofs < 0x1_0000_0000
      case SyncCall(time) => time < 0x1_0000_0000
    }

    /** No sector is transferred as a whole. */
    predicate Small() {
      match this
      case ReadCall(n) => n < 512
      case WriteCall(bytes) => |bytes| < 512
      case _ => true
    }
  }

  /** The file as its user sees it. */
  datatype State = State(data: seq<Byte>, ptr: nat)

  /** What a call does, and what it delivers. The bytes between the old end of a file and a
      target of f_lseek beyond it are whatever was on the disk. */
  ghost predicate Does(call: Call, a: State, b: State, reply: seq<Byte>)
    requires a.ptr <= |a.data|
  {
    match call
    case ReadCall(n) =>
      var k := Min(n, |a.data| - a.ptr);
      b == a.(ptr := a.ptr + k) && reply == a.data[a.ptr..a.ptr + k]
    case WriteCall(bytes) =>
      b == State(Overwritten(a.data, a.ptr, bytes, |bytes|), a.ptr + |bytes|) && reply == []
    case SeekCall(ofs) =>
      && b.ptr == ofs && |b.data| == Max(ofs, |a.data|) && b.data[..|a.data|] == a.data && reply == []
    case SyncCall(_) => b == a && reply == []
  }

  /** Pointer and size after a call; they depend on nothing else. */
  datatype Extent = Extent(ptr: nat, size: nat)

  function After(call: Call, e: Extent): (r: Extent)
    requires e.ptr <= e.size
    ensures r.ptr <= r.size && e.size <= r.size
  {
    match call
    case ReadCall(n) => e.(ptr := e.ptr + Min(n, e.size - e.ptr))
    case WriteCall(bytes) => Extent(e.ptr + |bytes|, Max(e.size, e.ptr + |bytes|))
    case SeekCall(ofs) => Extent(ofs, Max(e.size, ofs))
    case SyncCall(_) => e
  }

  function AfterAll(calls: seq<Call>, e: Extent): (r: Extent)
    requires e.ptr <= e.size
    ensures r.ptr <= r.size && e.size <= r.size
  {
    if calls == [] then e else AfterAll(calls[1..], After(calls[0], e))
  }

  // ----- what the window may hold

  /** The number of the sector of the file that may be in the window, -1 for none; whether
      it may be dirty; and whether f_sync is sure to write the directory entry. */
  datatype Held = Held(sector: int, dirty: bool, written: bool)

  /** The sector that a transfer of n bytes at p moves in part last, if any. */
  function LastPart(p: nat, n: nat, before: int): int {
    if n == 0 then before
    else if (p + n) % 512 != 0 then (p + n) / 512
    else if p % 512 != 0 then p / 512
    else before
  }

  function HeldAfter(call: Call, e: Extent, h: Held): Held
    requires e.ptr <= e.size
  {
    match call
    case ReadCall(n) =>
      var last := LastPart(e.ptr, Min(n, e.size - e.ptr), h.sector);
      Held(last, h.dirty && last == h.sector, h.written)
    case WriteCall(bytes) =>
      var n := |bytes|;
      Held(LastPart(e.ptr, n, h.sector), h.dirty || (n > 0 && (e.ptr % 512 != 0 || (e.ptr + n) % 512 != 0)), true)
    case SeekCall(ofs) => h.(written := h.written || ofs > e.size)
    case SyncCall(_) => if h.written then Held(-1, false, false) else h
  }

  /** The call moves no sector as a whole that is in the window, or, to read it, dirty
      there. */
  predicate Passes(call: Call, e: Extent, h: Held)
    requires e.ptr <= e.size
  {
    match call
    case ReadCall(n) => h.dirty ==> !Full(e.ptr, Min(n, e.size - e.ptr), h.sector)
    case WriteCall(bytes) => !Full(e.ptr, |bytes|, h.sector)
    case _ => true
  }

  predicate AllPass(calls: seq<Call>, e: Extent, h: Held)
    requires e.ptr <= e.size
  {
    calls == [] || (Passes(calls[0], e, h) && AllPass(calls[1..], After(calls[0], e), HeldAfter(calls[0], e, h)))
  }

  /** So it is if all transfers are below 512 bytes. */
  lemma {:induction false} SmallCallsPass(calls: seq<Call>, e: Extent, h: Held)
    requires e.ptr <= e.size && forall i :: 0 <= i < |calls| ==> calls[i].Small()
    ensures AllPass(calls, e, h)
  {
    if calls != [] {
      SmallCallsPass(calls[1..], After(calls[0], e), HeldAfter(calls[0], e, h));
    }
  }

  /** That is indeed all of the file with chain ch that a window on sector w can hold. */
  ghost predicate OnlyHolds(g: Geometry, ch: seq<nat>, w: nat, flag: bool, h: Held) {
    forall k :: Covers(g, ch, k) && SectorNo(g, ch, k) == w ==> k == h.sector && (flag ==> h.dirty)
  }

  ghost predicate Holding(fp: FIL, h: Held)
    reads fp, fp.fs
  {
    (h.written ==> fp.written) && OnlyHolds(fp.fs.g, fp.chain, fp.fs.winsect, fp.fs.winflag, h)
  }

  /** There is always something to begin with. */
  lemma SomethingHeld(fp: FIL) returns (h: Held)
    requires Clusters(fp.fs.g, fp.chain)
    ensures Holding(fp, h)
  {
    h := Held(-1, false, false);
    if k :| Covers(fp.fs.g, fp.chain, k) && SectorNo(fp.fs.g, fp.chain, k) == fp.fs.winsect {
      h := Held(k, true, false);
      OneHeld(fp.fs.g, fp.chain, fp.fs.winsect, fp.fs.winflag, h);
    }
  }

  /** A window on a sector of the file holds that. */
  lemma OneHeld(g: Geometry, ch: seq<nat>, w: nat, flag: bool, h: Held)
    requires Clusters(g, ch) && Covers(g, ch, h.sector) && SectorNo(g, ch, h.sector) == w && (flag ==> h.dirty)
    ensures OnlyHolds(g, ch, w, flag, h)
  {
    hide Covers, SectorNo;
    forall j | Covers(g, ch, j) && SectorNo(g, ch, j) == w
      ensures j == h.sector
    {
      SectorInjective(g, ch, j, h.sector);
    }
  }

  /** A window on another sector, or in the table, holds nothing. */
  lemma NothingHeld(g: Geometry, ch: seq<nat>, w: nat, flag: bool, h: Held)
    requires Clusters(g, ch) && (w < g.database || !InChain(g, ch, w))
    ensures OnlyHolds(g, ch, w, flag, h)
  {
    hide Covers, SectorNo;
    forall k | Covers(g, ch, k)
      ensures SectorNo(g, ch, k) != w
    {
      SectorInChain(g, ch, k);
    }
  }

  /** What passes goes past a window that does not hold it. */
  lemma PassesClear(g: Geometry, ch: seq<nat>, w: nat, flag: bool, h: Held, p: nat, n: nat)
    requires OnlyHolds(g, ch, w, flag, h) && (!Full(p, n, h.sector) || (flag && !h.dirty))
    ensures ClearOf(g, ch, p, n, w)
  {
  }

  /** After a transfer of n bytes at p, with the cursor on sector first of the volume before
      and on sector last after it. */
  lemma HeldAfterTransfer(g: Geometry, ch: seq<nat>, ch': seq<nat>, p: nat, n: nat, was: nat, flag: bool, now: nat,
          flag': bool, first: nat, clust: nat, left: nat, last: nat, clust': nat, left': nat, h: Held, h': Held)
    requires Clusters(g, ch) && Clusters(g, ch') && ch <= ch' && OnlyHolds(g, ch, was, flag, h)
    requires WindowAfter(p, n, was, first, last, now, flag' && !flag, now < g.database)
    requires p % 512 != 0 ==> AtSector(g, ch, p / 512, clust, first, left)
    requires n > 0 && (p + n) % 512 != 0 ==> AtSector(g, ch', (p + n) / 512, clust', last, left')
    requires ch' != ch ==> n > 0 && (p % 512 == 0 && (p + n) % 512 == 0 ==> now < g.database)
    requires h'.sector == LastPart(p, n, h.sector)
    requires (ch' == ch && (flag' ==> flag && now == was) && h'.dirty == (h.dirty && h'.sector == h.sector))
             || h'.dirty == (h.dirty || (n > 0 && (p % 512 != 0 || (p + n) % 512 != 0)))
    ensures OnlyHolds(g, ch', now, flag', h')
  {
    hide AtSector, Covers, SectorNo, InChain, OnlyHolds;
    if now < g.database {
      NothingHeld(g, ch', now, flag', h');
    } else if n > 0 && (p + n) % 512 != 0 {
      HeldAt(g, ch, ch', was, flag, now, flag', clust', left', h, h');
    } else if n > 0 && p % 512 != 0 {
      AtLonger(g, ch, ch', p / 512, clust, first, left);
      HeldAt(g, ch, ch', was, flag, now, flag', clust, left, h, h');
    } else {
      HeldStill(g, ch, was, flag, flag', h, h');
    }
  }

  lemma HeldAt(g: Geometry, ch: seq<nat>, ch': seq<nat>, was: nat, flag: bool, now: nat, flag': bool, clust: nat,
          left: nat, h: Held, h': Held)
    requires Clusters(g, ch') && OnlyHolds(g, ch, was, flag, h) && AtSector(g, ch', h'.sector, clust, now, left)
    requires (ch' == ch && (flag' ==> flag && now == was) && h'.dirty == (h.dirty && h'.sector == h.sector)) || h'.dirty
    ensures OnlyHolds(g, ch', now, flag', h')
  {
    hide SectorNo;
    OneHeld(g, ch', now, flag' && h'.dirty, h');
  }

  lemma HeldStill(g: Geometry, ch: seq<nat>, was: nat, flag: bool, flag': bool, h: Held, h': Held)
    requires OnlyHolds(g, ch, was, flag, h) && (flag' ==> flag) && h'.sector == h.sector && h'.dirty == h.dirty
    ensures OnlyHolds(g, ch, was, flag', h')
  {
  }

  /** The states before, between and after the calls, and the replies, belong together. */
  ghost predicate IsSession(calls: seq<Call>, states: seq<State>, replies: seq<seq<Byte>>) {
    && |states| == |calls| + 1 && |replies| == |calls|
    && forall i :: 0 <= i < |calls| ==>
      states[i].ptr <= |states[i].data| && Does(calls[i], states[i], states[i + 1], replies[i])
  }

  /** The open file is in a state, since an earlier moment its chain has grown by free
      clusters, and every other file is as it was. */
  ghost predicate InState(fp: FIL, a: State, fat0: seq<nat>, ch0: seq<nat>, st0: seq<Sector>)
    reads fp, fp.fs, fp.fs.disk, fp.fs.win
  {
    && fp.Valid() && fp.Cursor() && WellFormed(fp.fs.Fat()) && Big(fp.fs.g, st0)
    && fp.Data() == a.data && fp.fptr == a.ptr <= |a.data| == fp.fsize
    && fp.EntryApart() && Elsewhere(fp.fs.g, fp.fs.Fat(), fp.chain, fp.dirSect)
    && Extends(fat0, fp.fs.Fat(), ch0, fp.chain)
    && Untouched(fp.fs.g, fat0, fp.fs.Fat(), ch0, fp.chain, st0, fp.fs.Store(), fp.dirSect)
  }

  /** One step that grows the chain and writes inside the file only. */
  lemma StateOn(fp: FIL, b: State, fat0: seq<nat>, ch0: seq<nat>, st0: seq<Sector>, fat: seq<nat>, ch: seq<nat>,
          st: seq<Sector>)
    requires fp.Valid() && fp.Cursor() && WellFormed(fp.fs.Fat()) && Big(fp.fs.g, st0) && Big(fp.fs.g, st)
    requires fp.Data() == b.data && fp.fptr == b.ptr
    requires fp.fs.g.dirbase <= fp.dirSect < |fp.fs.disk.sectors| && fp.dirPtr + 32 <= 512
    requires |fat| == fp.fs.g.maxClust && ChainOrNone(fat, ch) && Elsewhere(fp.fs.g, fat, ch, fp.dirSect)
    requires Extends(fat0, fat, ch0, ch) && Untouched(fp.fs.g, fat0, fat, ch0, ch, st0, st, fp.dirSect)
    requires Extends(fat, fp.fs.Fat(), ch, fp.chain) && SameOutside(fp.fs.g, fp.chain, st, fp.fs.Store())
    ensures InState(fp, b, fat0, ch0, st0)
  {
    hide FATFS.Fat, FATFS.Store, FATFS.Valid, WellFormed, Extends, IsFile, SameOutside, AtSector, Content, Untouched;
    hide Elsewhere, InChain, FIL.Cursor;
    FirstCluster(fp.fs.g, fp.fs.Fat(), fp.orgClust, fp.chain, fp.fsize);
    ElsewhereKept(fp.fs.g, fat, fp.fs.Fat(), ch, fp.chain, fp.dirSect);
    ExtendsTrans(fat0, fat, fp.fs.Fat(), ch0, ch, fp.chain);
    OthersUntouched(fp.fs.g, fat, fp.fs.Fat(), ch, fp.chain, st, fp.fs.Store(), fp.dirSect);
    UntouchedTrans(fp.fs.g, fat0, fat, fp.fs.Fat(), ch0, ch, fp.chain, st0, st, fp.fs.Store(), fp.dirSect);
  }

  function ExtentOf(a: State): (e: Extent) { Extent(a.ptr, |a.data|) }

  // ----- one call

  method DoRead(fp: FIL, n: nat, ghost a: State, ghost h: Held, ghost fat0: seq<nat>, ghost ch0: seq<nat>,
          ghost st0: seq<Sector>)
    returns (res: FResult, reply: seq<Byte>, ghost b: State)
    requires InState(fp, a, fat0, ch0, st0) && n < 0x1_0000 && Holding(fp, h) && Passes(ReadCall(n), ExtentOf(a), h)
    modifies fp`sectClust, fp`currClust, fp`currSect, fp`fptr, fp`error
    modifies fp.fs`winsect, fp.fs`winflag, fp.fs.win, fp.fs.disk
    ensures fp.fs.Valid() && fp.fs.SameDisk()
    ensures res == FR_OK ==>
      && InState(fp, b, fat0, ch0, st0) && fp.error == old(fp.error) && Does(ReadCall(n), a, b, reply)
      && Holding(fp, HeldAfter(ReadCall(n), ExtentOf(a), h))
    ensures fp.fs.disk.Faults() == old(fp.fs.disk.Faults()) ==> res == old(fp.Refusal(fp.canRead))
  {
    hide FATFS.Fat, FATFS.Store, FATFS.Valid, WellFormed, Extends, IsFile, SameOutside, AtSector, Content, Untouched;
    hide Elsewhere, InChain, FIL.Cursor, ClearOf, FIL.Outdated, OnlyHolds, WindowAfter, Does;
    ghost var k, ch := Min(n, fp.fsize - fp.fptr), fp.chain;
    FirstCluster(fp.fs.g, fp.fs.Fat(), fp.orgClust, ch, fp.fsize);
    if fp.fs.winflag {
      PassesClear(fp.fs.g, ch, fp.fs.winsect, true, h, fp.fptr, k);
    }
    fp.Fresh(k);
    CursorAt(fp);
    ghost var first, clust, left, was, flag := fp.currSect, fp.currClust, fp.sectClust, fp.fs.winsect, fp.fs.winflag;
    res, reply, b := ReadFresh(fp, n, a, fat0, ch0, st0);
    if res != FR_OK { return; }
    CursorAt(fp);
    HeldAfterTransfer(fp.fs.g, ch, ch, a.ptr, k, was, flag, fp.fs.winsect, fp.fs.winflag, first, clust, left,
      fp.currSect, fp.currClust, fp.sectClust, h, HeldAfter(ReadCall(n), ExtentOf(a), h));
  }

  /** F_read, with no stale sector in its way. */
  method ReadFresh(fp: FIL, n: nat, ghost a: State, ghost fat0: seq<nat>, ghost ch0: seq<nat>, ghost st0: seq<Sector>)
    returns (res: FResult, reply: seq<Byte>, ghost b: State)
    requires InState(fp, a, fat0, ch0, st0) && n < 0x1_0000 && !fp.Outdated(Min(n, fp.fsize - fp.fptr))
    modifies fp`sectClust, fp`currClust, fp`currSect, fp`fptr, fp`error
    modifies fp.fs`winsect, fp.fs`winflag, fp.fs.win, fp.fs.disk
    ensures fp.fs.Valid() && fp.fs.SameDisk()
    ensures res == FR_OK ==>
      && InState(fp, b, fat0, ch0, st0) && fp.error == old(fp.error) && Does(ReadCall(n), a, b, reply)
      && fp.Cursor() && fp.fptr == old(fp.fptr) + Min(n, old(fp.fsize - fp.fptr))
      && fp.WindowIs(a.ptr, Min(n, old(fp.fsize - fp.fptr)), old(fp.currSect), old(fp.fs.winsect), old(fp.fs.winflag))
      && (fp.fs.winflag ==> old(fp.fs.winflag) && fp.fs.winsect == old(fp.fs.winsect))
    ensures fp.fs.disk.Faults() == old(fp.fs.disk.Faults()) ==> res == old(fp.Refusal(fp.canRead))
  {
    hide FATFS.Fat, FATFS.Store, FATFS.Valid, WellFormed, Extends, IsFile, SameOutside, AtSector, Content, Untouched;
    hide Elsewhere, InChain, FIL.Cursor, ClearOf, FIL.Outdated, FIL.SeenData, FIL.WindowIs;
    ghost var fat, ch, st := fp.fs.Fat(), fp.chain, fp.fs.Store();
    FirstCluster(fp.fs.g, fat, fp.orgClust, ch, fp.fsize);
    ExtendsSelf(fp.fs.g, fat, ch);
    SameOutsideSelf(fp.fs.g, ch, st);
    var buff := new Byte[n];
    var br;
    res, br := fp.Read(buff, n);
    b, reply := a.(ptr := fp.fptr), [];
    if res != FR_OK { return; }
    reply := buff[..br];
    StateOn(fp, b, fat0, ch0, st0, fat, ch, st);
  }

  /** Inside a sector the cursor is on it. */
  lemma CursorAt(fp: FIL)
    requires fp.Cursor()
    ensures fp.fptr % 512 != 0 ==>
      AtSector(fp.fs.g, fp.chain, fp.fptr / 512, fp.currClust, fp.currSect, fp.sectClust)
  {
    hide AtSector;
    if fp.fptr % 512 != 0 {
      SectorOf(fp.fptr, 1);
    }
  }

  method DoWrite(fp: FIL, bytes: seq<Byte>, ghost a: State, ghost h: Held, ghost fat0: seq<nat>, ghost ch0: seq<nat>,
          ghost st0: seq<Sector>)
    returns (res: FResult, ghost b: State)
    requires InState(fp, a, fat0, ch0, st0) && |bytes| < 0x1_0000
    requires Holding(fp, h) && Passes(WriteCall(bytes), ExtentOf(a), h)
    modifies fp`sectClust, fp`currClust, fp`currSect, fp`orgClust, fp`chain, fp`fptr, fp`fsize, fp`written, fp`error
    modifies fp.fs`winsect, fp.fs`winflag, fp.fs`lastClust, fp.fs`freeClust, fp.fs.win, fp.fs.disk
    ensures fp.fs.Valid() && fp.fs.SameDisk()
    ensures res == FR_OK ==>
      && InState(fp, b, fat0, ch0, st0) && fp.error == old(fp.error) && Does(WriteCall(bytes), a, b, [])
      && Holding(fp, HeldAfter(WriteCall(bytes), ExtentOf(a), h))
    ensures fp.fs.disk.Faults() == old(fp.fs.disk.Faults()) && old(fp.Refusal(fp.canWrite)) == FR_OK
            && |a.data| + |bytes| < 0x1_0000_0000 ==>
      fp.fs.g.Valid() && (res == FR_OK <==> Needed(fp.fs.g, a.ptr + |bytes|) <= |ch0| + Free(fat0))
  {
    hide FATFS.Fat, FATFS.Store, FATFS.Valid, WellFormed, Extends, IsFile, SameOutside, AtSector, Content, Untouched;
    hide Elsewhere, InChain, FIL.Cursor, ClearOf, Overwritten, Needed, Free, OnlyHolds, WindowAfter, Does;
    ghost var ch := fp.chain;
    FirstCluster(fp.fs.g, fp.fs.Fat(), fp.orgClust, ch, fp.fsize);
    PassesClear(fp.fs.g, ch, fp.fs.winsect, fp.fs.winflag, h, fp.fptr, |bytes|);
    CursorAt(fp);
    ghost var first, clust, left, was, flag := fp.currSect, fp.currClust, fp.sectClust, fp.fs.winsect, fp.fs.winflag;
    res, b := WriteClear(fp, bytes, a, fat0, ch0, st0);
    if res != FR_OK { return; }
    CursorAt(fp);
    FirstCluster(fp.fs.g, fp.fs.Fat(), fp.orgClust, fp.chain, fp.fsize);
    HeldAfterTransfer(fp.fs.g, ch, fp.chain, a.ptr, |bytes|, was, flag, fp.fs.winsect, fp.fs.winflag,
      first, clust, left, fp.currSect, fp.currClust, fp.sectClust, h, HeldAfter(WriteCall(bytes), ExtentOf(a), h));
  }

  /** F_write, with the window on none of its whole sectors. */
  method WriteClear(fp: FIL, bytes: seq<Byte>, ghost a: State, ghost fat0: seq<nat>, ghost ch0: seq<nat>,
          ghost st0: seq<Sector>)
    returns (res: FResult, ghost b: State)
    requires InState(fp, a, fat0, ch0, st0) && |bytes| < 0x1_0000 && fp.Clear(fp.fptr, |bytes|)
    modifies fp`sectClust, fp`currClust, fp`currSect, fp`orgClust, fp`chain, fp`fptr, fp`fsize, fp`written, fp`error
    modifies fp.fs`winsect, fp.fs`winflag, fp.fs`lastClust, fp.fs`freeClust, fp.fs.win, fp.fs.disk
    ensures fp.fs.Valid() && fp.fs.SameDisk()
    ensures res == FR_OK ==>
      && InState(fp, b, fat0, ch0, st0) && fp.error == old(fp.error) && Does(WriteCall(bytes), a, b, [])
      && fp.Cursor() && fp.fptr == old(fp.fptr) + |bytes| && fp.written && old(fp.chain) <= fp.chain
      && fp.WindowIs(a.ptr, |bytes|, old(fp.currSect), old(fp.fs.winsect), old(fp.fs.winflag))
      && fp.WindowGrown(a.ptr, old(fp.chain))
    ensures fp.fs.disk.Faults() == old(fp.fs.disk.Faults()) && old(fp.Refusal(fp.canWrite)) == FR_OK
            && |a.data| + |bytes| < 0x1_0000_0000 ==>
      fp.fs.g.Valid() && (res == FR_OK <==> Needed(fp.fs.g, a.ptr + |bytes|) <= |ch0| + Free(fat0))
  {
    hide FATFS.Fat, FATFS.Store, FATFS.Valid, WellFormed, Extends, IsFile, SameOutside, AtSector, Content, Untouched;
    hide Elsewhere, InChain, FIL.Cursor, ClearOf, Overwritten, Needed, Free, FIL.WindowIs, FIL.WindowGrown, FIL.AtTop;
    ghost var fat, ch, st := fp.fs.Fat(), fp.chain, fp.fs.Store();
    FirstCluster(fp.fs.g, fat, fp.orgClust, ch, fp.fsize);
    ExtendsCount(fat0, fat, ch0, ch);
    var buff := new Byte[|bytes|](k requires 0 <= k < |bytes| => bytes[k]);
    assert buff[..] == bytes;
    b := a;
    var bw;
    res, bw := fp.Write(buff, |bytes|);
    if res != FR_OK { return; }
    if bw < |bytes| { return FR_DENIED, b; }
    b := State(Overwritten(a.data, a.ptr, bytes, |bytes|), a.ptr + |bytes|);
    StateOn(fp, b, fat0, ch0, st0, fat, ch, st);
    ExtendsCount(fat, fp.fs.Fat(), ch, fp.chain);
  }

  method DoSeek(fp: FIL, ofs: nat, ghost a: State, ghost h: Held, ghost fat0: seq<nat>, ghost ch0: seq<nat>,
          ghost st0: seq<Sector>)
    returns (res: FResult, ghost b: State)
    requires InState(fp, a, fat0, ch0, st0) && ofs < 0x1_0000_0000 && fp.canWrite && Holding(fp, h)
    modifies fp`sectClust, fp`currClust, fp`currSect, fp`orgClust, fp`chain, fp`fptr, fp`fsize, fp`written, fp`error
    modifies fp.fs`winsect, fp.fs`winflag, fp.fs`lastClust, fp.fs`freeClust, fp.fs.win, fp.fs.disk
    ensures fp.fs.Valid() && fp.fs.SameDisk()
    ensures res == FR_OK ==>
      && InState(fp, b, fat0, ch0, st0) && fp.error == old(fp.error) && Does(SeekCall(ofs), a, b, [])
      && Holding(fp, HeldAfter(SeekCall(ofs), ExtentOf(a), h))
    ensures fp.fs.disk.Faults() == old(fp.fs.disk.Faults()) && old(fp.Refusal(true)) == FR_OK ==>
      fp.fs.g.Valid() && (res == FR_OK <==> Needed(fp.fs.g, ofs) <= |ch0| + Free(fat0))
  {
    hide FATFS.Fat, FATFS.Store, FATFS.Valid, WellFormed, Extends, IsFile, SameOutside, AtSector, Content, Untouched;
    hide Elsewhere, InChain, FIL.Cursor, ClearOf, Overwritten, Needed, Free, OnlyHolds;
    ghost var fat, ch, st := fp.fs.Fat(), fp.chain, fp.fs.Store();
    ghost var was, flag := fp.fs.winsect, fp.fs.winflag;
    FirstCluster(fp.fs.g, fat, fp.orgClust, ch, fp.fsize);
    ExtendsCount(fat0, fat, ch0, ch);
    b := a;
    res := fp.Seek(ofs);
    if res != FR_OK { return; }
    if fp.fptr != ofs { return FR_DENIED, b; }
    b := State(fp.Data(), ofs);
    SameOutsideSelf(fp.fs.g, fp.chain, st);
    StateOn(fp, b, fat0, ch0, st0, fat, ch, st);
    ghost var h' := HeldAfter(SeekCall(ofs), ExtentOf(a), h);
    if fp.fs.winsect < fp.fs.g.database {
      FirstCluster(fp.fs.g, fp.fs.Fat(), fp.orgClust, fp.chain, fp.fsize);
      NothingHeld(fp.fs.g, fp.chain, fp.fs.winsect, fp.fs.winflag, h');
    } else {
      HeldStill(fp.fs.g, ch, was, flag, fp.fs.winflag, h, h');
    }
  }

  method DoSync(fp: FIL, time: nat, ghost a: State, ghost h: Held, ghost fat0: seq<nat>, ghost ch0: seq<nat>,
          ghost st0: seq<Sector>)
    returns (res: FResult)
    requires InState(fp, a, fat0, ch0, st0) && time < 0x1_0000_0000 && Holding(fp, h)
    modifies fp`written, fp.fs`winsect, fp.fs`winflag, fp.fs.win, fp.fs.disk
    ensures fp.fs.Valid() && fp.fs.SameDisk()
    ensures res == FR_OK ==>
      InState(fp, a, fat0, ch0, st0) && Holding(fp, HeldAfter(SyncCall(time), ExtentOf(a), h))
    ensures fp.fs.disk.Faults() == old(fp.fs.disk.Faults()) ==> res == fp.Idle()
  {
    hide FATFS.Fat, FATFS.Store, FATFS.Valid, WellFormed, Extends, IsFile, SameOutside, AtSector, Content, Untouched;
    hide Elsewhere, InChain, FIL.Cursor, Stamped, OnlyHolds;
    ghost var fat, ch, st := fp.fs.Fat(), fp.chain, fp.fs.Store();
    ghost var was, flag, written := fp.fs.winsect, fp.fs.winflag, fp.written;
    FirstCluster(fp.fs.g, fat, fp.orgClust, ch, fp.fsize);
    res := fp.Sync(time);
    EditUntouched(fp.fs.g, fat, ch, st, fp.dirSect, fp.fs.Store()[fp.dirSect]);
    UntouchedTrans(fp.fs.g, fat0, fat, fat, ch0, ch, ch, st0, st, fp.fs.Store(), fp.dirSect);
    if res == FR_OK && written {
      NothingHeld(fp.fs.g, ch, fp.fs.winsect, fp.fs.winflag, HeldAfter(SyncCall(time), ExtentOf(a), h));
    }
  }

  // ----- any sequence of calls

  lemma DoesExtent(call: Call, a: State, b: State, reply: seq<Byte>)
    requires a.ptr <= |a.data| && Does(call, a, b, reply)
    ensures ExtentOf(b) == After(call, ExtentOf(a))
  {
  }

  /** The end of the file that a call has to reach. */
  function Reach(call: Call, a: State): nat {
    match call
    case ReadCall(_) => 0
    case WriteCall(bytes) => a.ptr + |bytes|
    case SeekCall(ofs) => ofs
    case SyncCall(_) => 0
  }

  /** One call. It works unless a disk call fails or the clusters are not enough. */
  method Do(fp: FIL, call: Call, ghost a: State, ghost h: Held, ghost fat0: seq<nat>, ghost ch0: seq<nat>,
          ghost st0: seq<Sector>)
    returns (res: FResult, reply: seq<Byte>, ghost b: State)
    requires InState(fp, a, fat0, ch0, st0) && call.Fitting() && fp.Refusal(fp.canRead && fp.canWrite) == FR_OK
    requires a.ptr <= |a.data| && Holding(fp, h) && Passes(call, ExtentOf(a), h)
    modifies fp`sectClust, fp`currClust, fp`currSect, fp`orgClust, fp`chain, fp`fptr, fp`fsize, fp`written, fp`error
    modifies fp.fs`winsect, fp.fs`winflag, fp.fs`lastClust, fp.fs`freeClust, fp.fs.win, fp.fs.disk
    ensures fp.fs.Valid() && fp.fs.SameDisk()
    ensures res == FR_OK ==>
      && InState(fp, b, fat0, ch0, st0) && Does(call, a, b, reply) && fp.Refusal(fp.canRead && fp.canWrite) == FR_OK
      && Holding(fp, HeldAfter(call, ExtentOf(a), h))
    ensures fp.fs.disk.Faults() == old(fp.fs.disk.Faults()) && |a.data| + 0x1_0000 <= 0x1_0000_0000 ==>
      fp.fs.g.Valid() && (res == FR_OK <==> Needed(fp.fs.g, Reach(call, a)) <= |ch0| + Free(fat0))
  {
    hide InState, Needed, Free, Overwritten, Holding, HeldAfter, Passes;
    reply := [];
    assert fp.fs.g.Valid() by { StateParts(fp, a, fat0, ch0, st0); }
    match call {
      case ReadCall(n) =>
        res, reply, b := DoRead(fp, n, a, h, fat0, ch0, st0);
      case WriteCall(bytes) =>
        res, b := DoWrite(fp, bytes, a, h, fat0, ch0, st0);
      case SeekCall(ofs) =>
        res, b := DoSeek(fp, ofs, a, h, fat0, ch0, st0);
      case SyncCall(time) =>
        b := a;
        res := DoSync(fp, time, a, h, fat0, ch0, st0);
    }
    NothingNeeded(fp.fs.g);
  }

  lemma StateParts(fp: FIL, a: State, fat0: seq<nat>, ch0: seq<nat>, st0: seq<Sector>)
    requires InState(fp, a, fat0, ch0, st0)
    ensures fp.fs.g.Valid() && fp.fs.Valid() && a.ptr <= |a.data|
    ensures Needed(fp.fs.g, |a.data|) <= |ch0| + Free(fat0)
  {
    hide FATFS.Fat, FATFS.Store, FATFS.Valid, WellFormed, Extends, SameOutside, AtSector, Content, Untouched, Elsewhere;
    hide InChain, FIL.Cursor, Free;
    FirstCluster(fp.fs.g, fp.fs.Fat(), fp.orgClust, fp.chain, fp.fsize);
    ExtendsCount(fat0, fp.fs.Fat(), ch0, fp.chain);
    HoldsNeeded(fp.fs.g, fp.chain, fp.fsize);
  }

  lemma NothingNeeded(g: Geometry)
    requires g.Valid()
    ensures Needed(g, 0) == 0
  {
  }

  /** The calls one after the other. The file goes through states as a sequence of bytes
      with a pointer would, each read delivers the bytes of that sequence, and every other
      file keeps its chain and bytes. Unless a disk call fails, all calls work if and only
      if the clusters are enough for the largest size, which is known beforehand. */
  method Perform(fp: FIL, calls: seq<Call>, ghost h0: Held)
    returns (res: FResult, replies: seq<seq<Byte>>, ghost states: seq<State>)
    requires fp.Valid() && fp.Cursor() && WellFormed(fp.fs.Fat()) && fp.EntryApart()
    requires Elsewhere(fp.fs.g, fp.fs.Fat(), fp.chain, fp.dirSect)
    requires fp.Refusal(fp.canRead && fp.canWrite) == FR_OK
    requires forall i :: 0 <= i < |calls| ==> calls[i].Fitting()
    requires Holding(fp, h0) && AllPass(calls, Extent(fp.fptr, fp.fsize), h0)
    modifies fp`sectClust, fp`currClust, fp`currSect, fp`orgClust, fp`chain, fp`fptr, fp`fsize, fp`written, fp`error
    modifies fp.fs`winsect, fp.fs`winflag, fp.fs`lastClust, fp.fs`freeClust, fp.fs.win, fp.fs.disk
    ensures fp.fs.Valid() && fp.fs.SameDisk()
    ensures res == FR_OK ==>
      && IsSession(calls, states, replies)
      && states[0] == State(old(fp.Data()), old(fp.fptr))
      && InState(fp, states[|calls|], old(fp.fs.Fat()), old(fp.chain), old(fp.fs.Store()))
    ensures fp.fs.disk.Faults() == old(fp.fs.disk.Faults())
            && AfterAll(calls, Extent(old(fp.fptr), old(fp.fsize))).size + 0x1_0000 <= 0x1_0000_0000 ==>
      (res == FR_OK <==> old(fp.HasRoom(AfterAll(calls, Extent(fp.fptr, fp.fsize)).size)))
  {
    hide InState, Does, Needed, Free, WellFormed, FATFS.Fat, FATFS.Store, FATFS.Valid, Elsewhere, FIL.Cursor;
    hide Geometry.Valid, IsFile, Content, Holding, HeldAfter, Passes;
    ghost var fat0, ch0, st0 := fp.fs.Fat(), fp.chain, fp.fs.Store();
    ghost var a := State(fp.Data(), fp.fptr);
    ghost var goal := AfterAll(calls, ExtentOf(a)).size;
    FirstState(fp);
    StateParts(fp, a, fat0, ch0, st0);
    res, replies, states := FR_OK, [], [a];
    ghost var h := h0;
    var i := 0;
    while i < |calls|
      invariant 0 <= i <= |calls| && res == FR_OK && |states| == i + 1 && states[i] == a
      invariant states[0] == State(old(fp.Data()), old(fp.fptr))
      invariant IsSession(calls[..i], states, replies)
      invariant InState(fp, a, fat0, ch0, st0) && a.ptr <= |a.data| && fp.fs.Valid() && fp.fs.SameDisk()
      invariant fp.Refusal(fp.canRead && fp.canWrite) == FR_OK
      invariant AfterAll(calls[i..], ExtentOf(a)).size == goal
      invariant Holding(fp, h) && AllPass(calls[i..], ExtentOf(a), h)
    {
      var reply;
      ghost var b;
      assert calls[i..][0] == calls[i] && calls[i..][1..] == calls[i + 1..];
      res, reply, b := Do(fp, calls[i], a, h, fat0, ch0, st0);
      if res != FR_OK {
        NoRoom(fp.fs.g, Reach(calls[i], a), goal) by { ReachBelow(calls[i], a, calls[i + 1..]); }
        return;
      }
      DoesExtent(calls[i], a, b, reply);
      StateParts(fp, b, fat0, ch0, st0);
      SessionGrows(calls, i, states, replies, b, reply);
      h := HeldAfter(calls[i], ExtentOf(a), h);
      states, replies, a := states + [b], replies + [reply], b;
      i := i + 1;
    }
    assert calls[..i] == calls && calls[i..] == [];
    StateParts(fp, a, fat0, ch0, st0);
  }

  lemma FirstState(fp: FIL)
    requires fp.Valid() && fp.Cursor() && WellFormed(fp.fs.Fat()) && fp.EntryApart()
    requires Elsewhere(fp.fs.g, fp.fs.Fat(), fp.chain, fp.dirSect)
    ensures InState(fp, State(fp.Data(), fp.fptr), fp.fs.Fat(), fp.chain, fp.fs.Store())
  {
    hide FATFS.Fat, FATFS.Store, FATFS.Valid, WellFormed, Extends, IsFile, SameOutside, AtSector, Content, Untouched;
    hide Elsewhere, InChain, FIL.Cursor;
    FirstCluster(fp.fs.g, fp.fs.Fat(), fp.orgClust, fp.chain, fp.fsize);
    ExtendsSelf(fp.fs.g, fp.fs.Fat(), fp.chain);
    SameOutsideSelf(fp.fs.g, fp.chain, fp.fs.Store());
    OthersUntouched(fp.fs.g, fp.fs.Fat(), fp.fs.Fat(), fp.chain, fp.chain, fp.fs.Store(), fp.fs.Store(), fp.dirSect);
  }

  lemma ReachBelow(call: Call, a: State, rest: seq<Call>)
    requires a.ptr <= |a.data|
    ensures Reach(call, a) <= AfterAll(rest, After(call, ExtentOf(a))).size
  {
  }

  lemma SessionGrows(calls: seq<Call>, i: nat, states: seq<State>, replies: seq<seq<Byte>>, b: State, reply: seq<Byte>)
    requires i < |calls| && IsSession(calls[..i], states, replies)
    requires states[i].ptr <= |states[i].data| && Does(calls[i], states[i], b, reply)
    ensures IsSession(calls[..i + 1], states + [b], replies + [reply])
  {
    hide Does;
    var s, r, c := states + [b], replies + [reply], calls[..i + 1];
    forall k | 0 <= k < i + 1
      ensures s[k].ptr <= |s[k].data| && Does(c[k], s[k], s[k + 1], r[k])
    {
      if k < i {
        assert calls[..i][k] == c[k];
      }
    }
  }
}
