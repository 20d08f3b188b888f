/** Runs of calls on one open file, the way a program uses them. The contracts are the
    end-to-end statements: what was written comes back, and no other file notices. */
module Sessions {
  import opened Arith
  import opened Bytes
  import opened Layout
  import opened Chains
  import opened FileData
  import opened FileSystem
  import opened Transfer
  import opened FileObject

  function Concat(pieces: seq<seq<Byte>>): seq<Byte> {
    if pieces == [] then [] else Concat(pieces[..|pieces| - 1]) + pieces[|pieces| - 1]
  }

  /** Another file on the volume: its chain shares no cluster with ch. */
  ghost predicate Bystander(g: Geometry, fat: seq<nat>, ch: seq<nat>, other: seq<nat>, size: nat) {
    g.Valid() && |fat| == g.maxClust && IsChain(fat, other) && Clusters(g, other) && Holds(g, other, size)
    && forall c :: c in other ==> c !in ch
  }

  /** Growing and writing one file leaves every other file's chain and bytes alone. */
  lemma BystanderKept(g: Geometry, fat: seq<nat>, fat': seq<nat>, ch: seq<nat>, ch': seq<nat>, st: seq<Sector>,
          st': seq<Sector>, other: seq<nat>, size: nat)
    requires Bystander(g, fat, ch, other, size) && Extends(fat, fat', ch, ch') && Big(g, st)
    requires SameOutside(g, ch', st, st')
    ensures Bystander(g, fat', ch', other, size) && Content(g, st', other, size) == Content(g, st, other, size)
  {
    OthersKept(fat, fat', ch, ch', other);
    SameBytes(g, ch', st, st', other, size);
  }

  /** Every other file keeps its chain and its bytes, except one that uses sector s. */
  ghost predicate Untouched(g: Geometry, fat: seq<nat>, fat': seq<nat>, ch: seq<nat>, ch': seq<nat>, st: seq<Sector>,
          st': seq<Sector>, s: int)
    requires Big(g, st) && Big(g, st')
  {
    forall other: seq<nat>, size: nat :: Bystander(g, fat, ch, other, size) && !InChain(g, other, s) ==>
      && Bystander(g, fat', ch', other, size)
      && Content(g, st', other, size) == Content(g, st, other, size)
  }

  lemma UntouchedTrans(g: Geometry, fat: seq<nat>, fat': seq<nat>, fat'': seq<nat>, ch: seq<nat>, ch': seq<nat>,
          ch'': seq<nat>, st: seq<Sector>, st': seq<Sector>, st'': seq<Sector>, s: int)
    requires Big(g, st) && Big(g, st') && Big(g, st'')
    requires Untouched(g, fat, fat', ch, ch', st, st', s) && Untouched(g, fat', fat'', ch', ch'', st', st'', s)
    ensures Untouched(g, fat, fat'', ch, ch'', st, st'', s)
  {
    hide Content, Big;
  }

  /** What f_write does to the file leaves all others alone. */
  lemma OthersUntouched(g: Geometry, fat: seq<nat>, fat': seq<nat>, ch: seq<nat>, ch': seq<nat>, st: seq<Sector>,
          st': seq<Sector>, s: int)
    requires Extends(fat, fat', ch, ch') && SameOutside(g, ch', st, st') && Big(g, st) && Big(g, st')
    ensures Untouched(g, fat, fat', ch, ch', st, st', s)
  {
    hide Content, Big, Clusters, Holds, IsChain, SameOutside;
    forall other: seq<nat>, size: nat | Bystander(g, fat, ch, other, size)
      ensures Bystander(g, fat', ch', other, size)
      ensures Content(g, st', other, size) == Content(g, st, other, size)
    {
      BystanderKept(g, fat, fat', ch, ch', st, st', other, size);
    }
  }

  /** And so does an edit of the directory sector. */
  lemma EditUntouched(g: Geometry, fat: seq<nat>, ch: seq<nat>, st: seq<Sector>, s: nat, x: Sector)
    requires Big(g, st) && s < |st|
    ensures Untouched(g, fat, fat, ch, ch, st, st[s := x], s)
  {
    forall other: seq<nat>, size: nat | Bystander(g, fat, ch, other, size) && !InChain(g, other, s)
      ensures Content(g, st[s := x], other, size) == Content(g, st, other, size)
    {
      EditApart(g, other, st, s, x, size);
    }
  }

  lemma SameBytes(g: Geometry, ch: seq<nat>, st: seq<Sector>, st': seq<Sector>, other: seq<nat>, size: nat)
    requires Big(g, st) && Clusters(g, other) && Holds(g, other, size) && SameOutside(g, ch, st, st')
    requires forall c :: c in other ==> c !in ch
    ensures Content(g, st', other, size) == Content(g, st, other, size)
  {
    forall j | 0 <= j < size
      ensures Content(g, st', other, size)[j] == Content(g, st, other, size)[j]
    {
      HoldsLess(g, other, size, j);
      SectorInChain(g, other, j / 512);
      assert ByteAt(g, st', other, size, j) == ByteAt(g, st, other, size, j);
    }
  }

  /** Sector s is outside the data area or in a cluster that is in use, but not by ch. */
  ghost predicate Elsewhere(g: Geometry, fat: seq<nat>, ch: seq<nat>, s: nat)
    requires g.Valid()
  {
    s < g.database || (IsCluster(fat, g.Sect2Clust(s)) && fat[g.Sect2Clust(s)] != 0 && g.Sect2Clust(s) !in ch)
  }

  lemma ElsewhereKept(g: Geometry, fat: seq<nat>, fat': seq<nat>, ch: seq<nat>, ch': seq<nat>, s: nat)
    requires g.Valid() && |fat| == g.maxClust && Elsewhere(g, fat, ch, s) && Extends(fat, fat', ch, ch')
    ensures Elsewhere(g, fat', ch', s) && !InChain(g, ch', s)
  {
    if s >= g.database {
      var c := g.Sect2Clust(s);
      forall i | 0 <= i < |ch'|
        ensures ch'[i] != c
      {
        if i < |ch| {
          assert ch'[i] == ch[i] && ch[i] in ch;
        }
      }
    }
  }

  /** What has happened to a file since some earlier moment: bytes were appended, its
      chain grew by free clusters, nothing outside it changed, and it is ready for
      more. */
  ghost predicate Appended(fp: FIL, data: seq<Byte>, fat0: seq<nat>, ch0: seq<nat>, st0: seq<Sector>)
    reads fp, fp.fs, fp.fs.disk, fp.fs.win
  {
    && fp.Valid() && fp.Cursor() && fp.Ahead() && fp.fptr == fp.fsize && WellFormed(fp.fs.Fat())
    && fp.Data() == data
    && Extends(fat0, fp.fs.Fat(), ch0, fp.chain) && SameOutside(fp.fs.g, fp.chain, st0, fp.fs.Store())
  }

  /** The clusters of the volume are enough for all the pieces, and the size stays below
      4 GB. */
  ghost predicate Room(fp: FIL, pieces: seq<seq<Byte>>)
    requires fp.fs.Valid() && fp.fs.g.Valid()
    reads fp, fp.fs, fp.fs.disk, fp.fs.win
  {
    fp.fsize + |Concat(pieces)| < 0x1_0000_0000 && fp.HasRoom(fp.fsize + |Concat(pieces)|)
  }

  /** f_write once for each piece, on a file positioned at its end. Unless a disk call
      fails, the result is FR_OK if and only if there is room for all of it. */
  method AppendAll(fp: FIL, pieces: seq<seq<Byte>>) returns (res: FResult)
    requires fp.Valid() && fp.Cursor() && fp.Ahead() && fp.fptr == fp.fsize && WellFormed(fp.fs.Fat())
    requires forall i :: 0 <= i < |pieces| ==> |pieces[i]| < 0x1_0000
    modifies fp`sectClust, fp`currClust, fp`currSect, fp`orgClust, fp`chain, fp`fptr, fp`fsize, fp`written, fp`error
    modifies fp.fs`winsect, fp.fs`winflag, fp.fs`lastClust, fp.fs`freeClust, fp.fs.win, fp.fs.disk
    ensures fp.fs.Valid() && fp.fs.SameDisk()
    ensures res == FR_OK ==> fp.error == old(fp.error)
    ensures res == FR_OK ==>
      Appended(fp, old(fp.Data()) + Concat(pieces), old(fp.fs.Fat()), old(fp.chain), old(fp.fs.Store()))
    ensures res == FR_OK && pieces != [] ==> fp.written
    ensures fp.fs.disk.Faults() == old(fp.fs.disk.Faults()) && old(fp.Refusal(fp.canWrite)) == FR_OK
            && old(fp.fsize) + |Concat(pieces)| < 0x1_0000_0000 ==>
      (res == FR_OK <==> old(Room(fp, pieces)))
  {
    hide FATFS.Fat, FATFS.Store, FATFS.View, FATFS.Valid, WellFormed, Content, Free, Needed, Geometry.Valid, Appended;
    hide Concat, IsFile, Extends, SameOutside;
    ghost var data, fat0, ch0, st0 := fp.Data(), fp.fs.Fat(), fp.chain, fp.fs.Store();
    res := FR_OK;
    NothingAppended(fp);
    AppendedParts(fp, data, fat0, ch0, st0);
    var i := 0;
    while i < |pieces|
      invariant 0 <= i <= |pieces| && res == FR_OK
      invariant Appended(fp, data + Concat(pieces[..i]), fat0, ch0, st0)
      invariant fp.fs.Valid() && fp.fs.SameDisk() && fp.error == old(fp.error) && (i > 0 ==> fp.written)
    {
      ConcatStep(pieces, i);
      ConcatGrows(pieces, i + 1);
      res := AppendOne(fp, pieces[i], data + Concat(pieces[..i]), fat0, ch0, st0);
      if res != FR_OK {
        NoRoom(fp.fs.g, |data| + |Concat(pieces[..i + 1])|, |data| + |Concat(pieces)|);
        return;
      }
      assert data + Concat(pieces[..i]) + pieces[i] == data + Concat(pieces[..i + 1]);
      i := i + 1;
    }
    assert pieces[..i] == pieces;
    RoomUsed(fp, data + Concat(pieces), fat0, ch0, st0);
  }

  lemma ConcatStep(pieces: seq<seq<Byte>>, i: nat)
    requires i < |pieces|
    ensures Concat(pieces[..i + 1]) == Concat(pieces[..i]) + pieces[i]
  {
    assert pieces[..i + 1][..i] == pieces[..i];
  }

  lemma NothingAppended(fp: FIL)
    requires fp.Valid() && fp.Cursor() && fp.Ahead() && fp.fptr == fp.fsize && WellFormed(fp.fs.Fat())
    ensures Appended(fp, fp.Data() + Concat([]), fp.fs.Fat(), fp.chain, fp.fs.Store()) && Concat([]) == []
    ensures Appended(fp, fp.Data(), fp.fs.Fat(), fp.chain, fp.fs.Store())
  {
    hide FATFS.Fat, FATFS.Store, FATFS.Valid, WellFormed, Extends, IsFile, SameOutside, AheadOf, AtSector, Content;
    assert fp.Data() + [] == fp.Data();
    FirstCluster(fp.fs.g, fp.fs.Fat(), fp.orgClust, fp.chain, fp.fsize);
    ExtendsSelf(fp.fs.g, fp.fs.Fat(), fp.chain);
    SameOutsideSelf(fp.fs.g, fp.chain, fp.fs.Store());
  }

  lemma AppendedParts(fp: FIL, data: seq<Byte>, fat0: seq<nat>, ch0: seq<nat>, st0: seq<Sector>)
    requires Appended(fp, data, fat0, ch0, st0)
    ensures fp.fs.Valid() && fp.fs.g.Valid() && |data| == fp.fsize
  {
    hide FATFS.Fat, FATFS.Store, FATFS.Valid, WellFormed, Extends, SameOutside, AheadOf, AtSector, Content;
  }

  lemma {:induction false} ConcatGrows(pieces: seq<seq<Byte>>, i: nat)
    requires i <= |pieces|
    ensures |Concat(pieces[..i])| <= |Concat(pieces)|
    decreases |pieces|
  {
    if i < |pieces| {
      var front := pieces[..|pieces| - 1];
      ConcatGrows(front, i);
      assert front[..i] == pieces[..i];
    } else {
      assert pieces[..i] == pieces;
    }
  }

  /** More bytes need no fewer clusters. */
  lemma NoRoom(g: Geometry, n: nat, m: nat)
    requires g.Valid() && n <= m
    ensures Needed(g, n) <= Needed(g, m)
  {
    if n > 0 {
      QuotMonotone((n - 1) / 512, (m - 1) / 512, g.sectsClust);
    }
  }

  /** What has been appended did have room. */
  lemma RoomUsed(fp: FIL, data: seq<Byte>, fat0: seq<nat>, ch0: seq<nat>, st0: seq<Sector>)
    requires Appended(fp, data, fat0, ch0, st0)
    ensures fp.fs.g.Valid() && Needed(fp.fs.g, |data|) <= |ch0| + Free(fat0)
  {
    hide FATFS.Fat, FATFS.Store, FATFS.Valid, WellFormed, SameOutside, AheadOf, AtSector, Content, Extends;
    FirstCluster(fp.fs.g, fp.fs.Fat(), fp.orgClust, fp.chain, fp.fsize);
    ExtendsCount(fat0, fp.fs.Fat(), ch0, fp.chain);
    HoldsNeeded(fp.fs.g, fp.chain, fp.fsize);
  }

  method AppendOne(fp: FIL, piece: seq<Byte>, ghost data: seq<Byte>, ghost fat0: seq<nat>, ghost ch0: seq<nat>,
          ghost st0: seq<Sector>)
    returns (res: FResult)
    requires Appended(fp, data, fat0, ch0, st0) && |piece| < 0x1_0000
    modifies fp`sectClust, fp`currClust, fp`currSect, fp`orgClust, fp`chain, fp`fptr, fp`fsize, fp`written, fp`error
    modifies fp.fs`winsect, fp.fs`winflag, fp.fs`lastClust, fp.fs`freeClust, fp.fs.win, fp.fs.disk
    ensures fp.fs.Valid() && fp.fs.SameDisk()
    ensures res == FR_OK ==> fp.error == old(fp.error) && Appended(fp, data + piece, fat0, ch0, st0) && fp.written
    ensures res != FR_OK && fp.fs.disk.Faults() == old(fp.fs.disk.Faults()) && old(fp.Refusal(fp.canWrite)) == FR_OK
            && |data| + |piece| < 0x1_0000_0000 ==>
      fp.fs.g.Valid() && Needed(fp.fs.g, |data| + |piece|) > |ch0| + Free(fat0)
  {
    hide FATFS.Fat, FATFS.Store, FATFS.Valid, WellFormed, Extends, IsFile, SameOutside, AheadOf, AtSector, Overwritten;
    hide Content, Free, Needed, Geometry.Valid;
    ghost var fat, ch, st := fp.fs.Fat(), fp.chain, fp.fs.Store();
    FirstCluster(fp.fs.g, fat, fp.orgClust, ch, fp.fsize);
    ExtendsCount(fat0, fat, ch0, ch);
    AheadIsClear(fp.fs.g, ch, fp.fptr, |piece|, fp.fs.winsect);
    var buff := new Byte[|piece|](k requires 0 <= k < |piece| => piece[k]);
    assert buff[..] == piece;
    var bw;
    res, bw := fp.Write(buff, |piece|);
    if res != FR_OK { return; }
    if bw < |piece| { return FR_DENIED; }
    OverwrittenAtEnd(data, piece);
    ExtendsCount(fat, fp.fs.Fat(), ch, fp.chain);
    ExtendsTrans(fat0, fat, fp.fs.Fat(), ch0, ch, fp.chain);
    SameOutsideLonger(fp.fs.g, ch, fp.chain, st0, st);
    SameOutsideRun(fp.fs.g, fp.chain, st0, st, fp.fs.Store());
  }

  /** Pieces of any sizes are appended to a file, f_sync, f_lseek, f_read: the bytes at
      any position are those of the file and the pieces joined together. Every other file
      keeps its chain and its bytes. Unless a disk call fails, all this happens if and only
      if there is room. */
  method WriteThenRead(fp: FIL, pieces: seq<seq<Byte>>, time: nat, ofs: nat, n: nat)
    returns (res: FResult, got: seq<Byte>)
    requires fp.Valid() && fp.Cursor() && fp.Ahead() && fp.fptr == fp.fsize && WellFormed(fp.fs.Fat())
    requires pieces != [] && forall i :: 0 <= i < |pieces| ==> |pieces[i]| < 0x1_0000
    requires fp.EntryApart() && Elsewhere(fp.fs.g, fp.fs.Fat(), fp.chain, fp.dirSect)
    requires time < 0x1_0000_0000 && n < 0x1_0000
    modifies fp`sectClust, fp`currClust, fp`currSect, fp`orgClust, fp`chain, fp`fptr, fp`fsize, fp`written, fp`error
    modifies fp.fs`winsect, fp.fs`winflag, fp.fs`lastClust, fp.fs`freeClust, fp.fs.win, fp.fs.disk
    ensures fp.fs.Valid() && fp.fs.SameDisk()
    ensures res == FR_OK ==>
      && fp.Valid() && fp.Cursor() && WellFormed(fp.fs.Fat()) && fp.Data() == old(fp.Data()) + Concat(pieces)
      && var all := old(fp.Data()) + Concat(pieces); got == all[Min(ofs, |all|)..Min(ofs + n, |all|)]
    ensures res == FR_OK ==>
      Untouched(fp.fs.g, old(fp.fs.Fat()), fp.fs.Fat(), old(fp.chain), fp.chain, old(fp.fs.Store()), fp.fs.Store(),
        fp.dirSect)
    ensures fp.fs.disk.Faults() == old(fp.fs.disk.Faults()) && old(fp.Refusal(fp.canRead && fp.canWrite)) == FR_OK
            && old(fp.fsize) + |Concat(pieces)| < 0x1_0000_0000 ==>
      (res == FR_OK <==> old(Room(fp, pieces)))
  {
    hide FATFS.Fat, FATFS.Store, FATFS.Valid, WellFormed, Extends, IsFile, SameOutside, AheadOf, AtSector, Content;
    hide Elsewhere, Stamped, Needed, Untouched, Free, Room, FATFS.View, FIL.Cursor, Concat, Geometry.Valid, InChain;
    ghost var g, fat0, ch0, st0, all := fp.fs.g, fp.fs.Fat(), fp.chain, fp.fs.Store(), fp.Data() + Concat(pieces);
    got := [];
    res := AppendAll(fp, pieces);
    if res != FR_OK { return; }
    ElsewhereKept(g, fat0, fp.fs.Fat(), ch0, fp.chain, fp.dirSect);
    ghost var fat1, ch1, st1 := fp.fs.Fat(), fp.chain, fp.fs.Store();
    OthersUntouched(g, fat0, fat1, ch0, ch1, st0, st1, fp.dirSect);
    res := fp.Sync(time);
    if res != FR_OK { return; }
    EditUntouched(g, fat1, ch1, st1, fp.dirSect, fp.fs.Store()[fp.dirSect]);
    UntouchedTrans(g, fat0, fat1, fat1, ch0, ch1, ch1, st0, st1, fp.fs.Store(), fp.dirSect);
    res, got := ReadBack(fp, ofs, n, all);
  }

  /** f_lseek and f_read on a file whose sectors are not in the window. */
  method ReadBack(fp: FIL, ofs: nat, n: nat, ghost all: seq<Byte>)
    returns (res: FResult, got: seq<Byte>)
    requires fp.Valid() && WellFormed(fp.fs.Fat()) && fp.Data() == all && n < 0x1_0000
    requires !InChain(fp.fs.g, fp.chain, fp.fs.winsect)
    modifies fp`sectClust, fp`currClust, fp`currSect, fp`orgClust, fp`chain, fp`fptr, fp`fsize, fp`written, fp`error
    modifies fp.fs`winsect, fp.fs`winflag, fp.fs`lastClust, fp.fs`freeClust, fp.fs.win, fp.fs.disk
    ensures fp.fs.Valid() && fp.fs.SameDisk()
    ensures res == FR_OK ==> fp.Valid() && fp.Cursor() && fp.Data() == all
    ensures res == FR_OK ==>
      fp.fs.Fat() == old(fp.fs.Fat()) && fp.fs.Store() == old(fp.fs.Store()) && fp.chain == old(fp.chain)
    ensures res == FR_OK ==> got == all[Min(ofs, |all|)..Min(ofs + n, |all|)]
    ensures fp.fs.disk.Faults() == old(fp.fs.disk.Faults()) && old(fp.Refusal(fp.canRead)) == FR_OK ==> res == FR_OK
  {
    hide FATFS.Fat, FATFS.Store, FATFS.View, FATFS.Valid, WellFormed, IsFile, Content, InChain, FIL.Cursor, FIL.Ahead;
    got := [];
    res := SeekInside(fp, Min(ofs, fp.fsize));
    if res != FR_OK { return; }
    FirstCluster(fp.fs.g, fp.fs.Fat(), fp.orgClust, fp.chain, fp.fsize);
    ClearOutside(fp.fs.g, fp.chain, fp.fptr, Min(n, fp.fsize - fp.fptr), fp.fs.winsect);
    fp.Fresh(Min(n, fp.fsize - fp.fptr));
    res, got := ReadOn(fp, n);
  }

  /** f_read of up to n bytes from the pointer on. */
  method ReadOn(fp: FIL, n: nat) returns (res: FResult, got: seq<Byte>)
    requires fp.Valid() && fp.Cursor() && n < 0x1_0000 && !fp.Outdated(Min(n, fp.fsize - fp.fptr))
    modifies fp`sectClust, fp`currClust, fp`currSect, fp`fptr, fp`error
    modifies fp.fs`winsect, fp.fs`winflag, fp.fs.win, fp.fs.disk
    ensures fp.Valid() && fp.fs.SameDisk() && fp.fs.Fat() == old(fp.fs.Fat()) && fp.fs.Store() == old(fp.fs.Store())
    ensures fp.Data() == old(fp.Data())
    ensures res == FR_OK ==> fp.Cursor() && got == fp.Data()[old(fp.fptr)..Min(old(fp.fptr) + n, fp.fsize)]
    ensures fp.fs.disk.Faults() == old(fp.fs.disk.Faults()) ==> res == old(fp.Refusal(fp.canRead))
  {
    hide FATFS.Fat, FATFS.Store, FATFS.View, FATFS.Valid, IsFile, Content, FIL.Cursor, FIL.Outdated, FIL.SeenData;
    got := [];
    var buff := new Byte[n];
    var br;
    res, br := fp.Read(buff, n);
    if res == FR_OK {
      got := buff[..br];
    }
  }

  lemma ClearOutside(g: Geometry, ch: seq<nat>, p: nat, n: nat, w: nat)
    requires Clusters(g, ch) && !InChain(g, ch, w)
    ensures ClearOf(g, ch, p, n, w)
  {
    forall k | Covers(g, ch, k)
      ensures SectorNo(g, ch, k) != w
    {
      SectorInChain(g, ch, k);
    }
  }

  lemma OverwrittenAtEnd(data: seq<Byte>, piece: seq<Byte>)
    ensures Overwritten(data, |data|, piece, |piece|) == data + piece
  {
  }

  /** f_lseek to the end, the pieces, f_sync. st1 is the store before the directory entry is
      stamped. */
  method AppendAndSync(fp: FIL, pieces: seq<seq<Byte>>, time: nat) returns (res: FResult, ghost st1: seq<Sector>)
    requires fp.Valid() && fp.canWrite && WellFormed(fp.fs.Fat()) && !InChain(fp.fs.g, fp.chain, fp.fs.winsect)
    requires pieces != [] && forall i :: 0 <= i < |pieces| ==> |pieces[i]| < 0x1_0000
    requires fp.EntryApart() && Elsewhere(fp.fs.g, fp.fs.Fat(), fp.chain, fp.dirSect) && time < 0x1_0000_0000
    modifies fp`sectClust, fp`currClust, fp`currSect, fp`orgClust, fp`chain, fp`fptr, fp`fsize, fp`written, fp`error
    modifies fp.fs`winsect, fp.fs`winflag, fp.fs`lastClust, fp.fs`freeClust, fp.fs.win, fp.fs.disk
    ensures fp.fs.Valid() && fp.fs.SameDisk()
    ensures res == FR_OK ==>
      && fp.Valid() && !fp.fs.winflag && fp.Data() == old(fp.Data()) + Concat(pieces)
      && fp.orgClust < 0x1_0000 && fp.dirSect < |st1| && fp.dirPtr + 32 <= 512
      && Extends(old(fp.fs.Fat()), fp.fs.Fat(), old(fp.chain), fp.chain)
      && SameOutside(fp.fs.g, fp.chain, old(fp.fs.Store()), st1) && Big(fp.fs.g, st1)
      && st1[fp.dirSect] == old(fp.fs.Store())[fp.dirSect]
      && fp.fs.Store() == st1[fp.dirSect := Stamped(st1[fp.dirSect], fp.dirPtr, fp.fsize, fp.orgClust, time)]
    ensures fp.fs.disk.Faults() == old(fp.fs.disk.Faults()) && old(fp.Refusal(true)) == FR_OK
            && old(fp.fsize) + |Concat(pieces)| < 0x1_0000_0000 ==>
      (res == FR_OK <==> old(Room(fp, pieces)))
  {
    hide FATFS.Fat, FATFS.Store, FATFS.View, FATFS.Valid, WellFormed, Extends, IsFile, AheadOf, AtSector, Content;
    hide Elsewhere, Stamped, Needed, Free, InChain, FIL.Cursor, Concat, Geometry.Valid;
    ghost var g, fat0, ch0, st0 := fp.fs.g, fp.fs.Fat(), fp.chain, fp.fs.Store();
    st1 := st0;
    FirstCluster(g, fat0, fp.orgClust, ch0, fp.fsize);
    res := SeekInside(fp, fp.fsize);
    if res != FR_OK { return; }
    res := AppendAll(fp, pieces);
    if res != FR_OK { return; }
    st1 := fp.fs.Store();
    ElsewhereKept(g, fat0, fp.fs.Fat(), ch0, fp.chain, fp.dirSect);
    FirstCluster(g, fp.fs.Fat(), fp.orgClust, fp.chain, fp.fsize);
    StartIsWord(g, fp.fs.Fat(), fp.orgClust, fp.chain, fp.fsize);
    res := fp.Sync(time);
  }

  /** f_lseek to a place in the file, with no sector of the file in the window. */
  method SeekInside(fp: FIL, at: nat) returns (res: FResult)
    requires fp.Valid() && WellFormed(fp.fs.Fat()) && !InChain(fp.fs.g, fp.chain, fp.fs.winsect) && at <= fp.fsize
    modifies fp`sectClust, fp`currClust, fp`currSect, fp`orgClust, fp`chain, fp`fptr, fp`fsize, fp`written, fp`error
    modifies fp.fs`winsect, fp.fs`winflag, fp.fs`lastClust, fp.fs`freeClust, fp.fs.win, fp.fs.disk
    ensures fp.fs.Valid() && fp.fs.SameDisk()
    ensures res == FR_OK ==>
      && fp.Valid() && fp.Cursor() && fp.Ahead() && fp.fptr == at && fp.fsize == old(fp.fsize)
      && fp.Data() == old(fp.Data()) && fp.fs.Fat() == old(fp.fs.Fat()) && fp.fs.Store() == old(fp.fs.Store())
      && fp.chain == old(fp.chain) && fp.error == old(fp.error) && !InChain(fp.fs.g, fp.chain, fp.fs.winsect)
    ensures fp.fs.disk.Faults() == old(fp.fs.disk.Faults()) ==> res == old(fp.Refusal(true))
  {
    hide FATFS.Fat, FATFS.Store, FATFS.Valid, WellFormed, Extends, IsFile, AheadOf, AtSector, Content, Needed, Free;
    hide InChain;
    FirstCluster(fp.fs.g, fp.fs.Fat(), fp.orgClust, fp.chain, fp.fsize);
    TableOutside(fp.fs.g, fp.chain);
    res := fp.Seek(at);
    if res != FR_OK { return; }
    OutsideIsAhead(fp.fs.g, fp.chain, fp.fptr, fp.fs.winsect);
  }

  /** The window holds no sector of a file whose clusters it is outside of. */
  lemma OutsideIsAhead(g: Geometry, ch: seq<nat>, p: nat, w: nat)
    requires Clusters(g, ch) && !InChain(g, ch, w)
    ensures AheadOf(g, ch, p, w)
  {
    forall k | Covers(g, ch, k)
      ensures SectorNo(g, ch, k) != w
    {
      SectorInChain(g, ch, k);
    }
  }

  lemma TableOutside(g: Geometry, ch: seq<nat>)
    requires g.Valid()
    ensures forall w: nat :: w < g.database ==> !InChain(g, ch, w)
  {
  }
}
