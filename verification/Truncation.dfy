/** Opening an existing file to write it anew (tff.c, lines 842-896): its entry is emptied
    in the window and its clusters are freed. */
module Truncation {
  import opened Bytes
  import opened Layout
  import opened Chains
  import opened FatTable
  import opened FileData
  import opened FileSystem
  import opened Transfer
  import opened FileObject
  import opened Names
  import opened Directory
  import opened Paths
  import opened Sessions

  /** The entry at offset at of a sector, without clusters and bytes. */
  function Emptied(sector: Sector, at: nat): (r: Sector)
    requires at + 32 <= 512
  {
    StoreDword(StoreWord(sector, at + 26, 0), at + 28, 0)
  }

  /** And with the archive attribute and new times. */
  function Renewed(sector: Sector, at: nat, time: nat): (r: Sector)
    requires at + 32 <= 512 && time < 0x1_0000_0000
  {
    StoreDword(StoreDword(Emptied(sector, at)[at + 11 := 0x20], at + 22, time), at + 14, time)
  }

  lemma RenewedBytes(sector: Sector, at: nat, time: nat)
    requires at + 32 <= 512 && time < 0x1_0000_0000
    ensures var r := Renewed(sector, at, time);
      && r[at + 11] == 0x20 && LoadWord(r, at + 26) == 0 && LoadDword(r, at + 28) == 0
      && (forall i :: at <= i < at + 11 ==> r[i] == sector[i])
      && (forall i :: 0 <= i < 512 && !(at <= i < at + 32) ==> r[i] == sector[i])
  {
    hide StoreWord, StoreDword;
    var r0 := StoreWord(sector, at + 26, 0);
    var r1 := StoreDword(r0, at + 28, 0);
    var r2 := r1[at + 11 := 0x20];
    WordReads(sector, at + 26, 0);
    DwordReads(r0, at + 28, 0);
    DwordReads(r2, at + 22, time);
    DwordReads(StoreDword(r2, at + 22, time), at + 14, time);
  }

  /** A later f_open finds an empty, plain file of the same name; the other entries of the
      sector are as they were. */
  lemma RenewedReads(sector: Sector, at: nat, time: nat)
    requires at % 32 == 0 && at + 32 <= 512 && time < 0x1_0000_0000
    ensures var r := Renewed(sector, at, time);
      var e := Slot(r, at / 32);
      && StartOf(e) == 0 && SizeOf(e) == 0 && !IsFolder(e) && !ReadOnly(e) && IsLive(e) == (sector[at] != 0xE5)
      && e[..11] == sector[at..at + 11]
      && forall i :: 0 <= i < 16 && i != at / 32 ==> Slot(r, i) == Slot(sector, i)
  {
    hide StoreWord, StoreDword;
    var r := Renewed(sector, at, time);
    RenewedBytes(sector, at, time);
    forall i | 0 <= i < 16 && i != at / 32
      ensures Slot(r, i) == Slot(sector, i)
    {
      assert forall j :: 0 <= j < 32 ==> Slot(r, i)[j] == r[32 * i + j] == sector[32 * i + j];
    }
    EntryBytes(r, at / 32, Slot(r, at / 32));
  }

  /** Sector s holds directory entries of the tree. */
  ghost predicate InDirectories(g: Geometry, tree: map<nat, seq<nat>>, s: nat)
    requires g.Valid()
  {
    g.dirbase <= s && (s < g.database || exists c :: c in tree && g.Sect2Clust(s) in tree[c])
  }

  /** A chain shares no cluster with the directories. */
  predicate Apart(tree: map<nat, seq<nat>>, ch: seq<nat>) {
    forall c, x :: c in tree && x in ch ==> x !in tree[c]
  }

  lemma DirectorySector(g: Geometry, fat: seq<nat>, tree: map<nat, seq<nat>>, d: Folder, p: nat, st: seq<Sector>)
    requires Tree(g, fat, st, tree) && InTree(d, tree) && d.In(g, fat) && d.Has(g, p)
    ensures InDirectories(g, tree, d.SectorAt(g, p))
  {
    if d.Sub? {
      SectorInChain(g, d.chain, p);
    }
  }

  /** A directory sector is in no other chain, and its cluster stays in use when another
      chain is freed. */
  lemma DirectoryApart(g: Geometry, fat: seq<nat>, st: seq<Sector>, tree: map<nat, seq<nat>>, s: nat, ch: seq<nat>)
    requires Tree(g, fat, st, tree) && InDirectories(g, tree, s) && |fat| == g.maxClust && Apart(tree, ch)
    ensures !InChain(g, ch, s) && Elsewhere(g, Cleared(fat, ch), [], s)
  {
    if s >= g.database {
      var c :| c in tree && g.Sect2Clust(s) in tree[c];
      var k :| 0 <= k < |tree[c]| && tree[c][k] == g.Sect2Clust(s);
      LinkAt(fat, tree[c], k);
    }
  }

  /** The part of f_open that resizes the file whose entry is in the window to zero and
      renews its entry (tff.c, lines 847-868). */
  method Truncate(fs: FATFS, at: nat, time: nat, ghost ch: seq<nat>, ghost size: nat) returns (ok: bool)
    requires fs.Valid() && fs.g.dirbase <= fs.winsect < |fs.disk.sectors| && fs.win.Length == 512 && at + 32 <= 512
    requires IsFile(fs.g, fs.Fat(), LoadWord(fs.win[..], at + 26), ch, size) && time < 0x1_0000_0000
    modifies fs`winsect, fs`winflag, fs`lastClust, fs`freeClust, fs.win, fs.disk
    ensures fs.Valid() && fs.SameDisk()
    ensures !ok ==> fs.disk.Faults() > old(fs.disk.Faults())
    ensures ok ==> fs.Fat() == Cleared(old(fs.Fat()), ch) && fs.freeClust == Raised(old(fs.freeClust), |ch|)
    ensures ok ==> fs.winsect == old(fs.winsect) && fs.win[..] == Renewed(old(fs.win[..]), at, time)
    ensures ok ==> fs.Store() == old(fs.Store())[fs.winsect := Renewed(old(fs.win[..]), at, time)]
    ensures ok ==> fs.lastClust == (old(LoadWord(fs.win[..], at + 26)) - 1) % 0x1_0000
  {
    hide FATFS.Fat, FATFS.Store, FATFS.Valid, FATFS.View, IsFile, Emptied, StoreWord, StoreDword, LoadWord, Removed;
    hide Steps, Cleared;
    ghost var fat, was := fs.Fat(), fs.win[..];
    var sect := fs.winsect;
    var rs := LoadWord(fs.win[..], at + 26);
    fs.Edit(sect, Emptied(fs.win[..], at));
    FreedChain(fs.g, fat, rs, ch, size);
    ghost var st := fs.Store();
    ok := fs.RemoveChain(rs);
    if !ok { return; }
    ok := fs.MoveWindow(sect);
    if !ok { return; }
    SectorInWindow(fs, sect);
    fs.SearchFrom((rs as int - 1) % 0x1_0000);
    fs.Edit(sect, Renew(fs.win[..], at, time));
  }

  /** The second edit of the entry, on a sector already emptied. */
  function Renew(sector: Sector, at: nat, time: nat): (r: Sector)
    requires at + 32 <= 512 && time < 0x1_0000_0000
  {
    StoreDword(StoreDword(sector[at + 11 := 0x20], at + 22, time), at + 14, time)
  }

  lemma SectorInWindow(fs: FATFS, sect: nat)
    requires fs.Valid() && fs.g.dirbase <= sect < |fs.View()| && fs.win[..] == fs.View()[sect]
    ensures fs.win[..] == fs.Store()[sect]
  {
    hide FATFS.Valid, FATFS.View;
  }

  lemma FreedChain(g: Geometry, fat: seq<nat>, org: nat, ch: seq<nat>, size: nat)
    requires IsFile(g, fat, org, ch, size)
    ensures Removed(fat, org) == (Cleared(fat, ch), true) && Steps(fat, org) == |ch|
  {
    if org == 0 {
      assert Cleared(fat, ch) == fat;
    } else {
      RemovedChain(fat, ch);
    }
  }

  /** f_open with one of the creating flags. A file that exists is refused with
      FA_CREATE_NEW; with FA_CREATE_ALWAYS it is empty afterwards, its clusters are free,
      and nothing else has changed but its entry; otherwise it is opened as it is. A path
      that leads nowhere is returned as such; from there the source goes on to create an
      entry. */
  method OpenCreating(fs: FATFS, path: seq<Byte>, read: bool, write: bool, createNew: bool, createAlways: bool,
          time: nat, ghost tree: map<nat, seq<nat>>, ghost ch: seq<nat>)
    returns (res: FResult, fp: FIL?, ghost e: Raw)
    requires fs.Valid() && Tree(fs.g, fs.Fat(), fs.Store(), tree) && Apart(tree, ch) && time < 0x1_0000_0000
    requires forall f :: NamesFile(fs.g, fs.Fat(), fs.Store(), tree, path, f) ==>
      IsFile(fs.g, fs.Fat(), StartOf(f), ch, SizeOf(f))
    modifies fs`winsect, fs`winflag, fs`lastClust, fs`freeClust, fs.win, fs.disk
    ensures fs.Valid() && fs.SameDisk()
    ensures res == FR_OK ==>
      && NamesFile(fs.g, old(fs.Fat()), old(fs.Store()), tree, path, e) && !ReadOnly(e) && !createNew
    ensures res == FR_OK ==>
      && fp != null && fresh(fp) && fp.fs == fs && fp.Valid() && fp.Cursor() && fp.fptr == 0
      && fp.canRead == read && fp.canWrite == write && !fp.error && !fp.written && fp.attached && fp.id == fs.id
      && fp.dirSect == fs.winsect < |old(fs.Store())| && Entry32(old(fs.Store())[fp.dirSect], fp.dirPtr) == e
      && fp.dirSect < |fs.disk.sectors| && InDirectories(fs.g, tree, fp.dirSect)
    ensures res == FR_OK && createAlways ==>
      && fp.fsize == 0 && fp.chain == [] && fp.EntryApart()
      && fs.Fat() == Cleared(old(fs.Fat()), ch) && fs.freeClust == Raised(old(fs.freeClust), |ch|)
      && fs.Store() == old(fs.Store())[fp.dirSect := Renewed(old(fs.Store())[fp.dirSect], fp.dirPtr, time)]
    ensures res == FR_OK && !createAlways ==>
      && fp.fsize == SizeOf(e) && fp.chain == ch && fp.orgClust == StartOf(e)
      && fs.Fat() == old(fs.Fat()) && fs.Store() == old(fs.Store())
    ensures res != FR_OK && fs.disk.Faults() == old(fs.disk.Faults()) ==>
      && fs.Fat() == old(fs.Fat()) && fs.Store() == old(fs.Store())
      && forall f :: NamesFile(fs.g, fs.Fat(), fs.Store(), tree, path, f) ==>
        if createNew then res == FR_EXIST else res == FR_DENIED && ReadOnly(f)
  {
    hide FATFS.Fat, FATFS.Store, FATFS.View, FATFS.Valid, Stands, Entries, Find, Tree, Resolve, PathAt, Folder.In;
    hide Folder.Count, InTree, IsFile, NamesFile, Slot, InWindow, LoadWord, LoadDword, IsFolder, SameOutsideMirrors;
    hide Cleared, Renewed, InDirectories, Apart, InChain, Geometry.Valid;
    fp := null;
    e := seq(32, _ => 0);
    var d := new DIR(fs);
    var fn := new Byte[12];
    var dir;
    ghost var fat, st := fs.Fat(), fs.Store();
    TreeRoot(fs.g, fat, st, tree);
    NoFile(fs.g, fat, st, tree, path);
    res, dir := TracePath(d, path, fn, tree);
    if res != FR_OK { return; }
    if createNew {
      return FR_EXIST, null, e;
    }
    if dir == -1 {
      return FR_DENIED, null, e;
    }
    e := d.Table()[d.pos];
    WindowBytes(d, e);
    FileAt(fs.g, fat, st, tree, path, d.folder, d.pos);
    if fs.win[dir + 11] % 2 == 1 || fs.win[dir + 11] / 16 % 2 == 1 {
      return FR_DENIED, null, e;
    }
    EntryInDirectories(d, tree, ch);
    if createAlways {
      res, fp := OpenEmptied(fs, dir, read, write, time, ch, SizeOf(e));
    } else {
      var org, size := LoadWord(fs.win[..], dir + 26), LoadDword(fs.win[..], dir + 28);
      fp := new FIL(fs, read, write, org, size, fs.winsect, dir, ch);
    }
  }

  /** The part of f_open for FA_CREATE_ALWAYS, from the entry in the window on. */
  method OpenEmptied(fs: FATFS, at: nat, read: bool, write: bool, time: nat, ghost ch: seq<nat>, ghost size: nat)
    returns (res: FResult, fp: FIL?)
    requires fs.Valid() && fs.g.dirbase <= fs.winsect < |fs.disk.sectors| && fs.win.Length == 512 && at + 32 <= 512
    requires IsFile(fs.g, fs.Fat(), LoadWord(fs.win[..], at + 26), ch, size) && time < 0x1_0000_0000
    modifies fs`winsect, fs`winflag, fs`lastClust, fs`freeClust, fs.win, fs.disk
    ensures fs.Valid() && fs.SameDisk()
    ensures res == FR_OK || (res == FR_RW_ERROR && fs.disk.Faults() > old(fs.disk.Faults()))
    ensures res == FR_OK ==>
      && fp != null && fresh(fp) && fp.fs == fs && fp.Valid() && fp.Cursor() && fp.fptr == 0
      && fp.canRead == read && fp.canWrite == write && !fp.error && !fp.written && fp.attached && fp.id == fs.id
      && fp.dirSect == fs.winsect == old(fs.winsect) && fp.dirPtr == at && fp.fsize == 0 && fp.chain == []
      && fs.Fat() == Cleared(old(fs.Fat()), ch) && fs.freeClust == Raised(old(fs.freeClust), |ch|)
      && fs.Store() == old(fs.Store())[fp.dirSect := Renewed(old(fs.win[..]), at, time)]
  {
    hide FATFS.Fat, FATFS.Store, FATFS.Valid, IsFile, Cleared, Renewed, LoadWord, InChain, Geometry.Valid;
    res, fp := FR_OK, null;
    var ok := Truncate(fs, at, time, ch, size);
    if !ok {
      return FR_RW_ERROR, null;
    }
    TableOf(fs);
    EmptyFile(fs.g, fs.Fat());
    fp := new FIL(fs, read, write, 0, 0, fs.winsect, at, []);
  }

  function Entry32(s: Sector, at: nat): seq<Byte> { if at + 32 <= 512 then s[at..at + 32] else [] }

  lemma EmptyFile(g: Geometry, fat: seq<nat>)
    requires g.Valid() && |fat| == g.maxClust
    ensures IsFile(g, fat, 0, [], 0)
  {
  }

  /** The entry that has been found is in the window, in a sector that holds entries. */
  lemma EntryInDirectories(d: DIR, tree: map<nat, seq<nat>>, ch: seq<nat>)
    requires d.Valid() && d.sect != 0 && Tree(d.fs.g, d.fs.Fat(), d.fs.Store(), tree) && InTree(d.folder, tree)
    requires d.pos < |d.Table()| && InWindow(d, d.Table()[d.pos])
    ensures d.fs.g.Valid() && InDirectories(d.fs.g, tree, d.fs.winsect)
    ensures d.fs.g.dirbase <= d.fs.winsect < |d.fs.disk.sectors| == |d.fs.Store()|
    ensures d.fs.win[..] == d.fs.Store()[d.fs.winsect]
    ensures !InChain(d.fs.g, [], d.fs.winsect)
  {
    hide FATFS.Fat, FATFS.Store, FATFS.View, FATFS.Valid, Stands, Tree, InTree, Entries, Folder.In, Folder.Has;
    hide Folder.SectorAt, Folder.Count, InDirectories, Slot, Geometry.End;
    var g := d.fs.g;
    ValidGeometry(g, d.folder, d.fs.Fat());
    StandsAt(g, d.folder, d.pos / 16, d.clust, d.sect);
    FolderSectors(g, d.fs.Fat(), d.folder, d.pos / 16);
    DirectorySector(g, d.fs.Fat(), tree, d.folder, d.pos / 16, d.fs.Store());
    OnVolume(d.fs);
    WindowIsView(d.fs);
    SectorInWindow(d.fs, d.sect);
  }

  lemma OnVolume(fs: FATFS)
    requires fs.Valid()
    ensures fs.g.End() <= |fs.disk.sectors| == |fs.View()| == |fs.Store()|
  {
  }

  lemma WindowIsView(fs: FATFS)
    requires fs.Valid() && fs.g.dirbase <= fs.winsect
    ensures fs.winsect < |fs.View()| && fs.win[..] == fs.View()[fs.winsect]
  {
  }

  /** Freeing one file's chain leaves a well-formed table and, with an edit of the directory
      sector s, every other file as it was. */
  lemma OthersAfterFreeing(g: Geometry, fat: seq<nat>, ch: seq<nat>, st: seq<Sector>, s: nat, x: Sector)
    requires g.Valid() && WellFormed(fat) && ChainOrNone(fat, ch) && (ch != [] ==> IsHead(fat, ch[0]))
    requires Big(g, st) && s < |st|
    ensures WellFormed(Cleared(fat, ch)) && Free(Cleared(fat, ch)) == Free(fat) + |ch|
    ensures Untouched(g, fat, Cleared(fat, ch), ch, [], st, st[s := x], s)
  {
    hide WellFormed, IsHead, Content, Free;
    if ch == [] {
      assert Cleared(fat, ch) == fat;
    } else {
      RemovedWellFormed(fat, ch);
      RemovedChain(fat, ch);
    }
    forall other: seq<nat>, size: nat | Bystander(g, fat, ch, other, size) && !InChain(g, other, s)
      ensures Bystander(g, Cleared(fat, ch), [], other, size)
      ensures Content(g, st[s := x], other, size) == Content(g, st, other, size)
    {
      EditApart(g, other, st, s, x, size);
      if ch != [] {
        RemovedOthers(fat, ch, other);
      }
    }
  }

  lemma NothingAhead(g: Geometry, w: nat)
    requires g.Valid()
    ensures AheadOf(g, [], 0, w)
  {
  }

  /** Every other file that has no cluster in common with the directories keeps its chain and
      its bytes. */
  ghost predicate FilesKept(g: Geometry, tree: map<nat, seq<nat>>, fat: seq<nat>, fat': seq<nat>, ch: seq<nat>,
          ch': seq<nat>, st: seq<Sector>, st': seq<Sector>)
    requires Big(g, st) && Big(g, st')
  {
    forall other: seq<nat>, size: nat :: Bystander(g, fat, ch, other, size) && Apart(tree, other) ==>
      && Bystander(g, fat', ch', other, size)
      && Content(g, st', other, size) == Content(g, st, other, size)
  }

  lemma FilesAreKept(g: Geometry, tree: map<nat, seq<nat>>, fat: seq<nat>, fat': seq<nat>, ch: seq<nat>, ch': seq<nat>,
          st: seq<Sector>, st': seq<Sector>, s: nat)
    requires Big(g, st) && Big(g, st') && Untouched(g, fat, fat', ch, ch', st, st', s)
    requires Tree(g, fat, st, tree) && InDirectories(g, tree, s) && |fat| == g.maxClust
    ensures FilesKept(g, tree, fat, fat', ch, ch', st, st')
  {
    hide Content, Tree, InDirectories, Apart, InChain;
    forall other: seq<nat>, size: nat | Bystander(g, fat, ch, other, size) && Apart(tree, other)
      ensures !InChain(g, other, s)
    {
      DirectoryApart(g, fat, st, tree, s, other);
    }
  }

  /** The path names a file that may be written. */
  ghost predicate Writable(g: Geometry, fat: seq<nat>, st: seq<Sector>, tree: map<nat, seq<nat>>, path: seq<Byte>)
    requires Tree(g, fat, st, tree)
  {
    exists e :: NamesFile(g, fat, st, tree, path, e) && !ReadOnly(e)
  }

  /** A file is opened anew, pieces of any sizes are written, f_sync, f_lseek, f_read: what
      comes back are the pieces joined together, whatever was in the file before; every
      other file keeps its chain and its bytes. Unless a disk call fails, all this happens
      if and only if there is such a file, it may be written, and the clusters it had and
      the free ones are enough. */
  method RewriteThenRead(fs: FATFS, path: seq<Byte>, pieces: seq<seq<Byte>>, time: nat, ofs: nat, n: nat,
          ghost tree: map<nat, seq<nat>>, ghost ch: seq<nat>)
    returns (res: FResult, got: seq<Byte>, ghost ch': seq<nat>)
    requires fs.Valid() && Tree(fs.g, fs.Fat(), fs.Store(), tree) && Apart(tree, ch)
    requires forall f :: NamesFile(fs.g, fs.Fat(), fs.Store(), tree, path, f) ==>
      IsFile(fs.g, fs.Fat(), StartOf(f), ch, SizeOf(f))
    requires WellFormed(fs.Fat()) && ChainOrNone(fs.Fat(), ch) && (ch != [] ==> IsHead(fs.Fat(), ch[0]))
    requires pieces != [] && forall i :: 0 <= i < |pieces| ==> |pieces[i]| < 0x1_0000
    requires time < 0x1_0000_0000 && n < 0x1_0000
    modifies fs`winsect, fs`winflag, fs`lastClust, fs`freeClust, fs.win, fs.disk
    ensures fs.Valid()
    ensures res == FR_OK ==> var all := Concat(pieces); got == all[Min(ofs, |all|)..Min(ofs + n, |all|)]
    ensures res == FR_OK ==>
      && WellFormed(fs.Fat())
      && FilesKept(fs.g, tree, old(fs.Fat()), fs.Fat(), ch, ch', old(fs.Store()), fs.Store())
    ensures fs.disk.Faults() == old(fs.disk.Faults()) && !old(fs.disk.noInit) && |Concat(pieces)| < 0x1_0000_0000 ==>
      fs.g.Valid() &&
      (res == FR_OK <==>
       && old(Writable(fs.g, fs.Fat(), fs.Store(), tree, path))
       && Needed(fs.g, |Concat(pieces)|) <= |ch| + Free(old(fs.Fat())))
  {
    hide Concat, FATFS.Fat, FATFS.Store, FATFS.View, FATFS.Valid, WellFormed, Tree, NamesFile, IsFile, InDirectories;
    hide Apart, InChain, Renewed, Elsewhere, AheadOf, IsHead, ChainOrNone, Content, Cleared, IsChain, Untouched;
    hide FilesKept, Needed, Free, Geometry.Valid;
    got, ch' := [], [];
    ghost var fat, st := fs.Fat(), fs.Store();
    var fp: FIL?;
    ghost var e;
    res, fp, e := OpenCreating(fs, path, true, true, false, true, time, tree, ch);
    TableOf(fs);
    if res != FR_OK { return; }
    ghost var fat1, st1 := fs.Fat(), fs.Store();
    OthersAfterFreeing(fs.g, fat, ch, st, fp.dirSect, Renewed(st[fp.dirSect], fp.dirPtr, time));
    DirectoryApart(fs.g, fat, st, tree, fp.dirSect, ch);
    NothingAhead(fs.g, fs.winsect);
    assert fp.Data() == [];
    res, got := WriteThenRead(fp, pieces, time, ofs, n);
    ch' := fp.chain;
    if res == FR_OK {
      assert [] + Concat(pieces) == Concat(pieces);
      UntouchedTrans(fs.g, fat, fat1, fs.Fat(), ch, [], ch', st, st1, fs.Store(), fp.dirSect);
      FilesAreKept(fs.g, tree, fat, fs.Fat(), ch, ch', st, fs.Store(), fp.dirSect);
    }
  }

  lemma TableOf(fs: FATFS)
    requires fs.Valid()
    ensures fs.g.Valid() && |fs.Fat()| == fs.g.maxClust && Big(fs.g, fs.Store())
  {
  }
}
