/** What is on the disk after f_sync: the volume mounted anew has the same directory tree,
    and f_open of the same path finds the file as it was written. */
module Remount {
  import opened Bytes
  import opened Layout
  import opened Chains
  import opened FatTable
  import opened FileData
  import opened FileSystem
  import opened Transfer
  import opened FileObject
  import opened Names
  import opened Directory
  import opened Paths
  import opened Sessions
  import opened Truncation

  // ----- changes that leave the directory tree alone

  /** As far as paths are concerned, the entries are the same. */
  predicate SameKind(e: Raw, e': Raw) {
    && e'[..11] == e[..11] && IsLive(e') == IsLive(e) && IsFolder(e') == IsFolder(e)
    && (IsFolder(e) ==> StartOf(e') == StartOf(e))
  }

  ghost predicate SameKinds(es: seq<Raw>, es': seq<Raw>) {
    |es'| == |es| && forall i :: 0 <= i < |es| ==> SameKind(es[i], es'[i])
  }

  lemma {:induction false} FindSame(es: seq<Raw>, es': seq<Raw>, p: nat, name: seq<Byte>)
    requires SameKinds(es, es')
    ensures Find(es', p, name) == Find(es, p, name)
    decreases |es| - p
  {
    hide IsLive, IsFolder;
    if p < |es| {
      assert SameKind(es[p], es'[p]);
      assert es'[p][..11][0] == es[p][..11][0];
      FindSame(es, es', p + 1, name);
    }
  }

  /** The directories are still there, with the same kinds of entries. */
  ghost predicate TreeKept(g: Geometry, fat: seq<nat>, fat': seq<nat>, st: seq<Sector>, st': seq<Sector>,
          tree: map<nat, seq<nat>>)
  {
    && Big(g, st) && Big(g, st') && Root.In(g, fat')
    && forall d :: InTree(d, tree) && d.In(g, fat) ==>
      d.In(g, fat') && SameKinds(Entries(g, fat, st, d), Entries(g, fat', st', d))
  }

  lemma TreeStays(g: Geometry, fat: seq<nat>, fat': seq<nat>, st: seq<Sector>, st': seq<Sector>,
          tree: map<nat, seq<nat>>)
    requires Tree(g, fat, st, tree) && TreeKept(g, fat, fat', st, st', tree)
    ensures Tree(g, fat', st', tree)
  {
    hide Entries, Find, Folder.In, SameKinds, IsFolder;
    forall c | c in tree
      ensures tree[c] != [] && Sub(tree[c]).In(g, fat') && tree[c][0] == c
    {
      ChainNotEmpty(g, fat, tree[c]);
      assert InTree(Sub(tree[c]), tree);
    }
    forall d, name | InTree(d, tree) && Leads(g, fat', st', tree, d, name)
      ensures StartOf(Entries(g, fat', st', d)[Find(Entries(g, fat', st', d), First(d), name)]) as nat in tree
    {
      var es, es' := Entries(g, fat, st, d), Entries(g, fat', st', d);
      FindSame(es, es', First(d), name);
      KindAt(es, es', Find(es, First(d), name));
      assert Leads(g, fat, st, tree, d, name);
    }
  }

  lemma ChainNotEmpty(g: Geometry, fat: seq<nat>, ch: seq<nat>)
    requires Sub(ch).In(g, fat)
    ensures ch != []
  {
  }

  lemma KindAt(es: seq<Raw>, es': seq<Raw>, i: int)
    requires SameKinds(es, es') && 0 <= i < |es|
    ensures i < |es'| && IsFolder(es'[i]) == IsFolder(es[i]) && (IsFolder(es[i]) ==> StartOf(es'[i]) == StartOf(es[i]))
  {
    assert SameKind(es[i], es'[i]);
  }

  lemma {:induction false} ResolveStays(g: Geometry, fat: seq<nat>, fat': seq<nat>, st: seq<Sector>, st': seq<Sector>,
          tree: map<nat, seq<nat>>, d: Folder, path: seq<Byte>, i: nat)
    requires Tree(g, fat, st, tree) && TreeKept(g, fat, fat', st, st', tree) && Tree(g, fat', st', tree)
    requires InTree(d, tree) && d.In(g, fat) && i <= |path|
    ensures Resolve(g, fat', st', tree, d, path, i) == Resolve(g, fat, st, tree, d, path, i)
    decreases |path| - i
  {
    hide Entries, Find, Folder.In, SameKinds, IsFolder, IsName, NameOf, Segment, InTree, Resolve, Tree;
    ResolveStep(g, fat, st, tree, d, path, i);
    ResolveStep(g, fat', st', tree, d, path, i);
    var s, end := Segment(path, i), SegmentEnd(path, i);
    if IsName(s) {
      var es, es' := Entries(g, fat, st, d), Entries(g, fat', st', d);
      FindSame(es, es', First(d), NameOf(s));
      var k := Find(es, First(d), NameOf(s));
      if k >= 0 {
        KindAt(es, es', k);
        if PathAt(path, end) != 0 && IsFolder(es[k]) {
          var c: nat := StartOf(es[k]);
          TreeHas(g, fat, st, tree, c);
          ResolveStays(g, fat, fat', st, st', tree, Sub(tree[c]), path, end + 1);
        }
      }
    }
  }

  // ----- growing and writing a file

  lemma SameEntry(g: Geometry, fat: seq<nat>, fat': seq<nat>, st: seq<Sector>, st': seq<Sector>, d: Folder, p: nat)
    requires d.In(g, fat) && d.In(g, fat') && Big(g, st) && Big(g, st') && p < d.Count(g)
    ensures d.Has(g, p / 16) && d.SectorAt(g, p / 16) < |st| && d.SectorAt(g, p / 16) < |st'|
    ensures Entries(g, fat, st, d)[p] == Slot(st[d.SectorAt(g, p / 16)], p % 16)
    ensures Entries(g, fat', st', d)[p] == Slot(st'[d.SectorAt(g, p / 16)], p % 16)
  {
    FolderSectors(g, fat, d, p / 16);
    assert Entries(g, fat, st, d)[p] == EntryIn(g, fat, st, d, p);
    assert Entries(g, fat', st', d)[p] == EntryIn(g, fat', st', d, p);
  }

  /** A file that shares no cluster with the directories may grow and be written. */
  lemma AppendKeepsTree(g: Geometry, fat: seq<nat>, fat': seq<nat>, ch: seq<nat>, ch': seq<nat>, st: seq<Sector>,
          st': seq<Sector>, tree: map<nat, seq<nat>>)
    requires Tree(g, fat, st, tree) && Apart(tree, ch) && Extends(fat, fat', ch, ch')
    requires SameOutside(g, ch', st, st') && Big(g, st') && |fat| == g.maxClust
    ensures TreeKept(g, fat, fat', st, st', tree)
  {
    hide Entries, SameOutside, Slot, Find, Tree, Folder.In, Folder.Count, Folder.Has, Folder.SectorAt;
    RootStays(g, fat, fat', st, tree);
    forall d: Folder | InTree(d, tree) && d.In(g, fat)
      ensures d.In(g, fat') && SameKinds(Entries(g, fat, st, d), Entries(g, fat', st', d))
    {
      FolderStays(g, fat, fat', ch, ch', tree, d);
      var es, es' := Entries(g, fat, st, d), Entries(g, fat', st', d);
      forall p | 0 <= p < |es|
        ensures SameKind(es[p], es'[p])
      {
        SameEntry(g, fat, fat', st, st', d, p);
        NotInFile(g, fat, ch, ch', fat', st, st', tree, d, p / 16);
      }
    }
  }

  lemma RootStays(g: Geometry, fat: seq<nat>, fat': seq<nat>, st: seq<Sector>, tree: map<nat, seq<nat>>)
    requires Tree(g, fat, st, tree) && |fat'| == |fat|
    ensures Root.In(g, fat') && Big(g, st)
  {
  }

  lemma FolderStays(g: Geometry, fat: seq<nat>, fat': seq<nat>, ch: seq<nat>, ch': seq<nat>, tree: map<nat, seq<nat>>,
          d: Folder)
    requires InTree(d, tree) && d.In(g, fat) && Apart(tree, ch) && Extends(fat, fat', ch, ch')
    ensures d.In(g, fat')
    ensures d.Sub? ==> forall c :: c in d.chain ==> c !in ch'
  {
    hide Extends, Clusters;
    ExtendsSize(fat, fat', ch, ch');
    if d.Sub? {
      OthersKept(fat, fat', ch, ch', d.chain);
    }
  }

  lemma ExtendsSize(fat: seq<nat>, fat': seq<nat>, ch: seq<nat>, ch': seq<nat>)
    requires Extends(fat, fat', ch, ch')
    ensures |fat'| == |fat|
  {
  }

  lemma NotInFile(g: Geometry, fat: seq<nat>, ch: seq<nat>, ch': seq<nat>, fat': seq<nat>, st: seq<Sector>,
          st': seq<Sector>, tree: map<nat, seq<nat>>, d: Folder, k: nat)
    requires InTree(d, tree) && d.In(g, fat) && Apart(tree, ch) && Extends(fat, fat', ch, ch') && d.Has(g, k)
    requires SameOutside(g, ch', st, st') && d.SectorAt(g, k) < |st|
    ensures st'[d.SectorAt(g, k)] == st[d.SectorAt(g, k)]
  {
    hide Extends;
    FolderStays(g, fat, fat', ch, ch', tree, d);
    if d.Sub? {
      SectorInChain(g, d.chain, k);
    }
  }

  // ----- stamping an entry

  /** f_sync changes an entry of a file in a way that no path notices. */
  lemma StampKeepsKind(sector: Sector, at: nat, size: nat, org: Word, time: nat, i: nat)
    requires at % 32 == 0 && at + 32 <= 512 && size < 0x1_0000_0000 && time < 0x1_0000_0000 && i < 16
    requires !IsFolder(Slot(sector, at / 32))
    ensures SameKind(Slot(sector, i), Slot(Stamped(sector, at, size, org, time), i))
  {
    hide LoadWord, StoreWord, StoreDword, LoadDword, Stamped;
    var r := Stamped(sector, at, size, org, time);
    StampedReads(sector, at, size, org, time);
    StampedAttribute(sector, at, size, org, time);
    var e, e' := Slot(sector, i), Slot(r, i);
    if i == at / 32 {
      assert forall j :: 0 <= j < 11 ==> e'[j] == r[at..at + 11][j] == sector[at..at + 11][j] == e[j];
    } else {
      assert e' == e;
    }
  }

  lemma OtherBits(a: Byte)
    ensures (a + 0x20) / 8 % 2 == a / 8 % 2 && (a + 0x20) / 16 % 2 == a / 16 % 2
  {
    var q, r := a / 16, a % 16;
    assert (a + 0x20) / 16 == q + 2;
    assert (a + 0x20) / 8 == a / 8 + 4;
  }

  lemma StampedAttribute(sector: Sector, at: nat, size: nat, org: Word, time: nat)
    requires at + 32 <= 512 && size < 0x1_0000_0000 && time < 0x1_0000_0000
    ensures var a, a' := sector[at + 11], Stamped(sector, at, size, org, time)[at + 11];
      a' / 8 % 2 == a / 8 % 2 && a' / 16 % 2 == a / 16 % 2
  {
    hide StoreWord, StoreDword;
    var a := sector[at + 11];
    var s1 := sector[at + 11 := if a / 0x20 % 2 == 1 then a else a + 0x20];
    var s2 := StoreDword(s1, at + 28, size);
    DwordReads(s1, at + 28, size);
    WordReads(s2, at + 26, org);
    DwordReads(StoreWord(s2, at + 26, org), at + 22, time);
    if a / 0x20 % 2 == 0 {
      OtherBits(a);
    }
  }

  lemma StampKeepsTree(g: Geometry, fat: seq<nat>, st: seq<Sector>, tree: map<nat, seq<nat>>, s: nat, at: nat,
          size: nat, org: Word, time: nat)
    requires Tree(g, fat, st, tree) && s < |st| && at % 32 == 0 && at + 32 <= 512
    requires size < 0x1_0000_0000 && time < 0x1_0000_0000 && !IsFolder(Slot(st[s], at / 32))
    ensures TreeKept(g, fat, fat, st, st[s := Stamped(st[s], at, size, org, time)], tree)
  {
    hide Entries, Slot, Find, Tree, Folder.In, Folder.Count, Folder.Has, Folder.SectorAt, Stamped, SameKind, IsFolder;
    var st' := st[s := Stamped(st[s], at, size, org, time)];
    RootStays(g, fat, fat, st, tree);
    forall d: Folder | InTree(d, tree) && d.In(g, fat)
      ensures SameKinds(Entries(g, fat, st, d), Entries(g, fat, st', d))
    {
      var es, es' := Entries(g, fat, st, d), Entries(g, fat, st', d);
      forall p | 0 <= p < |es|
        ensures SameKind(es[p], es'[p])
      {
        SameEntry(g, fat, fat, st, st', d, p);
        if d.SectorAt(g, p / 16) == s {
          StampKeepsKind(st[s], at, size, org, time, p % 16);
        } else {
          KindOfSame(es[p]);
        }
      }
    }
  }

  lemma KindOfSame(e: Raw)
    ensures SameKind(e, e)
  {
  }

  // ----- the file is found again

  /** The path leads to the same place in a tree that has been kept, and the file is the one
      whose entry is there now. */
  lemma FoundAgain(g: Geometry, fat: seq<nat>, fat': seq<nat>, st: seq<Sector>, st': seq<Sector>,
          tree: map<nat, seq<nat>>, path: seq<Byte>, s: nat, at: nat)
    requires Tree(g, fat, st, tree) && TreeKept(g, fat, fat', st, st', tree)
    requires EntryAtPath(g, fat, st, tree, path, s, at)
    ensures Tree(g, fat', st', tree) && EntryAtPath(g, fat', st', tree, path, s, at)
    ensures s < |st'| && at % 32 == 0 && at + 32 <= 512
    ensures forall f :: NamesFile(g, fat', st', tree, path, f) <==> f == Slot(st'[s], at / 32) && !IsFolder(f)
  {
    hide Entries, SameKinds, Find, Tree, Folder.In, Folder.Count, Folder.Has, Folder.SectorAt, Slot, IsFolder, Resolve;
    hide InTree, PathAt;
    TreeStays(g, fat, fat', st, st', tree);
    TreeRoot(g, fat, st, tree);
    ResolveStays(g, fat, fat', st, st', tree, Root, path, 0);
    var r := Resolve(g, fat, st, tree, Root, path, 0);
    FileAt(g, fat', st', tree, path, r.folder, r.at);
    FolderSectors(g, fat', r.folder, r.at / 16);
    EntryCounts(g, r.folder, r.at, fat');
    SameEntry(g, fat', fat', st', st', r.folder, r.at);
    assert at / 32 == r.at % 16;
  }

  lemma EntryCounts(g: Geometry, d: Folder, p: nat, fat: seq<nat>)
    requires d.In(g, fat) && d.Has(g, p / 16)
    ensures p < d.Count(g)
  {
    FolderSectors(g, fat, d, p / 16);
  }

  lemma DirectoryElsewhere(g: Geometry, fat: seq<nat>, st: seq<Sector>, tree: map<nat, seq<nat>>, path: seq<Byte>,
          s: nat, at: nat, ch: seq<nat>)
    requires Tree(g, fat, st, tree) && EntryAtPath(g, fat, st, tree, path, s, at) && Apart(tree, ch)
    requires |fat| == g.maxClust
    ensures g.Valid() && !InChain(g, ch, s) && Elsewhere(g, fat, ch, s) && g.dirbase <= s < |st|
  {
    hide Tree, Resolve, InDirectories, Cleared, Elsewhere, InChain, Geometry.Valid, Apart;
    EntryOnVolume(g, fat, st, tree, path, s, at);
    DirectoryApart(g, fat, st, tree, s, ch);
    StillElsewhere(g, fat, ch, s);
  }

  lemma EntryOnVolume(g: Geometry, fat: seq<nat>, st: seq<Sector>, tree: map<nat, seq<nat>>, path: seq<Byte>, s: nat,
          at: nat)
    requires Tree(g, fat, st, tree) && EntryAtPath(g, fat, st, tree, path, s, at)
    ensures g.Valid() && g.dirbase <= s < |st| && InDirectories(g, tree, s)
  {
    hide Tree, Folder.In, Folder.Count, Folder.Has, Folder.SectorAt, Resolve, InTree, PathAt, InDirectories;
    hide Geometry.Valid;
    TreeRoot(g, fat, st, tree);
    var r := Resolve(g, fat, st, tree, Root, path, 0);
    ValidGeometry(g, r.folder, fat);
    FolderSectors(g, fat, r.folder, r.at / 16);
    DirectorySector(g, fat, tree, r.folder, r.at / 16, st);
    RootStays(g, fat, fat, st, tree);
  }

  lemma StillElsewhere(g: Geometry, fat: seq<nat>, ch: seq<nat>, s: nat)
    requires g.Valid() && |fat| == g.maxClust && !InChain(g, ch, s) && Elsewhere(g, Cleared(fat, ch), [], s)
    ensures Elsewhere(g, fat, ch, s)
  {
  }

  // ----- mounting anew

  lemma CanMount(fs: FATFS)
    requires fs.Valid() && !fs.winflag
    ensures Fits(fs.g, fs.disk.sectors)
    ensures fs.disk.writeFaults == 0 ==> Mirrored(fs.g, fs.disk.sectors, -1)
  {
  }

  lemma SameVolume(fs: FATFS, fs': FATFS)
    requires fs.Valid() && fs'.Valid() && !fs.winflag && !fs'.winflag && fs'.g == fs.g && fs'.disk == fs.disk
    ensures fs'.Fat() == fs.Fat() && fs'.Store() == fs.Store()
  {
  }

  /** A file appended to and stamped is found again by its path. */
  lemma AppendedIsFound(g: Geometry, fat: seq<nat>, fat': seq<nat>, ch: seq<nat>, ch': seq<nat>, st: seq<Sector>,
          st1: seq<Sector>, tree: map<nat, seq<nat>>, path: seq<Byte>, s: nat, at: nat, size: nat, org: Word, time: nat,
          e: Raw)
    requires Tree(g, fat, st, tree) && Apart(tree, ch) && |fat| == g.maxClust
    requires EntryAtPath(g, fat, st, tree, path, s, at)
    requires NamesFile(g, fat, st, tree, path, e)
    requires Extends(fat, fat', ch, ch') && SameOutside(g, ch', st, st1) && Big(g, st1)
    requires s < |st1| && s < |st| && at + 32 <= 512 && st1[s] == st[s] && size < 0x1_0000_0000 && time < 0x1_0000_0000
    ensures var st' := st1[s := Stamped(st1[s], at, size, org, time)];
      && Tree(g, fat', st', tree)
      && (exists f :: NamesFile(g, fat', st', tree, path, f))
      && (forall f :: NamesFile(g, fat', st', tree, path, f) ==> StartOf(f) == org && SizeOf(f) == size)
  {
    hide Tree, TreeKept, EntryAtPath, NamesFile, Apart, Extends, SameOutside, Stamped, Slot, IsFolder, SameKind;
    hide LoadWord, LoadDword;
    var st' := st1[s := Stamped(st1[s], at, size, org, time)];
    KeptAsIs(g, fat, st, tree);
    FoundAgain(g, fat, fat, st, st, tree, path, s, at);
    AppendKeepsTree(g, fat, fat', ch, ch', st, st1, tree);
    FoundAgain(g, fat, fat', st, st1, tree, path, s, at);
    StampKeepsTree(g, fat', st1, tree, s, at, size, org, time);
    FoundAgain(g, fat', fat', st1, st', tree, path, s, at);
    StampedEntry(st1[s], at, size, org, time);
    assert NamesFile(g, fat', st', tree, path, Slot(st'[s], at / 32));
  }

  lemma KeptAsIs(g: Geometry, fat: seq<nat>, st: seq<Sector>, tree: map<nat, seq<nat>>)
    requires Tree(g, fat, st, tree)
    ensures TreeKept(g, fat, fat, st, st, tree)
  {
    hide Entries, SameKind;
    forall e: Raw
      ensures SameKind(e, e)
    {
      KindOfSame(e);
    }
  }

  lemma StampedEntry(sector: Sector, at: nat, size: nat, org: Word, time: nat)
    requires at % 32 == 0 && at + 32 <= 512 && size < 0x1_0000_0000 && time < 0x1_0000_0000
    requires !IsFolder(Slot(sector, at / 32))
    ensures var e := Slot(Stamped(sector, at, size, org, time), at / 32);
      StartOf(e) == org && SizeOf(e) == size && !IsFolder(e)
  {
    hide Stamped, Slot;
    StampedReads(sector, at, size, org, time);
    StampKeepsKind(sector, at, size, org, time, at / 32);
    EntryBytes(Stamped(sector, at, size, org, time), at / 32, Slot(Stamped(sector, at, size, org, time), at / 32));
  }

  /** The path leads to a file that may be written, and there is room for n more bytes. */
  ghost predicate CanAppend(fs: FATFS, tree: map<nat, seq<nat>>, path: seq<Byte>, ch: seq<nat>, n: nat)
    requires fs.Valid() && Tree(fs.g, fs.Fat(), fs.Store(), tree) && fs.g.Valid()
    reads fs, fs.disk, fs.win
  {
    exists e ::
      && NamesFile(fs.g, fs.Fat(), fs.Store(), tree, path, e) && !ReadOnly(e)
      && Needed(fs.g, SizeOf(e) + n) <= |ch| + Free(fs.Fat())
  }

  /** A file is opened by its path, pieces are appended, f_sync. Then the volume is mounted
      anew, with nothing kept but the disk, and the file is opened by the same path and
      read: the bytes are those of the old file followed by the pieces. Unless a disk call
      fails, all this happens if and only if the file is there, may be written, and the
      clusters are enough. */
  method AppendAndRemount(fs: FATFS, path: seq<Byte>, pieces: seq<seq<Byte>>, time: nat, ofs: nat, n: nat,
          ghost tree: map<nat, seq<nat>>, ghost ch: seq<nat>)
    returns (res: FResult, got: seq<Byte>, ghost e: Raw)
    requires fs.Valid() && Tree(fs.g, fs.Fat(), fs.Store(), tree) && Apart(tree, ch) && WellFormed(fs.Fat())
    requires forall f :: NamesFile(fs.g, fs.Fat(), fs.Store(), tree, path, f) ==>
      IsFile(fs.g, fs.Fat(), StartOf(f), ch, SizeOf(f)) && SizeOf(f) + |Concat(pieces)| < 0x1_0000_0000
    requires pieces != [] && forall i :: 0 <= i < |pieces| ==> |pieces[i]| < 0x1_0000
    requires time < 0x1_0000_0000 && ofs < 0x1_0000_0000 && n < 0x1_0000
    modifies fs`winsect, fs`winflag, fs`lastClust, fs`freeClust, fs.win, fs.disk
    ensures res == FR_OK ==>
      && NamesFile(fs.g, old(fs.Fat()), old(fs.Store()), tree, path, e)
      && IsFile(fs.g, old(fs.Fat()), StartOf(e), ch, SizeOf(e))
      && var all := Content(fs.g, old(fs.Store()), ch, SizeOf(e)) + Concat(pieces);
         got == all[Min(ofs, |all|)..Min(ofs + n, |all|)]
    ensures fs.disk.Faults() == old(fs.disk.Faults()) && !old(fs.disk.noInit) ==>
      fs.g.Valid() && (res == FR_OK <==> old(CanAppend(fs, tree, path, ch, |Concat(pieces)|)))
  {
    hide FATFS.Fat, FATFS.Store, FATFS.View, FATFS.Valid, WellFormed, Tree, NamesFile, IsFile, EntryAtPath, Apart;
    hide InChain, Content, Needed, Free, Geometry.Valid, IsFolder, Extends, SameOutside, CanAppend, Mirrored, Fits;
    got := [];
    ghost var fat, st := fs.Fat(), fs.Store();
    TableOf(fs);
    var fp;
    res, fp, e := AppendAtPath(fs, path, pieces, time, tree, ch);
    if res != FR_OK { return; }
    CanMount(fs);
    var fs' := new FATFS(fs.g, fs.disk);
    SameVolume(fs, fs');
    ghost var f;
    res, got, f := ReadFile(fs', path, ofs, n, tree, fp.chain);
  }

  /** The first half: what is on the disk after f_sync. */
  method AppendAtPath(fs: FATFS, path: seq<Byte>, pieces: seq<seq<Byte>>, time: nat, ghost tree: map<nat, seq<nat>>,
          ghost ch: seq<nat>)
    returns (res: FResult, fp: FIL?, ghost e: Raw)
    requires fs.Valid() && Tree(fs.g, fs.Fat(), fs.Store(), tree) && Apart(tree, ch) && WellFormed(fs.Fat())
    requires forall f :: NamesFile(fs.g, fs.Fat(), fs.Store(), tree, path, f) ==>
      IsFile(fs.g, fs.Fat(), StartOf(f), ch, SizeOf(f)) && SizeOf(f) + |Concat(pieces)| < 0x1_0000_0000
    requires pieces != [] && forall i :: 0 <= i < |pieces| ==> |pieces[i]| < 0x1_0000
    requires time < 0x1_0000_0000
    modifies fs`winsect, fs`winflag, fs`lastClust, fs`freeClust, fs.win, fs.disk
    ensures fs.Valid() && fs.SameDisk()
    ensures res == FR_OK ==>
      && NamesFile(fs.g, old(fs.Fat()), old(fs.Store()), tree, path, e)
      && IsFile(fs.g, old(fs.Fat()), StartOf(e), ch, SizeOf(e))
      && fp != null && fp.fs == fs && fp.Valid() && !fs.winflag && Tree(fs.g, fs.Fat(), fs.Store(), tree)
      && fp.Data() == Content(fs.g, old(fs.Store()), ch, SizeOf(e)) + Concat(pieces)
      && (exists f :: NamesFile(fs.g, fs.Fat(), fs.Store(), tree, path, f))
      && (forall f :: NamesFile(fs.g, fs.Fat(), fs.Store(), tree, path, f) ==>
            StartOf(f) == fp.orgClust && SizeOf(f) == fp.fsize)
    ensures fs.disk.Faults() == old(fs.disk.Faults()) && !old(fs.disk.noInit) ==>
      fs.g.Valid() && (res == FR_OK <==> old(CanAppend(fs, tree, path, ch, |Concat(pieces)|)))
  {
    hide FATFS.Fat, FATFS.Store, FATFS.View, FATFS.Valid, WellFormed, Tree, NamesFile, IsFile, EntryAtPath, Apart;
    hide InChain, Content, Needed, Free, Geometry.Valid, IsFolder, Extends, SameOutside, Elsewhere, AtSector, AheadOf;
    hide Stamped, TreeKept, Slot;
    ghost var g, fat, st := fs.g, fs.Fat(), fs.Store();
    TableOf(fs);
    res, fp, e := Open(fs, path, true, true, tree, ch);
    if res != FR_OK { return; }
    DirectoryElsewhere(g, fat, st, tree, path, fp.dirSect, fp.dirPtr, ch);
    ghost var st1;
    res, st1 := AppendAndSync(fp, pieces, time);
    if res == FR_OK {
      AppendedIsFound(g, fat, fs.Fat(), ch, fp.chain, st, st1, tree, path, fp.dirSect, fp.dirPtr, fp.fsize, fp.orgClust,
        time, e);
    }
    CanAppendMeans(g, fat, st, tree, path, e);
  }

  lemma CanAppendMeans(g: Geometry, fat: seq<nat>, st: seq<Sector>, tree: map<nat, seq<nat>>, path: seq<Byte>, e: Raw)
    requires Tree(g, fat, st, tree) && NamesFile(g, fat, st, tree, path, e)
    ensures forall f :: NamesFile(g, fat, st, tree, path, f) ==> f == e
  {
  }
}
