/** A small FAT12 volume that is full: two copies of the table, a root directory with two
    files, A and B, of one cluster each, and a sub-directory D with an empty file C. It meets the assumptions of
    the theorems, and on it the things happen that the files' users do not expect. */
module ExampleVolume {
  import opened Arith
  import opened Bytes
  import opened Layout
  import opened Chains
  import opened DiskIo
  import opened FatTable
  import opened FileData
  import opened FileSystem
  import opened Transfer
  import opened FileObject
  import opened Names
  import opened Directory
  import opened Paths
  import opened Sessions
  import opened Truncation
  import opened Bypass

  const GEOMETRY := Geometry(Fat12, 1, 1, 2, 3, 16, 4, 1, 5)

  lemma GeometryIsValid()
    ensures GEOMETRY.Valid() && GEOMETRY.End() == 7 && GEOMETRY.MirrorOf(1, 1) == 2
    ensures GEOMETRY.Clust2Sect(2) == 4 && GEOMETRY.Clust2Sect(3) == 5 && GEOMETRY.Clust2Sect(4) == 6
  {
    TimesIsProduct(1, 1);
    TimesIsProduct(2, 1);
    TimesIsProduct(0, 1);
    TimesIsProduct(3, 1);
  }

  /** Entries 0 to 4 of the table are 0xFF8, 0xFFF, 0xFFF, 0xFFF, 0xFFF. */
  const TABLE: Sector := seq(512, i => if i == 0 then 0xF8 else if i < 7 then 0xFF else if i == 7 then 0x0F else 0)

  /** An entry with a name of one or two characters. The size is a number of 256 bytes. */
  function EntryOf(first: Byte, second: Byte, attr: Byte, cluster: Byte, size: Byte): Raw {
    seq(32, i requires 0 <= i < 32 =>
      if i == 0 then first else if i == 1 then second else if i < 11 then SPACE else if i == 11 then attr
      else if i == 26 then cluster else if i == 29 then size else 0)
  }

  const LETTER_A: Byte := 'A' as int
  const LETTER_C: Byte := 'C' as int
  const LETTER_D: Byte := 'D' as int

  const ENTRY_A := EntryOf(LETTER_A, SPACE, 0x20, 2, 2)
  const ENTRY_B := EntryOf('B' as int, SPACE, 0x20, 3, 2)
  const ENTRY_C := EntryOf(LETTER_C, SPACE, 0x20, 0, 0)
  const ENTRY_D := EntryOf(LETTER_D, SPACE, 0x10, 4, 0)

  const ROOT_SECTOR: Sector := ENTRY_A + ENTRY_B + ENTRY_D + seq(416, _ => 0)

  /** The sub-directory begins with the dot entries. */
  const SUB_SECTOR: Sector :=
    EntryOf(DOT, SPACE, 0x10, 4, 0) + EntryOf(DOT, DOT, 0x10, 0, 0) + ENTRY_C + seq(416, _ => 0)

  const SECTORS: seq<Sector> := [BLANK_SECTOR, TABLE, TABLE, ROOT_SECTOR, BLANK_SECTOR, BLANK_SECTOR, SUB_SECTOR]

  const FAT: seq<nat> := [0xFF8, 0xFFF, 0xFFF, 0xFFF, 0xFFF]

  lemma TheTable()
    ensures Fits(GEOMETRY, SECTORS) && Mirrored(GEOMETRY, SECTORS, -1) && FatOf(GEOMETRY, SECTORS) == FAT
  {
    GeometryIsValid();
    forall s, k | 1 <= s < 2 && 1 <= k < 2
      ensures Copied(GEOMETRY, SECTORS, s, k)
    {
    }
    forall c: nat | c < 5
      ensures FatTable.Entry(GEOMETRY, SECTORS, c) == FAT[c]
    {
      EntryInTable(GEOMETRY, c);
    }
  }

  /** A, B and D have the clusters 2, 3 and 4; none is free. */
  lemma TheChains()
    ensures WellFormed(FAT) && Free(FAT) == 0
    ensures IsChain(FAT, [2]) && IsChain(FAT, [3]) && IsChain(FAT, [4]) && IsHead(FAT, 2) && IsHead(FAT, 3)
  {
    hide IsChain;
    OneCluster(2);
    OneCluster(3);
    OneCluster(4);
    assert [2][0] == 2 && [3][0] == 3;
    NoneFree(FAT, 2);
  }

  lemma OneCluster(c: nat)
    requires 2 <= c <= 4
    ensures IsChain(FAT, [c])
  {
  }

  /** The volume outside its table. */
  const STORE: seq<Sector> :=
    [BLANK_SECTOR, BLANK_SECTOR, BLANK_SECTOR, ROOT_SECTOR, BLANK_SECTOR, BLANK_SECTOR, SUB_SECTOR]

  lemma TheStore()
    ensures StoreOf(GEOMETRY, SECTORS) == STORE && Big(GEOMETRY, STORE)
  {
    GeometryIsValid();
  }

  lemma TheRoot()
    ensures Root.In(GEOMETRY, FAT) && Big(GEOMETRY, STORE)
    ensures var es := Entries(GEOMETRY, FAT, STORE, Root);
      |es| == 16 && es[0] == ENTRY_A && es[1] == ENTRY_B && es[2] == ENTRY_D && IsEnd(es[3])
  {
    GeometryIsValid();
    TheStore();
    var es := Entries(GEOMETRY, FAT, STORE, Root);
    assert es[0] == EntryIn(GEOMETRY, FAT, STORE, Root, 0) == Slot(ROOT_SECTOR, 0);
    assert es[1] == EntryIn(GEOMETRY, FAT, STORE, Root, 1) == Slot(ROOT_SECTOR, 1);
    assert es[2] == EntryIn(GEOMETRY, FAT, STORE, Root, 2) == Slot(ROOT_SECTOR, 2);
    assert es[3] == EntryIn(GEOMETRY, FAT, STORE, Root, 3) == Slot(ROOT_SECTOR, 3);
    assert ROOT_SECTOR[96] == 0;
  }

  const SUB_D := Sub([4])

  lemma TheSub()
    ensures SUB_D.In(GEOMETRY, FAT) && Big(GEOMETRY, STORE)
    ensures var es := Entries(GEOMETRY, FAT, STORE, SUB_D);
      |es| == 16 && es[2] == ENTRY_C && IsEnd(es[3])
  {
    GeometryIsValid();
    TheStore();
    TheChains();
    SubSector();
    var es := Entries(GEOMETRY, FAT, STORE, SUB_D);
    assert es[2] == EntryIn(GEOMETRY, FAT, STORE, SUB_D, 2) == Slot(SUB_SECTOR, 2);
    assert es[3] == EntryIn(GEOMETRY, FAT, STORE, SUB_D, 3) == Slot(SUB_SECTOR, 3);
    assert SUB_SECTOR[96] == 0;
  }

  lemma SubSector()
    ensures Covers(GEOMETRY, [4], 0) && SectorNo(GEOMETRY, [4], 0) == 6 && SUB_D.Count(GEOMETRY) == 16
  {
    GeometryIsValid();
  }

  const PATH: seq<Byte> := [LETTER_A]
  const SUB_PATH: seq<Byte> := [LETTER_D, SLASH, LETTER_C]

  /** A name of one letter. */
  lemma OneLetter(c: Byte, e: Raw)
    requires c == LETTER_A || c == LETTER_C || c == LETTER_D
    requires e[0] == c && forall i :: 1 <= i < 11 ==> e[i] == SPACE
    ensures IsName([c]) && NameOf([c]) == e[..11]
  {
    var s := [c];
    Parts(s, s, 0, []);
    assert s == s + seq(0, _ => DOT) + [];
    assert Body(s) == s && Extension(s) == [];
    assert Uppers(s) == s && Uppers([]) == [];
  }

  lemma ThePath()
    ensures Segment(PATH, 0) == PATH && SegmentEnd(PATH, 0) == 1 && PathAt(PATH, 0) != 0 && PathAt(PATH, 1) == 0
    ensures IsName(PATH) && NameOf(PATH) == ENTRY_A[..11]
  {
    OneLetter(LETTER_A, ENTRY_A);
    assert PATH[0..1] == PATH;
  }

  lemma TheSubPath()
    ensures Segment(SUB_PATH, 0) == [LETTER_D] && SegmentEnd(SUB_PATH, 0) == 1 && PathAt(SUB_PATH, 0) != 0
    ensures PathAt(SUB_PATH, 1) == SLASH && Segment(SUB_PATH, 2) == [LETTER_C]
    ensures SegmentEnd(SUB_PATH, 2) == 3 && PathAt(SUB_PATH, 3) == 0
    ensures IsName([LETTER_D]) && NameOf([LETTER_D]) == ENTRY_D[..11]
    ensures IsName([LETTER_C]) && NameOf([LETTER_C]) == ENTRY_C[..11]
  {
    OneLetter(LETTER_D, ENTRY_D);
    OneLetter(LETTER_C, ENTRY_C);
    assert SUB_PATH[0..1] == [LETTER_D] && SUB_PATH[2..3] == [LETTER_C];
    assert SegmentEnd(SUB_PATH, 0) == 1 && SegmentEnd(SUB_PATH, 2) == 3;
  }

  /** The one sub-directory. */
  const TREE: map<nat, seq<nat>> := map[4 := [4]]

  lemma TheTree()
    ensures Tree(GEOMETRY, FAT, STORE, TREE)
  {
    hide Entries, Find, IsFolder;
    TheRoot();
    TheSub();
    Kinds();
    forall d, name | InTree(d, TREE) && Leads(GEOMETRY, FAT, STORE, TREE, d, name)
      ensures var es := Entries(GEOMETRY, FAT, STORE, d); StartOf(es[Find(es, First(d), name)]) as nat in TREE
    {
      var es := Entries(GEOMETRY, FAT, STORE, d);
      if d.Root? {
        FindStep(es, 0, name);
        FindStep(es, 1, name);
        FindStep(es, 2, name);
        FindStep(es, 3, name);
      } else {
        assert d == SUB_D;
        FindStep(es, 2, name);
        FindStep(es, 3, name);
      }
    }
  }

  lemma Kinds()
    ensures !IsFolder(ENTRY_A) && !IsFolder(ENTRY_B) && !IsFolder(ENTRY_C) && IsFolder(ENTRY_D) && StartOf(ENTRY_D) == 4
  {
  }

  /** The path leads to file A. */
  lemma TheFile()
    ensures Tree(GEOMETRY, FAT, STORE, TREE)
    ensures forall e :: NamesFile(GEOMETRY, FAT, STORE, TREE, PATH, e) <==> e == ENTRY_A
  {
    hide IsName, NameOf, Segment, SegmentEnd, PathAt, Entries, Tree, Resolve, Find, IsFolder;
    TheRoot();
    ThePath();
    TheTree();
    Kinds();
    FindStep(Entries(GEOMETRY, FAT, STORE, Root), 0, NameOf(PATH));
    ResolveStep(GEOMETRY, FAT, STORE, TREE, Root, PATH, 0);
    FileAt(GEOMETRY, FAT, STORE, TREE, PATH, Root, 0);
  }

  /** The other path leads through the sub-directory to file C. */
  lemma TheSubFile()
    ensures Tree(GEOMETRY, FAT, STORE, TREE)
    ensures forall e :: NamesFile(GEOMETRY, FAT, STORE, TREE, SUB_PATH, e) <==> e == ENTRY_C
  {
    hide IsName, NameOf, Segment, SegmentEnd, PathAt, Entries, Tree, Resolve, Find, IsFolder;
    TheRoot();
    TheSub();
    TheSubPath();
    TheTree();
    Kinds();
    var root, sub := Entries(GEOMETRY, FAT, STORE, Root), Entries(GEOMETRY, FAT, STORE, SUB_D);
    var d, c := NameOf([LETTER_D]), NameOf([LETTER_C]);
    assert d[0] == LETTER_D;
    FindStep(root, 0, d);
    FindStep(root, 1, d);
    FindStep(root, 2, d);
    ResolveStep(GEOMETRY, FAT, STORE, TREE, Root, SUB_PATH, 0);
    FindStep(sub, 2, c);
    ResolveStep(GEOMETRY, FAT, STORE, TREE, SUB_D, SUB_PATH, 2);
    FileAt(GEOMETRY, FAT, STORE, TREE, SUB_PATH, SUB_D, 2);
  }

  /** The sub-directory is where entries are found, and shares no cluster with file A. */
  lemma TheDirectories()
    ensures GEOMETRY.Valid() && InDirectories(GEOMETRY, TREE, 3) && InDirectories(GEOMETRY, TREE, 6)
    ensures Apart(TREE, [2]) && Apart(TREE, [3]) && !Apart(TREE, [4])
  {
    GeometryIsValid();
    Sub6();
    assert 4 in TREE && 4 in TREE[4];
  }

  lemma Sub6()
    ensures GEOMETRY.Valid() && GEOMETRY.Sect2Clust(6) == 4
  {
    GeometryIsValid();
  }

  // ----- a mounted volume, and what happens on it

  method Mount() returns (fs: FATFS)
    ensures fresh(fs) && fresh(fs.disk) && fresh(fs.win)
    ensures fs.Valid() && fs.g == GEOMETRY && fs.Fat() == FAT && fs.Store() == STORE
    ensures fs.winsect == 0 && !fs.winflag && !fs.disk.noInit && fs.disk.Faults() == 0 && fs.disk.sectors == SECTORS
  {
    TheTable();
    TheStore();
    var disk := new Disk(SECTORS);
    fs := new FATFS(GEOMETRY, disk);
  }

  lemma FileA()
    ensures IsFile(GEOMETRY, FAT, 2, [2], 512) && Bystander(GEOMETRY, FAT, [2], [3], 512)
  {
    hide WellFormed, IsChain, Geometry.Valid;
    GeometryIsValid();
    TheChains();
  }

  lemma EntryOfA()
    ensures StartOf(ENTRY_A) == 2 && SizeOf(ENTRY_A) == 512
    ensures !ReadOnly(ENTRY_A)
  {
  }

  /** What n bytes need: a cluster for each 512. */
  lemma TheNeeds()
    ensures GEOMETRY.Valid()
    ensures Needed(GEOMETRY, 1) == 1 && Needed(GEOMETRY, 512) == 1 && Needed(GEOMETRY, 513) == 2
  {
    GeometryIsValid();
  }

  /** File A, open at its end. */
  method AtEnd() returns (res: FResult, fp: FIL)
    ensures fresh(fp) && fresh(fp.fs) && fresh(fp.fs.win) && fresh(fp.fs.disk)
    ensures fp.fs.disk.Faults() == 0 ==> res == FR_OK
    ensures res == FR_OK ==>
      && fp.Valid() && fp.Cursor() && fp.fs.g == GEOMETRY && fp.Refusal(fp.canWrite) == FR_OK
      && fp.fs.Fat() == FAT && fp.chain == [2] && fp.fptr == 512 == fp.fsize
  {
    hide WellFormed, Needed, Free, IsChain, FATFS.Fat, FATFS.Store, FATFS.Valid, AtSector, Content, Extends, IsFile;
    TheChains();
    FileA();
    TheNeeds();
    var fs := Mount();
    fp := new FIL(fs, true, true, 2, 512, 3, 0, [2]);
    res := fp.Seek(512);
  }

  /** On the full volume, f_write at the end of file A writes nothing, reports no error and
      leaves a cursor that is wrong. */
  method WriteWhenFull() returns (res: FResult, bw: nat, fp: FIL)
    ensures fp.fs.disk.Faults() == 0 ==> res == FR_OK && bw == 0 && fp.fptr == 512 && !fp.Cursor()
  {
    hide FIL.WindowIs, WellFormed, Needed, Free, IsChain, FATFS.Fat, FATFS.Store, FATFS.Valid, AtSector, Content;
    hide Extends, IsFile, SameOutside, FIL.Cursor, ClearOf;
    TheChains();
    TheNeeds();
    bw := 0;
    res, fp := AtEnd();
    if res != FR_OK { return; }
    SmallIsClear(GEOMETRY, fp.chain, 512, 1, fp.fs.winsect);
    var buff := new Byte[1];
    res, bw := fp.Write(buff, 1);
  }

  /** f_lseek to a byte past the end stops at the end and leaves a cursor that is wrong. */
  method SeekWhenFull() returns (res: FResult, fp: FIL)
    ensures fp.fs.disk.Faults() == 0 ==> res == FR_OK && fp.fptr < 513 && !fp.Cursor()
  {
    hide WellFormed, Needed, Free, IsChain;
    TheChains();
    FileA();
    TheNeeds();
    var fs := Mount();
    fp := new FIL(fs, true, true, 2, 512, 3, 0, [2]);
    res := fp.Seek(513);
  }

  /** After part of file A has been read its sector is in the window. A whole sector written
      to it goes past the window, and the next part read comes out of the window: the disk
      has the bytes written, and they are not found. */
  method StaleWindow() returns (ok: bool, fs: FATFS)
    ensures fs.disk.Faults() == 0 ==>
      && ok && fs.winsect == 4 < |fs.disk.sectors| && fs.disk.sectors[4] == seq(512, _ => 1)
      && fs.win[..] != seq(512, _ => 1)
  {
    hide FATFS.Fat, FATFS.Store, FATFS.Valid, FATFS.View, FATFS.Framed, StoreOf;
    fs := Mount();
    GeometryIsValid();
    TheSize(fs);
    ok := fs.MoveWindow(4);
    if !ok { return; }
    SectorInWindow(fs, 4);
    var buff := new Byte[512](_ => 1);
    assert buff[..] == seq(512, _ => 1);
    assert BlockFor(buff[..], 0, 4, 4) == buff[..];
    assert BLANK_SECTOR[0] == 0;
    ok := WritePast(fs, buff, 0, 4, 1, 0, 4);
  }

  /** A byte is written to the top of file A, and stays in the window. */
  method ByteWritten() returns (res: FResult, fp: FIL)
    ensures fresh(fp) && fresh(fp.fs) && fresh(fp.fs.win) && fresh(fp.fs.disk)
    ensures fp.fs.disk.Faults() == 0 ==> res == FR_OK
    ensures res == FR_OK ==>
      && fp.Valid() && fp.Cursor() && fp.fs.g == GEOMETRY && fp.Refusal(true) == FR_OK && fp.canRead
      && WellFormed(fp.fs.Fat()) && fp.chain == [2] && fp.fptr == 1 && fp.fsize == 512 && fp.Data()[0] == 7
      && fp.fs.winflag && fp.fs.winsect == 4 && fp.fs.win.Length == 512 && fp.fs.win[0] == 7
      && fp.fs.disk.sectors == SECTORS
  {
    hide FIL.WindowGrown, Clusters, WellFormed, Needed, Free, IsChain, FATFS.Fat, FATFS.Store, FATFS.Valid, AtSector;
    hide Content, Extends, IsFile, SameOutside, FIL.Cursor, ClearOf, FIL.WindowIs;
    TheChains();
    FileA();
    TheNeeds();
    var fs := Mount();
    fp := new FIL(fs, true, true, 2, 512, 3, 0, [2]);
    var buff := new Byte[1](_ => 7);
    SmallIsClear(fs.g, fp.chain, 0, 1, fs.winsect);
    ghost var first := fp.currSect;
    var bw;
    res, bw := fp.Write(buff, 1);
    if res != FR_OK { return; }
    ExtendsCount(FAT, fs.Fat(), [2], fp.chain);
    FirstCluster(fs.g, fs.Fat(), fp.orgClust, fp.chain, fp.fsize);
    ByteInWindow(fp, first);
  }

  /** Then the whole sector is read past the window: without an error, what is read is not
      what the file holds. */
  method StaleRead() returns (res: FResult, got: seq<Byte>, fp: FIL)
    ensures fp.fs.disk.Faults() == 0 ==>
      res == FR_OK && fp.Valid() && |got| == 512 == |fp.Data()| && got != fp.Data()
  {
    hide WellFormed, Needed, Free, IsChain, FATFS.Fat, FATFS.Store, FATFS.Valid, AtSector, Content, Extends, IsFile;
    hide SameOutside, FIL.Cursor, FIL.SeenData, FIL.WindowIs, FIL.HasRoom;
    res, fp := ByteWritten();
    got := [];
    if res != FR_OK { return; }
    res := fp.Seek(0);
    if res != FR_OK { return; }
    GeometryIsValid();
    FirstCluster(GEOMETRY, fp.fs.Fat(), fp.orgClust, fp.chain, fp.fsize);
    assert BLANK_SECTOR[0] != fp.fs.win[..][0];
    assert fp.Outdated(512);
    var buff := new Byte[512];
    var br;
    ghost var buf := buff[..];
    res, br := fp.Read(buff, 512);
    got := buff[..];
    assert fp.Data()[0..512] + buf[512..] == fp.Data();
  }

  /** After the write the file's sector is dirty in the window, and on the disk it is blank. */
  lemma ByteInWindow(fp: FIL, first: nat)
    requires fp.Valid() && fp.Cursor() && fp.fs.g == GEOMETRY && fp.chain == [2] && fp.fsize == 512 && fp.fptr == 1
    requires fp.WindowIs(0, 1, first, 0, false) && fp.fs.winflag && |fp.Data()| == 512 && fp.Data()[0] == 7
    ensures fp.fs.winsect == 4 && fp.fs.win.Length == 512 && fp.fs.win[0] == 7
  {
    hide FATFS.Fat, FATFS.Store, FATFS.Valid, IsFile;
    GeometryIsValid();
    DirtyInStore(fp.fs);
  }

  lemma TheSize(fs: FATFS)
    requires fs.Valid()
    ensures |fs.Store()| == |fs.disk.sectors|
  {
  }

  /** File A opened anew and written is read back, although the volume was full; B is
      untouched. */
  method RewriteA() returns (res: FResult, got: seq<Byte>, fs: FATFS)
    ensures fs.Valid() && fs.g == GEOMETRY
    ensures fs.disk.Faults() == 0 ==> res == FR_OK && got == [7] && IsChain(fs.Fat(), [3])
  {
    hide WellFormed, Needed, Free, NamesFile, Tree, Concat, Apart, InDirectories;
    TheChains();
    FileA();
    TheNeeds();
    TheFile();
    EntryOfA();
    OnePiece([7]);
    TheDirectories();
    fs := Mount();
    ghost var ch';
    res, got, ch' := RewriteThenRead(fs, PATH, [[7]], 0, 0, 1, TREE, [2]);
  }

  lemma OnePiece(piece: seq<Byte>)
    ensures Concat([piece]) == piece
  {
  }
}
