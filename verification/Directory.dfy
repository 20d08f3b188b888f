/** Directories: tables of 32-byte entries in the root area or in a cluster chain, and the
    walk through them (tff.c, lines 344-415 and 1275-1302). */
module Directory {
  import opened Arith
  import opened Bytes
  import opened Layout
  import opened Chains
  import opened FatTable
  import opened FileData
  import opened FileSystem
  import opened Transfer
  import opened Names

  // ----- where the entries are

  /** The static table, or a table in the clusters of a chain. */
  datatype Folder = Root | Sub(chain: seq<nat>) {
    ghost predicate In(g: Geometry, fat: seq<nat>) {
      && g.Valid() && |fat| == g.maxClust
      && (Root? ==> g.nRootdir >= 16)
      && (Sub? ==> IsChain(fat, chain) && Clusters(g, chain))
    }

    ghost predicate Has(g: Geometry, k: int) {
      0 <= k && if Root? then k < g.nRootdir / 16 else Covers(g, chain, k)
    }

    ghost function SectorAt(g: Geometry, k: int): nat
      requires Has(g, k)
    {
      if Root? then g.dirbase + k else SectorNo(g, chain, k)
    }

    /** How many entries there are. */
    ghost function Count(g: Geometry): nat {
      16 * if Root? then g.nRootdir / 16 else Times(|chain|, g.sectsClust)
    }
  }

  type Raw = e: seq<Byte> | |e| == 32 witness seq(32, _ => 0)

  /** A sector number of a table is in range exactly for the numbers of its entries, and
      the sector is outside the cluster table. */
  lemma FolderSectors(g: Geometry, fat: seq<nat>, d: Folder, k: nat)
    requires d.In(g, fat)
    ensures d.Has(g, k) <==> 16 * k < d.Count(g)
    ensures d.Has(g, k) ==> g.dirbase <= d.SectorAt(g, k) < g.End()
  {
    if d.Root? {
      if d.Has(g, k) { DataAfterRoot(g); }
    } else {
      Division(k, g.sectsClust);
      var q := Quot(k, g.sectsClust);
      if q < |d.chain| {
        TimesMonotone(q, |d.chain|, g.sectsClust);
        SectorInChain(g, d.chain, k);
      } else {
        TimesMonotone(|d.chain|, q, g.sectsClust);
      }
    }
  }

  lemma DataAfterRoot(g: Geometry)
    requires g.Valid()
    ensures g.dirbase <= g.database <= g.End()
  {
  }

  ghost function EntryAt(g: Geometry, st: seq<Sector>, d: Folder, p: nat): Raw
    requires d.Has(g, p / 16) && d.SectorAt(g, p / 16) < |st|
  {
    Slot(st[d.SectorAt(g, p / 16)], p % 16)
  }

  function Slot(s: Sector, i: nat): (e: Raw)
    requires i < 16
    ensures forall j :: 0 <= j < 32 ==> e[j] == s[32 * i + j]
  {
    s[32 * i..32 * i + 32]
  }

  /** The table as a list of entries. */
  ghost function Entries(g: Geometry, fat: seq<nat>, st: seq<Sector>, d: Folder): (es: seq<Raw>)
    requires d.In(g, fat) && Big(g, st)
    ensures |es| == d.Count(g)
  {
    seq(d.Count(g), p requires 0 <= p < d.Count(g) => EntryIn(g, fat, st, d, p))
  }

  ghost function EntryIn(g: Geometry, fat: seq<nat>, st: seq<Sector>, d: Folder, p: nat): Raw
    requires d.In(g, fat) && Big(g, st) && p < d.Count(g)
  {
    FolderSectors(g, fat, d, p / 16);
    EntryAt(g, st, d, p)
  }

  // ----- what the entries say

  predicate IsEnd(e: Raw) { e[0] == 0 }

  /** Neither deleted nor a volume label or part of a long name. */
  predicate IsLive(e: Raw) { e[0] != 0xE5 && e[11] / 8 % 2 == 0 }

  /** Live, and with a name: an entry whose name is blank is passed over. */
  predicate IsVisible(e: Raw) { IsLive(e) && Text(e) != [] }

  /** What f_readdir leaves out besides deleted entries, labels and long names: entries
      whose name and extension both begin with a space. */
  lemma VisibleExactly(e: Raw)
    requires !IsEnd(e)
    ensures IsVisible(e) <==> IsLive(e) && !(e[0] == SPACE && e[8] == SPACE)
  {
  }

  /** Such an entry: a plain file in every other respect. */
  lemma BlankEntry(e: Raw)
    requires e == seq(32, _ => SPACE)
    ensures !IsEnd(e) && IsLive(e) && !IsVisible(e)
  {
    VisibleExactly(e);
  }

  /** The visible entries from p on that precede the first end mark. */
  function Listed(es: seq<Raw>, p: nat): seq<nat>
    decreases |es| - p
  {
    if p >= |es| || IsEnd(es[p]) then []
    else (if IsVisible(es[p]) then [p] else []) + Listed(es, p + 1)
  }

  /** Exactly the visible entries with no end mark before them are listed. */
  lemma {:induction false} ListedAre(es: seq<Raw>, p: nat, i: nat)
    ensures i in Listed(es, p) <==> p <= i < |es| && IsVisible(es[i]) && forall j :: p <= j <= i ==> !IsEnd(es[j])
    decreases |es| - p
  {
    hide IsVisible, Listed, IsEnd;
    if p < |es| && !IsEnd(es[p]) {
      ListedStep(es, p);
      ListedAre(es, p + 1, i);
    } else {
      NothingListed(es, p);
    }
  }

  lemma ListedStep(es: seq<Raw>, p: nat)
    requires p < |es|
    ensures if IsEnd(es[p]) then Listed(es, p) == []
            else if IsVisible(es[p]) then Listed(es, p) == [p] + Listed(es, p + 1)
            else Listed(es, p) == Listed(es, p + 1)
  {
  }

  lemma NothingListed(es: seq<Raw>, p: nat)
    requires p >= |es| || IsEnd(es[p])
    ensures Listed(es, p) == []
  {
  }

  function Tail(s: seq<nat>): seq<nat> { if s == [] then [] else s[1..] }

  /** In table order, each once. */
  lemma {:induction false} ListedInOrder(es: seq<Raw>, p: nat)
    ensures forall i, j :: 0 <= i < j < |Listed(es, p)| ==> Listed(es, p)[i] < Listed(es, p)[j]
    decreases |es| - p
  {
    if p < |es| && !IsEnd(es[p]) {
      var rest := Listed(es, p + 1);
      ListedInOrder(es, p + 1);
      forall i | 0 <= i < |rest|
        ensures p < rest[i]
      {
        ListedAre(es, p + 1, rest[i]);
      }
    }
  }

  // ----- the index, a 16-bit number

  /** Bitwise and. */
  function And(a: nat, b: nat): nat {
    if a == 0 || b == 0 then 0 else (a % 2) * (b % 2) + 2 * And(a / 2, b / 2)
  }

  lemma {:induction false} AndIsRem(a: nat, n: nat)
    requires PowerOfTwo(n)
    ensures And(a, n - 1) == Rem(a, n)
    decreases a + n
  {
    if n == 1 {
      Rem1(a);
    } else if a > 0 {
      var m := n / 2;
      assert n == 2 * m && (n - 1) / 2 == m - 1 && (n - 1) % 2 == 1;
      AndIsRem(a / 2, m);
      RemDouble(a, m);
      if m == 1 {
        Rem1(a / 2);
      }
    }
  }

  lemma {:induction false} Rem1(a: nat)
    ensures Rem(a, 1) == 0
  {
    if a > 0 { Rem1(a - 1); }
  }

  lemma RemDouble(a: nat, m: nat)
    requires m > 0
    ensures Rem(a, 2 * m) == 2 * Rem(a / 2, m) + a % 2
  {
    var q, r := Quot(a / 2, m), Rem(a / 2, m);
    Division(a / 2, m);
    TimesDouble(q, m);
    QuotOf(q, 2 * m, 2 * r + a % 2);
  }

  lemma {:induction false} TimesDouble(q: nat, m: nat)
    ensures Times(q, 2 * m) == 2 * Times(q, m)
  {
    if q > 0 { TimesDouble(q - 1, m); }
  }

  /** A smaller power of two divides a larger one, so its remainder survives the larger
      one's wrap-around. */
  lemma {:induction false} RemOfWrapped(a: nat, n: nat, w: nat)
    requires PowerOfTwo(n) && PowerOfTwo(w) && n <= w
    ensures Rem(Rem(a, w), n) == Rem(a, n)
    decreases w
  {
    hide Rem;
    if n == 1 {
      Rem1(Rem(a, w));
      Rem1(a);
    } else {
      RemDouble(a, w / 2);
      RemDouble(Rem(a, w), n / 2);
      RemOfWrapped(a / 2, n / 2, w / 2);
      RemDouble(a, n / 2);
    }
  }

  lemma Wrapped4096(a: nat)
    ensures Rem(a, 4096) == a % 4096
  {
    QuotIsQuotient(a, 4096);
  }

  /** The position and its 16-bit index run through sectors and clusters together. */
  lemma IndexStep(p: nat, g: Geometry)
    requires g.Valid()
    ensures (p % 0x1_0000 + 1) % 0x1_0000 == (p + 1) % 0x1_0000
    ensures (p + 1) % 0x1_0000 % 16 == (p + 1) % 16
    ensures And((p + 1) % 0x1_0000 / 16, g.sectsClust - 1) == Rem((p + 1) / 16, g.sectsClust)
    ensures (p + 1) / 16 == if (p + 1) % 16 == 0 then p / 16 + 1 else p / 16
  {
    hide PowerOfTwo, And, Rem;
    IndexWraps(p);
    IndexSector(p + 1);
    Power4096();
    RemOfWrapped((p + 1) / 16, g.sectsClust, 4096);
    Wrapped4096((p + 1) / 16);
    AndIsRem((p + 1) / 16 % 4096, g.sectsClust);
  }

  lemma IndexWraps(p: nat)
    ensures (p % 0x1_0000 + 1) % 0x1_0000 == (p + 1) % 0x1_0000
    ensures (p + 1) / 16 == if (p + 1) % 16 == 0 then p / 16 + 1 else p / 16
  {
  }

  lemma IndexSector(n: nat)
    ensures n % 0x1_0000 % 16 == n % 16 && n % 0x1_0000 / 16 == n / 16 % 4096
  {
    var q, r := n / 0x1_0000, n % 0x1_0000;
    var i, j := r / 16, r % 16;
    assert n == 16 * (4096 * q + i) + j;
    DivMod16(n, 4096 * q + i, j);
    DivMod4096(4096 * q + i, q, i);
  }

  lemma Power4096()
    ensures PowerOfTwo(4096)
  {
    assert PowerOfTwo(16);
    assert PowerOfTwo(256);
  }

  // ----- the walk

  /** FILINFO */
  class FileInfo {
    var fname: seq<Byte>
    var fattrib: Byte
    var fsize: nat
    var fdate: Word
    var ftime: Word

    constructor ()
      ensures fname == []
    {
      fname, fattrib, fsize, fdate, ftime := [], 0, 0, 0, 0;
    }

    /** The information is that of a directory entry. */
    predicate Describes(e: Raw)
      reads this
    {
      && fname == Text(e) && fattrib == e[11]
      && fsize == LoadDword(e, 28) && fdate == LoadWord(e, 24) && ftime == LoadWord(e, 22)
    }

    /** get_fileinfo on the entry at offset at of a sector buffer. */
    method Fill(win: array<Byte>, at: nat, ghost e: Raw)
      requires at + 32 <= win.Length && win[at..at + 32] == e
      modifies this
      ensures Describes(e)
    {
      hide UpToSpace, Shown;
      fname := [];
      FillBody(win, at, e);
      assert win[at + 8] == e[8];
      if win[at + 8] != SPACE {
        fname := fname + [DOT];
        FillExtension(win, at, e);
      }
      TextParts(e);
      fattrib := win[at + 11];
      fsize := LoadDword(win[at..at + 32], 28);
      fdate := LoadWord(win[at..at + 32], 24);
      ftime := LoadWord(win[at..at + 32], 22);
    }

    method FillBody(win: array<Byte>, at: nat, ghost e: Raw)
      requires at + 32 <= win.Length && win[at..at + 32] == e && fname == []
      modifies this`fname
      ensures fname == Shown(UpToSpace(e[..8]))
    {
      hide UpToSpace, Shown;
      assert e[0..8] == e[..8];
      var n := 0;
      while n < 8
        invariant 0 <= n <= 8 && BodyLeft(e, n, fname)
      {
        var c := win[at + n];
        assert c == e[n];
        BodyStep(e, n, fname);
        if c == SPACE { break; }
        fname := fname + [if c == 0x05 then 0xE5 else c];
        n := n + 1;
      }
      BodyStep(e, n, fname);
    }

    method FillExtension(win: array<Byte>, at: nat, ghost e: Raw)
      requires at + 32 <= win.Length && win[at..at + 32] == e
      modifies this`fname
      ensures fname == old(fname) + UpToSpace(e[8..11])
    {
      hide UpToSpace;
      var n := 8;
      while n < 11
        invariant 8 <= n <= 11 && old(fname) + UpToSpace(e[8..11]) == fname + UpToSpace(e[n..11])
      {
        var c := win[at + n];
        assert c == e[n];
        UpToSpaceStep(e, n, 11);
        if c == SPACE { break; }
        fname := fname + [c];
        n := n + 1;
      }
      UpToSpaceStep(e, n, 11);
    }
  }

  lemma UpToSpaceStep(e: Raw, n: nat, k: nat)
    requires n <= k <= 32
    ensures UpToSpace(e[n..k]) == if n == k || e[n] == SPACE then [] else [e[n]] + UpToSpace(e[n + 1..k])
    ensures if n == k || e[n] == SPACE then Shown(UpToSpace(e[n..k])) == []
            else Shown(UpToSpace(e[n..k])) == [if e[n] == 0x05 then 0xE5 else e[n]] + Shown(UpToSpace(e[n + 1..k]))
  {
    if n < k {
      assert e[n..k][1..] == e[n + 1..k];
    }
  }

  /** What is taken over of the name part, with the bytes from n on to come, is all of it. */
  ghost predicate BodyLeft(e: Raw, n: nat, taken: seq<Byte>)
    requires n <= 8
  {
    Shown(UpToSpace(e[..8])) == taken + Shown(UpToSpace(e[n..8]))
  }

  lemma BodyStep(e: Raw, n: nat, taken: seq<Byte>)
    requires n <= 8 && BodyLeft(e, n, taken)
    ensures n == 8 || e[n] == SPACE ==> taken == Shown(UpToSpace(e[..8]))
    ensures n < 8 && e[n] != SPACE ==> BodyLeft(e, n + 1, taken + [if e[n] == 0x05 then 0xE5 else e[n]])
  {
    hide UpToSpace, Shown;
    UpToSpaceStep(e, n, 8);
  }

  lemma TextParts(e: Raw)
    ensures Text(e) == Shown(UpToSpace(e[..8])) + if e[8] == SPACE then [] else [DOT] + UpToSpace(e[8..11])
  {
  }

  /** The current cluster and sector are those of sector k of the directory. */
  ghost predicate Stands(g: Geometry, d: Folder, k: nat, clust: nat, sect: nat) {
    && d.Has(g, k) && sect == d.SectorAt(g, k)
    && if d.Root? then clust == 0 else AtSector(g, d.chain, k, clust, sect, g.sectsClust - Rem(k, g.sectsClust))
  }

  /** A position in the table of a directory. */
  class DIR {
    const fs: FATFS
    var id: Word
    var index: Word
    var sclust: nat
    var clust: nat
    /** 0 after the last entry */
    var sect: nat
    ghost var folder: Folder
    /** The number of the current entry, which the index gives modulo 2^16. */
    ghost var pos: nat

    constructor (fs: FATFS)
      ensures this.fs == fs && sect == 0
    {
      this.fs := fs;
      id, index, sclust, clust, sect := 0, 0, 0, 0, 0;
      folder, pos := Root, 0;
    }

    /** The object stands at an entry of its directory, or past the last one. */
    ghost predicate Valid()
      reads this, fs, fs.disk, fs.win
    {
      && fs.Valid() && folder.In(fs.g, fs.Fat())
      && (sect != 0 ==> Stands(fs.g, folder, pos / 16, clust, sect) && index == pos % 0x1_0000)
    }

    ghost function Table(): (es: seq<Raw>)
      requires fs.Valid() && folder.In(fs.g, fs.Fat())
      reads this, fs, fs.disk, fs.win
    {
      Entries(fs.g, fs.Fat(), fs.Store(), folder)
    }

    /** What is still to be listed. */
    ghost function Rest(): seq<nat>
      requires Valid()
      reads this, fs, fs.disk, fs.win
    {
      if sect == 0 then [] else Listed(Table(), pos)
    }

    /** Starts at entry p of a directory: the root (tff.c, lines 510-514), or a
        sub-directory past its two dot entries (lines 541-543, 1252-1258). */
    method StartRoot()
      requires fs.Valid() && Root.In(fs.g, fs.Fat())
      modifies this`index, this`sclust, this`clust, this`sect, this`folder, this`pos
      ensures Valid() && folder == Root && pos == 0 && sect != 0 && sclust == 0
    {
      hide FATFS.Fat, FATFS.Store, FATFS.Valid;
      clust, sclust := 0, 0;
      sect := fs.g.dirbase;
      index := 0;
      folder, pos := Root, 0;
    }

    method StartSub(start: nat, ghost ch: seq<nat>)
      requires fs.Valid() && Sub(ch).In(fs.g, fs.Fat()) && ch[0] == start
      modifies this`index, this`sclust, this`clust, this`sect, this`folder, this`pos
      ensures Valid() && folder == Sub(ch) && pos == 2 && sect != 0 && sclust == start
    {
      hide FATFS.Fat, FATFS.Store, FATFS.Valid, IsChain, Clusters, AtSector;
      StartOfChain(fs.g, fs.Fat(), ch);
      clust, sclust := start, start;
      sect := fs.g.Clust2Sect(clust);
      index := 2;
      folder, pos := Sub(ch), 2;
    }

    /** Brings the sector of the current entry into the window. */
    method Fetch() returns (ok: bool)
      requires Valid() && sect != 0
      modifies fs`winsect, fs`winflag, fs.win, fs.disk
      ensures Valid() && fs.Quiet()
      ensures !ok ==> fs.disk.Faults() > old(fs.disk.Faults())
      ensures fs.winflag ==> old(fs.winflag) && fs.winsect == old(fs.winsect)
      ensures ok ==>
        fs.winsect == sect && fs.win.Length == 512 && pos < |Table()| && Slot(fs.win[..], index % 16) == Table()[pos]
    {
      hide FATFS.Fat, FATFS.Store, FATFS.View, FATFS.Valid, Stands, Entries, Folder.In, Folder.Count;
      CurrentEntry();
      ok := fs.MoveWindow(sect);
      CurrentEntry();
    }

    /** Where the current entry is. */
    lemma CurrentEntry()
      requires Valid() && sect != 0
      ensures sect < |fs.View()| && pos < |Table()| && Table()[pos] == Slot(fs.View()[sect], index % 16)
    {
      hide FATFS.Fat, FATFS.Store, FATFS.View, FATFS.Valid, Entries, Stands, Folder.Count, Folder.SectorAt, Folder.Has;
      hide Folder.In, Slot;
      StandsAt(fs.g, folder, pos / 16, clust, sect);
      StoreOfView(fs);
      IndexSector(pos);
      SectorInVolume(fs.g, fs.View(), folder, fs.Fat(), pos);
    }

    /** next_dir_entry. It fails at the end of the table and after a disk error. */
    method NextEntry() returns (ok: bool)
      requires Valid() && sect != 0
      modifies this`index, this`clust, this`sect, this`pos
      modifies fs`winsect, fs`winflag, fs.win, fs.disk
      ensures fs.Valid() && fs.Quiet() && folder.In(fs.g, fs.Fat())
      ensures fs.winflag ==> old(fs.winflag) && fs.winsect == old(fs.winsect)
      ensures ok ==> Valid() && sect != 0 && pos == old(pos) + 1
      ensures !ok ==> pos == old(pos) && (fs.disk.Faults() > old(fs.disk.Faults()) || pos + 1 == folder.Count(fs.g))
    {
      hide FATFS.Fat, FATFS.Store, FATFS.Valid, Stands, And, Rem, Folder.Count, Folder.In, Geometry.Valid;
      assert fs.g.Valid() by { ValidGeometry(fs.g, folder, fs.Fat()); }
      IndexStep(pos, fs.g);
      var idx := (index as int + 1) % 0x1_0000;
      if idx % 16 == 0 {
        ok := NextSector(idx);
        if !ok { return; }
      }
      index := idx;
      pos := pos + 1;
      ok := true;
    }

    /** One turn of the loop of f_readdir, at an entry that is no end mark. */
    method Pass(info: FileInfo)
      requires Valid() && sect != 0 && info.fname == []
      requires fs.win.Length == 512 && pos < |Table()| && Slot(fs.win[..], index % 16) == Table()[pos]
      requires !IsEnd(Table()[pos])
      modifies this`index, this`clust, this`sect, this`pos, info
      modifies fs`winsect, fs`winflag, fs.win, fs.disk
      ensures Valid() && fs.Quiet() && (sect != 0 ==> pos == old(pos) + 1)
      ensures if IsVisible(old(Table()[pos]))
        then info.Describes(old(Table()[pos])) && info.fname != []
        else info.fname == []
      ensures Rest() == Listed(old(Table()), old(pos) + 1) || (Rest() == [] && fs.disk.Faults() > old(fs.disk.Faults()))
    {
      hide FATFS.Fat, FATFS.Store, FATFS.View, FATFS.Valid, Stands, Entries, Folder.In, Folder.Count, Text;
      var at := index % 16 * 32;
      ghost var e := Table()[pos];
      assert fs.win[at..at + 32] == e && fs.win[at] == e[0] && fs.win[at + 11] == e[11];
      if fs.win[at] != 0xE5 && fs.win[at + 11] / 8 % 2 == 0 {
        info.Fill(fs.win, at, e);
      }
      CountIs();
      var ok := NextEntry();
      if !ok { sect := 0; }
    }

    lemma CountIs()
      requires Valid()
      ensures |Table()| == folder.Count(fs.g)
    {
    }

    /** What a call finds: the next listed entry, or an empty name when there is none. */
    ghost predicate Found(info: FileInfo, es: seq<Raw>, rest: seq<nat>)
      reads info
    {
      if rest == [] then info.fname == [] else rest[0] < |es| && info.Describes(es[rest[0]])
    }

    /** validate */
    function Refusal(): FResult
      reads this, fs, fs.disk
    {
      if fs.id != id then FR_INVALID_OBJECT else if fs.disk.noInit then FR_NOT_READY else FR_OK
    }

    /** f_readdir: the next visible entry. A disk error may end the listing early; it never
        makes up, repeats or skips an entry that is listed later. */
    method ReadDir(info: FileInfo) returns (res: FResult)
      requires Valid()
      modifies this`index, this`clust, this`sect, this`pos, info
      modifies fs`winsect, fs`winflag, fs.win, fs.disk
      ensures Valid() && fs.SameDisk() && fs.Fat() == old(fs.Fat()) && fs.Store() == old(fs.Store())
      ensures folder == old(folder)
      ensures old(Refusal()) != FR_OK ==> res == old(Refusal())
      ensures old(Refusal()) == FR_OK ==> res == FR_OK || res == FR_RW_ERROR
      ensures res == FR_RW_ERROR ==> fs.disk.Faults() > old(fs.disk.Faults())
      ensures res != FR_OK ==> Rest() == old(Rest()) || (res == FR_RW_ERROR && Rest() == [])
      ensures res == FR_OK && fs.disk.Faults() == old(fs.disk.Faults()) ==>
        Found(info, old(Table()), old(Rest())) && Rest() == Tail(old(Rest()))
      ensures res == FR_OK && fs.disk.Faults() > old(fs.disk.Faults()) ==>
        && (info.fname == [] || (old(Rest()) != [] && Found(info, old(Table()), old(Rest()))))
        && (Rest() == [] || Rest() == Tail(old(Rest())))
    {
      hide FATFS.Fat, FATFS.Store, FATFS.View, FATFS.Valid, Stands, Entries, Folder.In, Folder.Count, Text, IsVisible;
      hide Listed, FileInfo.Describes, SameOutsideMirrors;
      res := Refusal();
      if res != FR_OK { return; }
      info.fname := [];
      ghost var es, rest := Table(), Rest();
      while sect != 0
        invariant Valid() && fs.SameDisk() && fs.Fat() == old(fs.Fat()) && fs.Store() == old(fs.Store())
        invariant Table() == es && info.fname == []
        invariant Rest() == rest || (Rest() == [] && fs.disk.Faults() > old(fs.disk.Faults()))
        decreases sect != 0, |es| - pos
      {
        var ok := Fetch();
        if !ok { return FR_RW_ERROR; }
        ListedStep(es, pos);
        if fs.win[index % 16 * 32] == 0 { break; }
        Pass(info);
        if info.fname != [] { break; }
      }
      return FR_OK;
    }

    /** The part of next_dir_entry that leaves a sector. */
    method NextSector(idx: Word) returns (ok: bool)
      requires fs.Valid() && folder.In(fs.g, fs.Fat()) && Stands(fs.g, folder, pos / 16, clust, sect)
      requires idx == (pos + 1) % 0x1_0000 && (pos + 1) % 16 == 0
      requires And(idx / 16, fs.g.sectsClust - 1) == Rem(pos / 16 + 1, fs.g.sectsClust)
      modifies this`clust, this`sect
      modifies fs`winsect, fs`winflag, fs.win, fs.disk
      ensures fs.Valid() && fs.Quiet() && folder.In(fs.g, fs.Fat())
      ensures fs.winflag ==> old(fs.winflag) && fs.winsect == old(fs.winsect)
      ensures ok ==> Stands(fs.g, folder, pos / 16 + 1, clust, sect) && sect != 0
      ensures !ok ==> fs.disk.Faults() > old(fs.disk.Faults()) || pos + 1 == folder.Count(fs.g)
    {
      hide FATFS.Fat, FATFS.Store, FATFS.Valid, AtSector, IsChain, And, Times, Rem, Geometry.Valid, Stands;
      hide Folder.Count;
      ghost var at := sect;
      sect := sect + 1;
      if clust == 0 {
        RootStep(fs.g, fs.Fat(), folder, pos, at);
        return idx < fs.g.nRootdir;
      }
      NotRoot(fs.g, folder, pos / 16, clust, at);
      SubCount(fs.g, folder, pos);
      ChainStep(fs.g, fs.Fat(), folder.chain, pos / 16, clust, at);
      if And(idx / 16, fs.g.sectsClust - 1) == 0 {
        var next := fs.GetCluster(clust);
        if next < 2 || next >= fs.g.maxClust {
          return false;
        }
        clust := next;
        sect := fs.g.Clust2Sect(next);
      }
      SubStands(fs.g, folder.chain, pos / 16 + 1, clust, sect);
      ok := true;
    }
  }

  lemma StandsAt(g: Geometry, d: Folder, k: nat, clust: nat, sect: nat)
    requires Stands(g, d, k, clust, sect)
    ensures d.Has(g, k) && sect == d.SectorAt(g, k)
  {
  }

  lemma StoreOfView(fs: FATFS)
    requires fs.Valid()
    ensures Fits(fs.g, fs.View()) && fs.Store() == StoreOf(fs.g, fs.View())
  {
    hide FATFS.View, FATFS.Valid;
  }

  lemma ValidGeometry(g: Geometry, d: Folder, fat: seq<nat>)
    requires d.In(g, fat)
    ensures g.Valid()
  {
  }

  lemma SubCount(g: Geometry, d: Folder, p: nat)
    requires d.Sub? && (p + 1) % 16 == 0
    ensures p / 16 + 1 == Times(|d.chain|, g.sectsClust) ==> p + 1 == d.Count(g)
  {
  }

  lemma NotRoot(g: Geometry, d: Folder, k: nat, clust: nat, sect: nat)
    requires Stands(g, d, k, clust, sect) && clust != 0
    ensures d.Sub? && AtSector(g, d.chain, k, clust, sect, g.sectsClust - Rem(k, g.sectsClust))
  {
  }

  lemma SubStands(g: Geometry, ch: seq<nat>, k: nat, clust: nat, sect: nat)
    requires g.Valid() && Clusters(g, ch) && AtSector(g, ch, k, clust, sect, g.sectsClust - Rem(k, g.sectsClust))
    ensures Stands(g, Sub(ch), k, clust, sect) && sect != 0
  {
    SectorInChain(g, ch, k);
  }

  /** The sector of an entry is on the volume, outside the cluster table. */
  lemma SectorInVolume(g: Geometry, v: seq<Sector>, d: Folder, fat: seq<nat>, p: nat)
    requires Fits(g, v) && d.In(g, fat) && d.Has(g, p / 16)
    ensures p < d.Count(g) && 0 < d.SectorAt(g, p / 16) < |v| && Big(g, StoreOf(g, v))
    ensures Entries(g, fat, StoreOf(g, v), d)[p] == Slot(v[d.SectorAt(g, p / 16)], p % 16)
  {
    FolderSectors(g, fat, d, p / 16);
    assert EntryIn(g, fat, StoreOf(g, v), d, p) == EntryAt(g, StoreOf(g, v), d, p);
  }

  lemma StartOfChain(g: Geometry, fat: seq<nat>, ch: seq<nat>)
    requires Sub(ch).In(g, fat)
    ensures g.IsCluster(ch[0]) && Covers(g, ch, 0) && Rem(0, g.sectsClust) == 0
    ensures SectorNo(g, ch, 0) == g.Clust2Sect(ch[0]) > 0
    ensures AtSector(g, ch, 0, ch[0], g.Clust2Sect(ch[0]), g.sectsClust)
  {
    StepFirst(g, fat, ch);
    SectorInChain(g, ch, 0);
  }

  lemma RootStep(g: Geometry, fat: seq<nat>, d: Folder, p: nat, sect: nat)
    requires d.In(g, fat) && Stands(g, d, p / 16, 0, sect) && (p + 1) % 16 == 0
    ensures if (p + 1) % 0x1_0000 < g.nRootdir then Stands(g, d, p / 16 + 1, 0, sect + 1) else p + 1 == d.Count(g)
  {
  }

  /** From one sector of a chain to the next, in the same cluster or in the next one. */
  lemma ChainStep(g: Geometry, fat: seq<nat>, ch: seq<nat>, k: nat, clust: nat, sect: nat)
    requires Sub(ch).In(g, fat) && AtSector(g, ch, k, clust, sect, g.sectsClust - Rem(k, g.sectsClust))
    ensures g.IsCluster(clust)
    ensures Rem(k + 1, g.sectsClust) != 0 ==>
      AtSector(g, ch, k + 1, clust, sect + 1, g.sectsClust - Rem(k + 1, g.sectsClust))
    ensures Rem(k + 1, g.sectsClust) == 0 && 2 <= fat[clust] < g.maxClust ==>
      AtSector(g, ch, k + 1, fat[clust], g.Clust2Sect(fat[clust]), g.sectsClust)
    ensures Rem(k + 1, g.sectsClust) == 0 && !(2 <= fat[clust] < g.maxClust) ==>
      k + 1 == Times(|ch|, g.sectsClust)
  {
    var sc := g.sectsClust;
    var q := Quot(k, sc);
    LinkAt(fat, ch, q);
    if Rem(k, sc) + 1 < sc {
      QuotStay(k, sc, 1);
      StepWithin(g, ch, k, clust, sect, sc - Rem(k, sc));
    } else {
      QuotNext(k, sc);
      Division(k + 1, sc);
      if q + 1 < |ch| {
        StepAcross(g, fat, ch, k, clust, sect);
      }
    }
  }

  /** The names of listed entries. */
  ghost function TextsAt(es: seq<Raw>, at: seq<nat>): (r: seq<seq<Byte>>)
    requires forall i :: 0 <= i < |at| ==> at[i] < |es|
    ensures |r| == |at|
  {
    seq(|at|, i requires 0 <= i < |at| => Text(es[at[i]]))
  }

  lemma NextText(es: seq<Raw>, at: seq<nat>, k: nat, name: seq<Byte>)
    requires forall i :: 0 <= i < |at| ==> at[i] < |es|
    requires k < |at| && Named(name, es, at[k..][0])
    ensures TextsAt(es, at)[..k + 1] == TextsAt(es, at)[..k] + [name]
    ensures Tail(at[k..]) == at[k + 1..]
  {
    hide Text;
  }

  /** f_readdir until it returns an empty name: the listed names, in order, and after them
      the directory stays at its end. */
  method ListAll(d: DIR) returns (res: FResult, names: seq<seq<Byte>>)
    requires d.Valid()
    modifies d`index, d`clust, d`sect, d`pos
    modifies d.fs`winsect, d.fs`winflag, d.fs.win, d.fs.disk
    ensures d.Valid() && d.fs.SameDisk() && d.fs.Fat() == old(d.fs.Fat()) && d.fs.Store() == old(d.fs.Store())
    ensures forall i :: 0 <= i < |old(d.Rest())| ==> old(d.Rest())[i] < |old(d.Table())|
    ensures res == FR_OK ==> names <= old(TextsAt(d.Table(), d.Rest()))
    ensures res == FR_OK && d.fs.disk.Faults() == old(d.fs.disk.Faults()) ==>
      names == old(TextsAt(d.Table(), d.Rest())) && d.Rest() == []
    ensures d.fs.disk.Faults() == old(d.fs.disk.Faults()) ==> res == old(d.Refusal())
  {
    hide FATFS.Fat, FATFS.Store, FATFS.View, FATFS.Valid, Stands, Entries, Folder.In, Folder.Count, Text, Listed;
    hide SameOutsideMirrors, TextsAt, Named;
    ghost var es, rest := d.Table(), d.Rest();
    RestInTable(d);
    names := [];
    while true
      invariant d.Valid() && d.fs.SameDisk() && d.fs.Fat() == old(d.fs.Fat()) && d.fs.Store() == old(d.fs.Store())
      invariant d.Table() == es && |names| <= |rest|
      invariant names == TextsAt(es, rest)[..|names|]
      invariant d.Rest() == rest[|names|..] || (d.Rest() == [] && d.fs.disk.Faults() > old(d.fs.disk.Faults()))
      decreases |rest| - |names|
    {
      var info;
      res, info := NextInfo(d);
      if res != FR_OK || info.fname == [] { return; }
      NextText(es, rest, |names|, info.fname);
      names := names + [info.fname];
    }
  }

  /** f_readdir into a new FILINFO. */
  method NextInfo(d: DIR) returns (res: FResult, info: FileInfo)
    requires d.Valid()
    modifies d`index, d`clust, d`sect, d`pos
    modifies d.fs`winsect, d.fs`winflag, d.fs.win, d.fs.disk
    ensures d.Valid() && d.fs.SameDisk() && d.fs.Fat() == old(d.fs.Fat()) && d.fs.Store() == old(d.fs.Store())
    ensures d.Table() == old(d.Table())
    ensures d.fs.disk.Faults() == old(d.fs.disk.Faults()) ==> res == old(d.Refusal())
    ensures res == FR_OK ==>
      && (info.fname == [] || (old(d.Rest()) != [] && Named(info.fname, old(d.Table()), old(d.Rest())[0])))
      && (d.Rest() == Tail(old(d.Rest())) || (d.Rest() == [] && d.fs.disk.Faults() > old(d.fs.disk.Faults())))
      && (info.fname == [] && old(d.Rest()) != [] ==> d.fs.disk.Faults() > old(d.fs.disk.Faults()))
  {
    hide FATFS.Fat, FATFS.Store, FATFS.Valid, Stands, Entries, Folder.In, Text, Listed, Tail;
    RestInTable(d);
    info := new FileInfo();
    res := d.ReadDir(info);
  }

  predicate Named(name: seq<Byte>, es: seq<Raw>, i: nat) { i < |es| && name == Text(es[i]) }

  lemma RestInTable(d: DIR)
    requires d.Valid()
    ensures forall i :: 0 <= i < |d.Rest()| ==> d.Rest()[i] < |d.Table()| && Text(d.Table()[d.Rest()[i]]) != []
  {
    hide FATFS.Fat, FATFS.Store, FATFS.Valid, Stands, Entries, Folder.In, Text;
    if d.sect != 0 {
      var es, rest := d.Table(), d.Rest();
      forall i | 0 <= i < |rest|
        ensures rest[i] < |es| && Text(es[rest[i]]) != []
      {
        ListedAre(es, d.pos, rest[i]);
      }
    }
  }
}
