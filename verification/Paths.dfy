/** Paths: a path is followed through the directories to an entry, and a file is opened
    there (tff.c, lines 489-545 and 1234-1266, and 803-897 without the creating modes). */
module Paths {
  import opened Bytes
  import opened Layout
  import opened Chains
  import opened FatTable
  import opened FileData
  import opened FileSystem
  import opened Transfer
  import opened FileObject
  import opened Names
  import opened Directory
  import opened Sessions

  // ----- the directory tree

  predicate IsFolder(e: Raw) { e[11] / 16 % 2 == 1 }

  function StartOf(e: Raw): Word { LoadWord(e, 26) }

  function SizeOf(e: Raw): nat { LoadDword(e, 28) }

  /** Where the search in a directory begins: past the dot entries of a sub-directory. */
  function First(d: Folder): nat { if d.Root? then 0 else 2 }

  predicate Matches(e: Raw, name: seq<Byte>) { IsLive(e) && e[..11] == name }

  /** The first entry from p on with this name, before an end mark; -1 if there is none. */
  function Find(es: seq<Raw>, p: nat, name: seq<Byte>): (i: int)
    ensures i == -1 || p <= i < |es|
    decreases |es| - p
  {
    if p >= |es| || IsEnd(es[p]) then -1
    else if Matches(es[p], name) then p
    else Find(es, p + 1, name)
  }

  lemma {:induction false} FindIsFirst(es: seq<Raw>, p: nat, name: seq<Byte>, j: nat)
    requires p <= j < |es| && Matches(es[j], name) && forall k :: p <= k <= j ==> !IsEnd(es[k])
    ensures 0 <= Find(es, p, name) <= j && Matches(es[Find(es, p, name)], name)
    decreases j - p
  {
    if !Matches(es[p], name) {
      FindIsFirst(es, p + 1, name, j);
    }
  }

  /** The chains of the sub-directories by their first clusters: every sub-directory entry
      that can be found leads to one of them. */
  ghost predicate Tree(g: Geometry, fat: seq<nat>, st: seq<Sector>, tree: map<nat, seq<nat>>) {
    && Big(g, st) && Root.In(g, fat)
    && (forall c :: c in tree ==> Sub(tree[c]).In(g, fat) && tree[c][0] == c)
    && (forall d, name :: InTree(d, tree) && Leads(g, fat, st, tree, d, name) ==>
          StartOf(Entries(g, fat, st, d)[Find(Entries(g, fat, st, d), First(d), name)]) as nat in tree)
  }

  predicate InTree(d: Folder, tree: map<nat, seq<nat>>) {
    d.Sub? ==> d.chain != [] && d.chain[0] in tree && tree[d.chain[0]] == d.chain
  }

  /** The directory has a sub-directory of this name. */
  ghost predicate Leads(g: Geometry, fat: seq<nat>, st: seq<Sector>, tree: map<nat, seq<nat>>, d: Folder,
          name: seq<Byte>)
    requires Big(g, st) && Root.In(g, fat)
    requires forall c :: c in tree ==> Sub(tree[c]).In(g, fat) && tree[c][0] == c
    requires InTree(d, tree)
  {
    var es := Entries(g, fat, st, d);
    var i := Find(es, First(d), name);
    i >= 0 && IsFolder(es[i])
  }

  // ----- what a path means

  datatype Place = Entry(folder: Folder, at: nat) | Nowhere(why: FResult)

  /** The entry a path leads to from directory d, segment by segment. */
  ghost function Resolve(g: Geometry, fat: seq<nat>, st: seq<Sector>, tree: map<nat, seq<nat>>, d: Folder,
          path: seq<Byte>, i: nat): Place
    requires Tree(g, fat, st, tree) && InTree(d, tree) && i <= |path|
    decreases |path| - i
  {
    var s, end := Segment(path, i), SegmentEnd(path, i);
    var last := PathAt(path, end) == 0;
    if !IsName(s) then Nowhere(FR_INVALID_NAME) else
    var es := Entries(g, fat, st, d);
    var k := Find(es, First(d), NameOf(s));
    if k < 0 then Nowhere(if last then FR_NO_FILE else FR_NO_PATH)
    else if last then Entry(d, k)
    else if !IsFolder(es[k]) then Nowhere(FR_NO_PATH)
    else
      assert Leads(g, fat, st, tree, d, NameOf(s));
      Resolve(g, fat, st, tree, Sub(tree[StartOf(es[k]) as nat]), path, end + 1)
  }

  // ----- trace_path

  /** The window holds the sector of d's current entry, which is e. */
  ghost predicate InWindow(d: DIR, e: Raw)
    reads d, d.fs, d.fs.win
  {
    d.fs.winsect == d.sect && d.fs.win.Length == 512 && Slot(d.fs.win[..], d.index % 16) == e
  }

  datatype Search = Hit | Miss | Broken

  /** The inner loop of trace_path: from the current entry on to one with the name in fn. */
  method SearchName(d: DIR, fn: array<Byte>, ghost name: seq<Byte>) returns (r: Search)
    requires d.Valid() && d.sect != 0 && fn.Length >= 12 && fn != d.fs.win && fn[..11] == name
    modifies d`index, d`clust, d`sect, d`pos
    modifies d.fs`winsect, d.fs`winflag, d.fs.win, d.fs.disk
    ensures d.fs.Valid() && d.fs.SameDisk() && d.fs.Fat() == old(d.fs.Fat()) && d.fs.Store() == old(d.fs.Store())
    ensures d.fs.winflag ==> old(d.fs.winflag) && d.fs.winsect == old(d.fs.winsect)
    ensures r.Hit? ==> d.Valid() && d.sect != 0 && d.pos < |d.Table()| && d.Table() == old(d.Table())
    ensures r.Hit? ==> d.pos == Find(d.Table(), old(d.pos), name) && InWindow(d, d.Table()[d.pos])
    ensures r.Miss? ==> Find(old(d.Table()), old(d.pos), name) == -1 || d.fs.disk.Faults() > old(d.fs.disk.Faults())
    ensures r.Broken? ==> d.fs.disk.Faults() > old(d.fs.disk.Faults())
  {
    hide FATFS.Fat, FATFS.Store, FATFS.View, FATFS.Valid, Stands, Entries, Folder.In, Folder.Count, Find;
    hide SameOutsideMirrors;
    ghost var es, p := d.Table(), d.pos;
    while true
      invariant d.Valid() && d.sect != 0 && d.fs.SameDisk() && d.fs.Fat() == old(d.fs.Fat())
      invariant d.fs.Store() == old(d.fs.Store())
      invariant d.fs.winflag ==> old(d.fs.winflag) && d.fs.winsect == old(d.fs.winsect)
      invariant d.Table() == es && Find(es, p, name) == Find(es, d.pos, name)
      decreases |es| - d.pos
    {
      var ok := d.Fetch();
      if !ok { return Broken; }
      ghost var e := es[d.pos];
      var at := d.index % 16 * 32;
      FindStep(es, d.pos, name);
      EntryBytes(d.fs.win[..], d.index % 16, e);
      if d.fs.win[at] == 0 { return Miss; }
      if d.fs.win[at] != 0xE5 && d.fs.win[at + 11] / 8 % 2 == 0 && d.fs.win[at..at + 11] == fn[..11] {
        return Hit;
      }
      d.CountIs();
      ok := d.NextEntry();
      if !ok { return Miss; }
    }
  }

  lemma FindStep(es: seq<Raw>, p: nat, name: seq<Byte>)
    requires p < |es|
    ensures Find(es, p, name) ==
      if IsEnd(es[p]) then -1
      else if es[p][0] != 0xE5 && es[p][11] / 8 % 2 == 0 && es[p][..11] == name then p
      else if p + 1 == |es| then -1 else Find(es, p + 1, name)
  {
  }

  lemma EntryBytes(s: Sector, i: nat, e: Raw)
    requires i < 16 && e == Slot(s, i)
    ensures s[32 * i] == e[0] && s[32 * i + 11] == e[11] && s[32 * i..32 * i + 11] == e[..11]
    ensures LoadWord(s, 32 * i + 26) == StartOf(e) && LoadDword(s, 32 * i + 28) == SizeOf(e)
    ensures s[32 * i + 11] == e[11]
  {
  }

  lemma SlotIs(s: Sector, i: nat)
    requires i < 16
    ensures s[32 * i..32 * i + 32] == Slot(s, i)
  {
  }

  /** trace_path: follows the path from the root. Without disk errors the result is the
      entry the path means, or the reason why there is none; an entry that is found is
      right in any case. The offset returned is -1 for the root itself. */
  method TracePath(d: DIR, path: seq<Byte>, fn: array<Byte>, ghost tree: map<nat, seq<nat>>)
    returns (res: FResult, dir: int)
    requires d.fs.Valid() && Tree(d.fs.g, d.fs.Fat(), d.fs.Store(), tree) && fn.Length >= 12 && fn != d.fs.win
    modifies d`index, d`sclust, d`clust, d`sect, d`folder, d`pos, fn
    modifies d.fs`winsect, d.fs`winflag, d.fs.win, d.fs.disk
    ensures d.fs.Valid() && d.fs.SameDisk() && d.fs.Fat() == old(d.fs.Fat()) && d.fs.Store() == old(d.fs.Store())
    ensures d.fs.winflag ==> old(d.fs.winflag) && d.fs.winsect == old(d.fs.winsect)
    ensures InTree(d.folder, tree)
    ensures res == FR_OK ==> d.Valid() && d.sect != 0 && (dir == -1 <==> PathAt(path, 0) == 0)
    ensures res == FR_OK && dir == -1 ==> d.folder == Root && d.pos == 0
    ensures res == FR_OK && dir != -1 ==>
      && d.pos < |d.Table()| && dir == d.index % 16 * 32 && InWindow(d, d.Table()[d.pos])
      && Resolve(d.fs.g, d.fs.Fat(), d.fs.Store(), tree, Root, path, 0) == Entry(d.folder, d.pos)
    ensures res != FR_OK ==>
      || d.fs.disk.Faults() > old(d.fs.disk.Faults())
      || (PathAt(path, 0) != 0 && res != FR_RW_ERROR
          && Resolve(d.fs.g, d.fs.Fat(), d.fs.Store(), tree, Root, path, 0) == Nowhere(res))
  {
    hide FATFS.Fat, FATFS.Store, FATFS.View, FATFS.Valid, Stands, Entries, Folder.In, Find, Tree, Resolve, IsName;
    hide NameOf, PathAt, Segment, SegmentEnd, Slot, Folder.Count, IsLive, IsEnd, InTree;
    TreeRoot(d.fs.g, d.fs.Fat(), d.fs.Store(), tree);
    d.StartRoot();
    dir := -1;
    if PathAt(path, 0) == 0 {
      return FR_OK, -1;
    }
    ghost var fat, st, goal := d.fs.Fat(), d.fs.Store(), Resolve(d.fs.g, d.fs.Fat(), d.fs.Store(), tree, Root, path, 0);
    var i := 0;
    while true
      invariant d.Valid() && d.sect != 0 && d.pos == First(d.folder) && InTree(d.folder, tree) && i <= |path|
      invariant d.fs.SameDisk() && d.fs.Fat() == fat && d.fs.Store() == st
      invariant d.fs.winflag ==> old(d.fs.winflag) && d.fs.winsect == old(d.fs.winsect)
      invariant goal == Resolve(d.fs.g, fat, st, tree, d.folder, path, i)
      decreases |path| - i
    {
      var ds;
      res, ds, dir, i := TraceSegment(d, path, i, fn, tree);
      if res != FR_OK || ds == 0 { return; }
    }
  }

  /** One turn of the outer loop of trace_path: a segment is looked up, and if it is not
      the last one its directory is entered. */
  method TraceSegment(d: DIR, path: seq<Byte>, i: nat, fn: array<Byte>, ghost tree: map<nat, seq<nat>>)
    returns (res: FResult, ds: Byte, dir: int, next: nat)
    requires d.Valid() && Tree(d.fs.g, d.fs.Fat(), d.fs.Store(), tree) && fn.Length >= 12 && fn != d.fs.win
    requires d.sect != 0 && d.pos == First(d.folder) && InTree(d.folder, tree) && i <= |path|
    modifies d`index, d`sclust, d`clust, d`sect, d`folder, d`pos, fn
    modifies d.fs`winsect, d.fs`winflag, d.fs.win, d.fs.disk
    ensures d.fs.Valid() && d.fs.SameDisk() && d.fs.Fat() == old(d.fs.Fat()) && d.fs.Store() == old(d.fs.Store())
    ensures d.fs.winflag ==> old(d.fs.winflag) && d.fs.winsect == old(d.fs.winsect)
    ensures InTree(d.folder, tree)
    ensures res == FR_OK ==> d.Valid() && d.sect != 0
    ensures res == FR_OK && ds == 0 ==>
      && d.pos < |d.Table()| && dir == d.index % 16 * 32 && InWindow(d, d.Table()[d.pos])
      && Resolve(d.fs.g, d.fs.Fat(), d.fs.Store(), tree, old(d.folder), path, i) == Entry(d.folder, d.pos)
    ensures res == FR_OK && ds != 0 ==>
      && i < next <= |path| && d.pos == First(d.folder)
      && Resolve(d.fs.g, d.fs.Fat(), d.fs.Store(), tree, old(d.folder), path, i)
         == Resolve(d.fs.g, d.fs.Fat(), d.fs.Store(), tree, d.folder, path, next)
    ensures res != FR_OK ==> next <= |path|
    ensures res != FR_OK ==>
      || d.fs.disk.Faults() > old(d.fs.disk.Faults())
      || (res != FR_RW_ERROR && Resolve(d.fs.g, d.fs.Fat(), d.fs.Store(), tree, old(d.folder), path, i) == Nowhere(res))
  {
    hide FATFS.Fat, FATFS.Store, FATFS.View, FATFS.Valid, Stands, Entries, Folder.In, Find, Tree, Resolve, IsName;
    hide NameOf, PathAt, Segment, SegmentEnd, Slot, Folder.Count, IsLive, IsEnd, InTree, LoadWord, LoadDword, IsFolder;
    hide InWindow;
    ghost var fat, st := d.fs.Fat(), d.fs.Store();
    ResolveStep(d.fs.g, fat, st, tree, d.folder, path, i);
    ds, next := MakeDirFile(path, i, fn);
    dir := -1;
    if ds == 1 { return FR_INVALID_NAME, ds, dir, i; }
    ghost var name := NameOf(Segment(path, i));
    var r := SearchName(d, fn, name);
    if r.Broken? { return FR_RW_ERROR, ds, dir, i; }
    if r.Miss? {
      return if ds == 0 then FR_NO_FILE else FR_NO_PATH, ds, dir, i;
    }
    dir := d.index % 16 * 32;
    WindowBytes(d, d.Table()[d.pos]);
    if ds == 0 { return FR_OK, ds, dir, i; }
    if d.fs.win[dir + 11] / 16 % 2 == 0 { return FR_NO_PATH, ds, dir, i; }
    var clust := LoadWord(d.fs.win[..], dir + 26);
    TreeSub(d.fs.g, fat, st, tree, d.folder, name, clust);
    d.StartSub(clust, tree[clust]);
    res := FR_OK;
  }

  /** What the code reads off the window about the current entry. */
  lemma WindowBytes(d: DIR, e: Raw)
    requires InWindow(d, e)
    ensures var at := d.index % 16 * 32;
      && d.fs.winsect == d.sect && d.fs.win.Length == 512 && at + 32 <= 512
      && (d.fs.win[at + 11] / 16 % 2 == 1 <==> IsFolder(e)) && (d.fs.win[at + 11] % 2 == 1 <==> ReadOnly(e))
      && LoadWord(d.fs.win[..], at + 26) == StartOf(e) && LoadDword(d.fs.win[..], at + 28) == SizeOf(e)
      && d.fs.win[..][at..at + 32] == e
  {
    EntryBytes(d.fs.win[..], d.index % 16, e);
    SlotIs(d.fs.win[..], d.index % 16);
  }

  lemma TreeRoot(g: Geometry, fat: seq<nat>, st: seq<Sector>, tree: map<nat, seq<nat>>)
    requires Tree(g, fat, st, tree)
    ensures Root.In(g, fat) && InTree(Root, tree)
  {
  }

  lemma TreeSub(g: Geometry, fat: seq<nat>, st: seq<Sector>, tree: map<nat, seq<nat>>, d: Folder, name: seq<Byte>,
          c: nat)
    requires Tree(g, fat, st, tree) && InTree(d, tree) && d.In(g, fat)
    requires var i := Find(Entries(g, fat, st, d), First(d), name);
      i >= 0 && IsFolder(Entries(g, fat, st, d)[i]) && StartOf(Entries(g, fat, st, d)[i]) == c
    ensures c in tree && Sub(tree[c]).In(g, fat) && tree[c][0] == c && InTree(Sub(tree[c]), tree)
  {
    hide Find, Entries;
    assert Leads(g, fat, st, tree, d, name);
  }

  lemma SegmentStops(path: seq<Byte>, i: nat)
    requires i <= |path|
    ensures var end := SegmentEnd(path, i);
      i <= end <= |path| && (PathAt(path, end) != 0 ==> end < |path| && PathAt(path, end) == SLASH)
  {
  }

  /** One segment of a path. */
  lemma ResolveStep(g: Geometry, fat: seq<nat>, st: seq<Sector>, tree: map<nat, seq<nat>>, d: Folder, path: seq<Byte>,
          i: nat)
    requires Tree(g, fat, st, tree) && InTree(d, tree) && d.In(g, fat) && i <= |path|
    ensures Big(g, st)
    ensures var s, end := Segment(path, i), SegmentEnd(path, i);
      var last := PathAt(path, end) == 0;
      var r := Resolve(g, fat, st, tree, d, path, i);
      && end <= |path| && (!last ==> end < |path| && PathAt(path, end) == SLASH)
      && (!IsName(s) ==> r == Nowhere(FR_INVALID_NAME))
      && (IsName(s) ==>
        var es := Entries(g, fat, st, d);
        var k := Find(es, First(d), NameOf(s));
        && (k < 0 ==> r == Nowhere(if last then FR_NO_FILE else FR_NO_PATH))
        && (k >= 0 && last ==> r == Entry(d, k))
        && (k >= 0 && !last && !IsFolder(es[k]) ==> r == Nowhere(FR_NO_PATH))
        && (k >= 0 && !last && IsFolder(es[k]) ==>
          var c: nat := StartOf(es[k]);
          c in tree && InTree(Sub(tree[c]), tree) && r == Resolve(g, fat, st, tree, Sub(tree[c]), path, end + 1)))
  {
    hide Find, Entries, Folder.In, IsName, NameOf, Leads, Segment, PathAt;
    SegmentStops(path, i);
    var s := Segment(path, i);
    if IsName(s) {
      var es := Entries(g, fat, st, d);
      var k := Find(es, First(d), NameOf(s));
      if k >= 0 && IsFolder(es[k]) {
        TreeSub(g, fat, st, tree, d, NameOf(s), StartOf(es[k]));
      }
    }
  }

  /** What a path leads to is an entry of a directory of the tree, and if it is a
      sub-directory that is in the tree as well. */
  lemma {:induction false} ResolvedInTree(g: Geometry, fat: seq<nat>, st: seq<Sector>, tree: map<nat, seq<nat>>,
          d: Folder, path: seq<Byte>, i: nat)
    requires Tree(g, fat, st, tree) && InTree(d, tree) && d.In(g, fat) && i <= |path|
    ensures Big(g, st)
    ensures var r := Resolve(g, fat, st, tree, d, path, i);
      r.Entry? ==>
        && InTree(r.folder, tree) && r.folder.In(g, fat) && r.at < r.folder.Count(g)
        && var e := Entries(g, fat, st, r.folder)[r.at];
           IsFolder(e) ==> StartOf(e) as nat in tree
    decreases |path| - i
  {
    hide Find, Entries, Folder.In, IsName, NameOf, InTree, Segment;
    ResolveStep(g, fat, st, tree, d, path, i);
    var s, end := Segment(path, i), SegmentEnd(path, i);
    if IsName(s) {
      var es := Entries(g, fat, st, d);
      var k := Find(es, First(d), NameOf(s));
      if k >= 0 && IsFolder(es[k]) {
        var c: nat := StartOf(es[k]);
        TreeSub(g, fat, st, tree, d, NameOf(s), c);
        if PathAt(path, end) != 0 {
          ResolvedInTree(g, fat, st, tree, Sub(tree[c]), path, end + 1);
        }
      }
    }
  }

  // ----- f_opendir

  /** The directory a path names: the root for the empty path. */
  ghost predicate NamesFolder(g: Geometry, fat: seq<nat>, st: seq<Sector>, tree: map<nat, seq<nat>>, path: seq<Byte>,
          d: Folder)
    requires Tree(g, fat, st, tree)
  {
    if PathAt(path, 0) == 0 then d == Root
    else
      var r := Resolve(g, fat, st, tree, Root, path, 0);
      r.Entry? && r.folder.In(g, fat) &&
      var es := Entries(g, fat, st, r.folder);
      r.at < |es| && IsFolder(es[r.at]) && StartOf(es[r.at]) as nat in tree && d == Sub(tree[StartOf(es[r.at]) as nat])
  }

  /** f_opendir: a directory object at the first entry to be listed. */
  method OpenDir(fs: FATFS, path: seq<Byte>, ghost tree: map<nat, seq<nat>>) returns (res: FResult, d: DIR)
    requires fs.Valid() && Tree(fs.g, fs.Fat(), fs.Store(), tree)
    modifies fs`winsect, fs`winflag, fs.win, fs.disk
    ensures fs.Valid() && fs.SameDisk() && fs.Fat() == old(fs.Fat()) && fs.Store() == old(fs.Store())
    ensures fresh(d) && d.fs == fs
    ensures res == FR_OK ==>
      && d.Valid() && d.sect != 0 && d.id == fs.id && d.pos == First(d.folder)
      && NamesFolder(fs.g, fs.Fat(), fs.Store(), tree, path, d.folder)
    ensures res != FR_OK && fs.disk.Faults() == old(fs.disk.Faults()) ==>
      && forall f :: !NamesFolder(fs.g, fs.Fat(), fs.Store(), tree, path, f)
  {
    hide FATFS.Fat, FATFS.Store, FATFS.View, FATFS.Valid, Stands, Entries, Find, Tree, Resolve, PathAt, Slot, Folder.In;
    hide Folder.Count, InTree, InWindow, LoadWord, LoadDword, IsFolder, SameOutsideMirrors;
    d := new DIR(fs);
    var fn := new Byte[12];
    var dir;
    TreeRoot(fs.g, fs.Fat(), fs.Store(), tree);
    ResolvedInTree(fs.g, fs.Fat(), fs.Store(), tree, Root, path, 0);
    res, dir := TracePath(d, path, fn, tree);
    if res != FR_OK { return; }
    if dir != -1 {
      WindowBytes(d, d.Table()[d.pos]);
      if fs.win[dir + 11] / 16 % 2 == 0 {
        return FR_NO_FILE, d;
      }
      var clust := LoadWord(fs.win[..], dir + 26);
      TreeHas(fs.g, fs.Fat(), fs.Store(), tree, clust);
      d.StartSub(clust, tree[clust]);
    }
    d.id := fs.id;
  }

  lemma TreeHas(g: Geometry, fat: seq<nat>, st: seq<Sector>, tree: map<nat, seq<nat>>, c: nat)
    requires Tree(g, fat, st, tree) && c in tree
    ensures Sub(tree[c]).In(g, fat) && tree[c][0] == c
  {
  }

  /** f_opendir, and f_readdir until nothing is found: the names of the visible entries of
      the directory, without the dot entries of a sub-directory, in table order. */
  method ListPath(fs: FATFS, path: seq<Byte>, ghost tree: map<nat, seq<nat>>)
    returns (res: FResult, names: seq<seq<Byte>>, ghost d: Folder)
    requires fs.Valid() && Tree(fs.g, fs.Fat(), fs.Store(), tree)
    modifies fs`winsect, fs`winflag, fs.win, fs.disk
    ensures fs.Valid() && fs.Fat() == old(fs.Fat()) && fs.Store() == old(fs.Store())
    ensures res == FR_OK ==> d.In(fs.g, fs.Fat()) && NamesFolder(fs.g, fs.Fat(), fs.Store(), tree, path, d)
    ensures res == FR_OK && fs.disk.Faults() == old(fs.disk.Faults()) ==>
      names == Listing(Entries(fs.g, fs.Fat(), fs.Store(), d), First(d))
    ensures fs.disk.Faults() == old(fs.disk.Faults()) && !old(fs.disk.noInit) ==>
      (res == FR_OK <==> exists f :: NamesFolder(fs.g, fs.Fat(), fs.Store(), tree, path, f))
  {
    hide FATFS.Fat, FATFS.Store, FATFS.View, FATFS.Valid, Stands, Entries, Tree, NamesFolder, Listed, Folder.Count;
    var dir;
    names := [];
    res, dir := OpenDir(fs, path, tree);
    d := dir.folder;
    if res != FR_OK { return; }
    ListingIs(dir.Table(), dir.pos);
    res, names := ListAll(dir);
  }

  /** The texts of the visible entries from p on, up to the end mark. */
  function Listing(es: seq<Raw>, p: nat): seq<seq<Byte>>
    decreases |es| - p
  {
    if p >= |es| || IsEnd(es[p]) then []
    else (if IsVisible(es[p]) then [Text(es[p])] else []) + Listing(es, p + 1)
  }

  lemma {:induction false} ListingIs(es: seq<Raw>, p: nat)
    ensures forall i :: 0 <= i < |Listed(es, p)| ==> Listed(es, p)[i] < |es|
    ensures TextsAt(es, Listed(es, p)) == Listing(es, p)
    decreases |es| - p
  {
    hide IsVisible, Text, Listed;
    if p < |es| && !IsEnd(es[p]) {
      ListingIs(es, p + 1);
      ListedStep(es, p);
      TextsCons(es, p, Listed(es, p + 1));
    } else {
      NothingListed(es, p);
    }
  }

  lemma TextsCons(es: seq<Raw>, p: nat, at: seq<nat>)
    requires p < |es| && forall i :: 0 <= i < |at| ==> at[i] < |es|
    ensures TextsAt(es, [p] + at) == [Text(es[p])] + TextsAt(es, at)
  {
    hide Text;
  }

  // ----- f_open

  /** The path leads to this file: its entry, which is no directory, starts the chain. */
  ghost predicate NamesFile(g: Geometry, fat: seq<nat>, st: seq<Sector>, tree: map<nat, seq<nat>>, path: seq<Byte>,
          e: Raw)
    requires Tree(g, fat, st, tree)
  {
    PathAt(path, 0) != 0 &&
    var r := Resolve(g, fat, st, tree, Root, path, 0);
    r.Entry? && r.folder.In(g, fat) && r.at < |Entries(g, fat, st, r.folder)|
    && e == Entries(g, fat, st, r.folder)[r.at] && !IsFolder(e)
  }

  /** The entry that was found decides whether the path names a file. */
  lemma FileAt(g: Geometry, fat: seq<nat>, st: seq<Sector>, tree: map<nat, seq<nat>>, path: seq<Byte>, d: Folder,
          k: nat)
    requires Tree(g, fat, st, tree) && d.In(g, fat) && PathAt(path, 0) != 0
    requires Resolve(g, fat, st, tree, Root, path, 0) == Entry(d, k)
    ensures Big(g, st)
    ensures forall f :: NamesFile(g, fat, st, tree, path, f) <==>
      k < |Entries(g, fat, st, d)| && f == Entries(g, fat, st, d)[k] && !IsFolder(f)
  {
  }

  lemma NoFile(g: Geometry, fat: seq<nat>, st: seq<Sector>, tree: map<nat, seq<nat>>, path: seq<Byte>)
    requires Tree(g, fat, st, tree)
    ensures PathAt(path, 0) == 0 || Resolve(g, fat, st, tree, Root, path, 0).Nowhere? ==>
      forall f :: !NamesFile(g, fat, st, tree, path, f)
  {
  }

  predicate ReadOnly(e: Raw) { e[11] % 2 == 1 }

  /** The entry that the path leads to is at this place. */
  ghost predicate EntryAtPath(g: Geometry, fat: seq<nat>, st: seq<Sector>, tree: map<nat, seq<nat>>, path: seq<Byte>,
          dirSect: nat, dirPtr: nat)
    requires Tree(g, fat, st, tree)
  {
    PathAt(path, 0) != 0 &&
    var r := Resolve(g, fat, st, tree, Root, path, 0);
    && r.Entry? && InTree(r.folder, tree) && r.folder.In(g, fat) && r.folder.Has(g, r.at / 16)
    && dirSect == r.folder.SectorAt(g, r.at / 16) && dirPtr == r.at % 16 * 32
  }

  lemma FoundPlace(d: DIR, tree: map<nat, seq<nat>>, path: seq<Byte>)
    requires d.Valid() && d.sect != 0 && Tree(d.fs.g, d.fs.Fat(), d.fs.Store(), tree) && InTree(d.folder, tree)
    requires PathAt(path, 0) != 0
    requires Resolve(d.fs.g, d.fs.Fat(), d.fs.Store(), tree, Root, path, 0) == Entry(d.folder, d.pos)
    ensures EntryAtPath(d.fs.g, d.fs.Fat(), d.fs.Store(), tree, path, d.sect, d.index % 16 * 32)
  {
    hide FATFS.Fat, FATFS.Store, FATFS.Valid, Stands, Tree, Resolve, InTree, PathAt, Folder.In, Folder.Has;
    hide Folder.SectorAt;
    StandsAt(d.fs.g, d.folder, d.pos / 16, d.clust, d.sect);
    IndexSector(d.pos);
  }

  /** f_open of an existing file. */
  method Open(fs: FATFS, path: seq<Byte>, read: bool, write: bool, ghost tree: map<nat, seq<nat>>, ghost ch: seq<nat>)
    returns (res: FResult, fp: FIL?, ghost e: Raw)
    requires fs.Valid() && Tree(fs.g, fs.Fat(), fs.Store(), tree)
    requires forall f :: NamesFile(fs.g, fs.Fat(), fs.Store(), tree, path, f) ==>
      IsFile(fs.g, fs.Fat(), StartOf(f), ch, SizeOf(f))
    modifies fs`winsect, fs`winflag, fs.win, fs.disk
    ensures fs.Valid() && fs.SameDisk() && fs.Fat() == old(fs.Fat()) && fs.Store() == old(fs.Store())
    ensures fs.winflag ==> old(fs.winflag) && fs.winsect == old(fs.winsect)
    ensures res == FR_OK ==>
      && fp != null && fresh(fp) && fp.fs == fs && fp.Valid() && fp.Cursor() && fp.fptr == 0
      && fp.chain == ch && fp.fsize == SizeOf(e) && fp.orgClust == StartOf(e)
      && fp.canRead == read && fp.canWrite == write && !fp.error && fp.attached && fp.id == fs.id
      && NamesFile(fs.g, fs.Fat(), fs.Store(), tree, path, e) && !(write && ReadOnly(e))
      && fp.dirSect == fs.winsect && fp.dirPtr + 32 <= 512 && fs.win[..][fp.dirPtr..fp.dirPtr + 32] == e
      && EntryAtPath(fs.g, fs.Fat(), fs.Store(), tree, path, fp.dirSect, fp.dirPtr)
    ensures res != FR_OK && fs.disk.Faults() == old(fs.disk.Faults()) ==>
      forall f :: NamesFile(fs.g, fs.Fat(), fs.Store(), tree, path, f) ==> res == FR_DENIED && write && ReadOnly(f)
  {
    hide FATFS.Fat, FATFS.Store, FATFS.View, FATFS.Valid, Stands, Entries, Find, Tree, Resolve, PathAt, Folder.In;
    hide Folder.Count, InTree, IsFile, NamesFile, Slot, InWindow, LoadWord, LoadDword, IsFolder, SameOutsideMirrors;
    hide EntryAtPath;
    fp := null;
    e := seq(32, _ => 0);
    var d := new DIR(fs);
    var fn := new Byte[12];
    var dir;
    TreeRoot(fs.g, fs.Fat(), fs.Store(), tree);
    NoFile(fs.g, fs.Fat(), fs.Store(), tree, path);
    res, dir := TracePath(d, path, fn, tree);
    if res != FR_OK { return; }
    if dir == -1 {
      return FR_NO_FILE, null, e;
    }
    e := d.Table()[d.pos];
    WindowBytes(d, e);
    FileAt(fs.g, fs.Fat(), fs.Store(), tree, path, d.folder, d.pos);
    if fs.win[dir + 11] / 16 % 2 == 1 {
      return FR_NO_FILE, null, e;
    }
    if write && fs.win[dir + 11] % 2 == 1 {
      return FR_DENIED, null, e;
    }
    FoundPlace(d, tree, path);
    fp := new FIL(fs, read, write, LoadWord(fs.win[..], dir + 26), LoadDword(fs.win[..], dir + 28), fs.winsect, dir,
      ch);
  }

  /** f_open, f_lseek and f_read: what comes back are the bytes of the file that the path
      names, at the position asked for, as far as the file goes. */
  method ReadFile(fs: FATFS, path: seq<Byte>, ofs: nat, n: nat, ghost tree: map<nat, seq<nat>>, ghost ch: seq<nat>)
    returns (res: FResult, got: seq<Byte>, ghost e: Raw)
    requires fs.Valid() && Tree(fs.g, fs.Fat(), fs.Store(), tree) && ofs < 0x1_0000_0000 && n < 0x1_0000
    requires forall f :: NamesFile(fs.g, fs.Fat(), fs.Store(), tree, path, f) ==>
      IsFile(fs.g, fs.Fat(), StartOf(f), ch, SizeOf(f))
    requires fs.winflag ==> !InChain(fs.g, ch, fs.winsect)
    modifies fs`winsect, fs`winflag, fs`lastClust, fs`freeClust, fs.win, fs.disk
    ensures fs.Valid() && fs.SameDisk() && fs.Store() == old(fs.Store())
    ensures res == FR_OK ==> fs.Fat() == old(fs.Fat()) && NamesFile(fs.g, fs.Fat(), fs.Store(), tree, path, e)
    ensures res == FR_OK ==> IsFile(fs.g, fs.Fat(), StartOf(e), ch, SizeOf(e))
    ensures res == FR_OK ==>
      got == Content(fs.g, fs.Store(), ch, SizeOf(e))[Min(ofs, SizeOf(e))..Min(ofs + n, SizeOf(e))]
    ensures fs.disk.Faults() == old(fs.disk.Faults()) && !old(fs.disk.noInit) ==>
      (res == FR_OK <==> exists f :: old(NamesFile(fs.g, fs.Fat(), fs.Store(), tree, path, f)))
  {
    hide FATFS.Fat, FATFS.Store, FATFS.View, FATFS.Valid, Tree, NamesFile, IsFile, AtSector, Content, Needed, InChain;
    got := [];
    var fp;
    res, fp, e := Open(fs, path, true, false, tree, ch);
    if res != FR_OK { return; }
    res, got := ReadAt(fp, ofs, n);
  }

  /** f_lseek and f_read on a file open for reading only. */
  method ReadAt(fp: FIL, ofs: nat, n: nat) returns (res: FResult, got: seq<Byte>)
    requires fp.Valid() && fp.canRead && !fp.canWrite && ofs < 0x1_0000_0000 && n < 0x1_0000
    requires fp.fs.winflag ==> !InChain(fp.fs.g, fp.chain, fp.fs.winsect)
    modifies fp`sectClust, fp`currClust, fp`currSect, fp`orgClust, fp`chain, fp`fptr, fp`fsize, fp`written, fp`error
    modifies fp.fs`winsect, fp.fs`winflag, fp.fs`lastClust, fp.fs`freeClust, fp.fs.win, fp.fs.disk
    ensures fp.fs.Valid() && fp.fs.SameDisk() && fp.fs.Store() == old(fp.fs.Store())
    ensures res == FR_OK ==> fp.fs.Fat() == old(fp.fs.Fat())
    ensures res == FR_OK ==> got == old(fp.Data())[Min(ofs, old(fp.fsize))..Min(ofs + n, old(fp.fsize))]
    ensures fp.fs.disk.Faults() == old(fp.fs.disk.Faults()) ==> (res == FR_OK <==> old(fp.Refusal(true)) == FR_OK)
  {
    hide FATFS.Fat, FATFS.Store, FATFS.View, FATFS.Valid, IsFile, AtSector, Content, Needed, InChain, Free, FIL.HasRoom;
    hide Extends;
    got := [];
    res := fp.Seek(ofs);
    if res != FR_OK { return; }
    FirstCluster(fp.fs.g, fp.fs.Fat(), fp.orgClust, fp.chain, fp.fsize);
    if fp.fs.winflag {
      ClearOutside(fp.fs.g, fp.chain, fp.fptr, Min(n, fp.fsize - fp.fptr), fp.fs.winsect);
    }
    fp.Fresh(Min(n, fp.fsize - fp.fptr));
    res, got := ReadOn(fp, n);
  }
}
