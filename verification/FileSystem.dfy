/** The mounted volume: a one-sector write-back window over the disk, the cluster table
    reached through it, and the cluster allocator (tff.c, lines 63-335, 1345-1402). */
module FileSystem {
  import opened Arith
  import opened Bytes
  import opened Layout
  import opened DiskIo
  import opened FatTable
  import opened Chains

  datatype FResult =
    | FR_OK | FR_NOT_READY | FR_NO_FILE | FR_NO_PATH | FR_INVALID_NAME | FR_INVALID_DRIVE | FR_DENIED
    | FR_EXIST | FR_RW_ERROR | FR_WRITE_PROTECTED | FR_NOT_ENABLED | FR_NO_FILESYSTEM | FR_INVALID_OBJECT

  /** The value of free_clust that means "not counted yet". */
  const UNKNOWN: Word := 0xFFFF

  /** Copy k of the table sector s agrees with the first copy. */
  predicate Copied(g: Geometry, sectors: seq<Sector>, s: nat, k: nat) {
    s < |sectors| && g.MirrorOf(s, k) < |sectors| && sectors[g.MirrorOf(s, k)] == sectors[s]
  }

  /** All copies of the table agree, except for the sector that is dirty in the window
      (-1 when none is). */
  ghost predicate Mirrored(g: Geometry, sectors: seq<Sector>, dirty: int) {
    forall s, k :: g.fatbase <= s < g.fatbase + g.sectsFat && s != dirty && 1 <= k < g.nFats ==>
      Copied(g, sectors, s, k)
  }

  class FATFS {
    const g: Geometry
    const disk: Disk
    /** fs__win */
    const win: array<Byte>
    var winsect: nat
    var winflag: bool
    var lastClust: Word
    var freeClust: Word
    /** Mount id; 0 when the object is not mounted. */
    var id: Word

    /** The window invariant. A dirty window covers a sector of the first copy of the
        table or one outside the table; a clean window holds what the disk holds. As
        long as no write has failed, all copies of the table agree apart from the
        dirty sector. */
    ghost predicate Valid()
      reads this, disk, win
      ensures Valid() ==> Fits(g, disk.sectors) && win.Length == 512
    {
      && Framed()
      && (!winflag && winsect != 0 ==> winsect < |disk.sectors| && win[..] == disk.sectors[winsect])
    }

    /** The same, but a clean window may hold anything: so it is after a write that went
        past the window. */
    ghost predicate Framed()
      reads this, disk, win
    {
      && win.Length == 512
      && Fits(g, disk.sectors)
      && (winflag ==> g.fatbase <= winsect < |disk.sectors| && !g.IsMirror(winsect))
      && (disk.writeFaults == 0 ==> Mirrored(g, disk.sectors, if winflag then winsect else -1))
    }

    /** The disk overlaid with the window if that is dirty. */
    ghost function Overlay(): (v: seq<Sector>)
      requires Framed()
      reads this, disk, win
      ensures Fits(g, v) && |v| == |disk.sectors|
    {
      if winflag then disk.sectors[winsect := win[..]] else disk.sectors
    }

    /** The volume. */
    ghost function View(): (v: seq<Sector>)
      requires Valid()
      reads this, disk, win
      ensures Fits(g, v) && |v| == |disk.sectors|
    {
      Overlay()
    }

    /** The table the volume stands for. */
    ghost function Fat(): (fat: seq<nat>)
      requires Valid()
      reads this, disk, win
      ensures |fat| == g.maxClust
    {
      FatOf(g, View())
    }

    /** The volume outside the table area. */
    ghost function Store(): (st: seq<Sector>)
      requires Valid()
      reads this, disk, win
      ensures |st| == |disk.sectors|
    {
      StoreOf(g, View())
    }

    /** A volume just mounted: the window still holds the boot record under number 0. */
    constructor (g: Geometry, disk: Disk)
      requires Fits(g, disk.sectors)
      requires disk.writeFaults == 0 ==> Mirrored(g, disk.sectors, -1)
      ensures Valid() && this.g == g && this.disk == disk && fresh(win)
      ensures !winflag && winsect == 0 && freeClust == UNKNOWN
    {
      this.g := g;
      this.disk := disk;
      win := new Byte[512];
      winsect, winflag := 0, false;
      lastClust, freeClust := 0, UNKNOWN;
      id := 1;
    }

    /** The same table and store as before, on the same disk. */
    twostate predicate Quiet()
      requires old(Valid()) && Valid()
      reads this, disk, win
    {
      && Fat() == old(Fat()) && Store() == old(Store())
      && SameOutsideMirrors(g, old(View()), View())
      && SameDisk()
    }

    twostate predicate SameDisk()
      reads disk
    {
      && |disk.sectors| == |old(disk.sectors)| && disk.noInit == old(disk.noInit)
      && disk.writeFaults >= old(disk.writeFaults) && disk.readFaults >= old(disk.readFaults)
    }

    /** move_window, on a volume as it should be: whatever happens, it stands for the same
        table and store. Moving to 0 only writes a dirty window back. */
    method MoveWindow(sector: nat) returns (ok: bool)
      requires Valid()
      modifies this`winsect, this`winflag, win, disk
      ensures Valid() && Quiet()
      ensures !ok && sector < |disk.sectors| ==> disk.Faults() > old(disk.Faults())
      ensures ok && sector != 0 ==> winsect == sector < |disk.sectors| && win[..] == View()[sector]
      ensures ok && sector == 0 ==> !winflag && winsect == old(winsect) && disk.sectors == View()
      ensures !ok ==> winsect == old(winsect)
      ensures winflag ==> old(winflag) && winsect == old(winsect)
      ensures winsect == old(winsect) ==> win[..] == old(win[..])
      ensures !old(winflag) ==> disk.sectors == old(disk.sectors)
    {
      hide Mirrored, FatOf, StoreOf, Fits, Geometry.IsMirror;
      ok := Move(sector);
      SamePrimary(g, old(View()), View());
    }

    /** The code of move_window. It trusts the window's number: a window that has the
        number asked for is not read again. */
    method Move(sector: nat) returns (ok: bool)
      requires Framed()
      modifies this`winsect, this`winflag, win, disk
      ensures Framed() && SameDisk() && SameOutsideMirrors(g, old(Overlay()), Overlay())
      ensures !ok && sector < |disk.sectors| ==> disk.Faults() > old(disk.Faults())
      ensures old(winsect) == sector ==> ok && unchanged(this, win, disk)
      ensures ok && sector != 0 ==> winsect == sector
      ensures ok && sector != 0 && sector != old(winsect) ==> sector < |disk.sectors| && win[..] == disk.sectors[sector]
      ensures ok && sector == 0 ==> !winflag && winsect == old(winsect)
      ensures !ok ==> winsect == old(winsect)
      ensures winsect == old(winsect) ==> win[..] == old(win[..])
      ensures winsect != old(winsect) ==> !winflag && winsect == sector != 0
      ensures winflag ==> old(winflag)
      ensures !old(winflag) ==> disk.sectors == old(disk.sectors)
      ensures winsect == old(winsect) && old(winflag) && !winflag ==> disk.sectors[winsect] == win[..]
    {
      hide Mirrored;
      var wsect := winsect;
      if wsect != sector {
        if winflag {
          ok := WriteBack(wsect);
          if !ok {
            return;
          }
        }
        if sector != 0 {
          ok := disk.Read(win, 0, sector, 1);
          if !ok {
            return;
          }
          winsect := sector;
          assert win[..] == win[0..512];
        }
      }
      ok := true;
    }

    /** The write-back of a dirty window, to the table's copies as well. */
    method WriteBack(wsect: nat) returns (ok: bool)
      requires Framed() && winflag && wsect == winsect
      modifies this`winflag, disk`sectors, disk`writeFaults
      ensures Framed() && SameDisk() && SameOutsideMirrors(g, old(Overlay()), Overlay())
      ensures !ok ==> winflag && disk.Faults() > old(disk.Faults())
      ensures ok ==> !winflag && disk.sectors[winsect] == win[..] && disk.readFaults == old(disk.readFaults)
    {
      ok := disk.Write(win, 0, wsect, 1);
      if !ok {
        return;
      }
      assert win[..] == win[0..512];
      assert disk.sectors == old(Overlay());
      winflag := false;
      if wsect < g.fatbase + g.sectsFat {
        if disk.writeFaults == 0 {
          MirroredWrite(g, old(disk.sectors), disk.sectors, wsect);
        }
        WriteMirrors(wsect);
      } else if disk.writeFaults == 0 {
        MirroredOutside(g, old(disk.sectors), disk.sectors, wsect);
      }
    }

    /** The tail of the write-back: the sector just written to the first copy of the
        table is written to the other copies. Failures there are ignored. */
    method WriteMirrors(wsect: nat)
      requires win.Length == 512 && Fits(g, disk.sectors) && !winflag
      requires g.fatbase <= wsect < g.fatbase + g.sectsFat && winsect == wsect
      requires win[..] == disk.sectors[wsect]
      requires disk.writeFaults == 0 ==> Mirrored(g, disk.sectors, wsect)
      modifies disk`sectors, disk`writeFaults
      ensures Valid()
      ensures |disk.sectors| == |old(disk.sectors)|
      ensures disk.writeFaults >= old(disk.writeFaults)
      ensures forall s :: 0 <= s < |disk.sectors| && !g.IsMirror(s) ==> disk.sectors[s] == old(disk.sectors[s])
    {
      var n, to := g.nFats, wsect;
      ghost var k := 0;
      while n >= 2
        invariant 1 <= n <= g.nFats && k == g.nFats - n && to == g.MirrorOf(wsect, k)
        invariant |disk.sectors| == |old(disk.sectors)|
        invariant disk.writeFaults >= old(disk.writeFaults)
        invariant forall s :: 0 <= s < |disk.sectors| && !g.IsMirror(s) ==> disk.sectors[s] == old(disk.sectors[s])
        invariant disk.writeFaults == 0 ==> Mirrored(g, disk.sectors, wsect)
        invariant disk.writeFaults == 0 ==> forall j :: 1 <= j <= k ==> Copied(g, disk.sectors, wsect, j)
      {
        ghost var before := disk.sectors;
        to := to + g.sectsFat;
        k := k + 1;
        MirrorInRange(g, wsect, k);
        var ok := disk.Write(win, 0, to, 1);
        if disk.writeFaults == 0 {
          assert disk.sectors[to + 0] == win[..];
          MirrorStep(g, before, disk.sectors, wsect, k);
          assert Copied(g, disk.sectors, wsect, k);
        }
        n := n - 1;
      }
    }

    /** get_cluster: 1 for a number that is not a cluster and after a disk error. */
    method GetCluster(clust: nat) returns (r: nat)
      requires Valid()
      modifies this`winsect, this`winflag, win, disk
      ensures Valid() && Quiet()
      ensures !g.IsCluster(clust) ==> r == 1
      ensures g.IsCluster(clust) ==> r == Fat()[clust] || (r == 1 && disk.Faults() > old(disk.Faults()))
      ensures winflag ==> old(winflag) && winsect == old(winsect)
      ensures r != 1 ==> g.fatbase <= winsect < g.fatbase + g.sectsFat
      ensures winsect == old(winsect) || g.fatbase <= winsect < g.fatbase + g.sectsFat
    {
      if 2 <= clust && clust < g.maxClust {
        match g.kind
        case Fat12 => r := GetCluster12(clust);
        case Fat16 => r := GetCluster16(clust);
      } else {
        r := 1;
      }
    }

    /** The FS_FAT12 branch of get_cluster. */
    method GetCluster12(clust: nat) returns (r: nat)
      requires Valid() && g.kind.Fat12? && g.IsCluster(clust)
      modifies this`winsect, this`winflag, win, disk
      ensures Valid() && Quiet()
      ensures r == Fat()[clust] || (r == 1 && disk.Faults() > old(disk.Faults()))
      ensures winflag ==> old(winflag) && winsect == old(winsect)
      ensures r != 1 ==> g.fatbase <= winsect < g.fatbase + g.sectsFat
      ensures winsect == old(winsect) || g.fatbase <= winsect < g.fatbase + g.sectsFat
    {
      hide FatOf, StoreOf, Mirrored, Times, Unpack12, FatByte;
      EntryInTable(g, clust);
      var bc := clust * 3 / 2;
      var ok, lo := FetchFatByte(bc);
      if !ok { return 1; }
      ghost var v := View();
      var hi;
      ok, hi := FetchFatByte(bc + 1);
      if !ok { return 1; }
      SameFatByte(g, v, View(), bc);
      EntryOf12(g, View(), clust);
      r := Unpack12(clust, lo, hi);
    }

    /** The FS_FAT16 branch of get_cluster. */
    method GetCluster16(clust: nat) returns (r: nat)
      requires Valid() && g.kind.Fat16? && g.IsCluster(clust)
      modifies this`winsect, this`winflag, win, disk
      ensures Valid() && Quiet()
      ensures r == Fat()[clust] || (r == 1 && disk.Faults() > old(disk.Faults()))
      ensures winflag ==> old(winflag) && winsect == old(winsect)
      ensures r != 1 ==> g.fatbase <= winsect < g.fatbase + g.sectsFat
      ensures winsect == old(winsect) || g.fatbase <= winsect < g.fatbase + g.sectsFat
    {
      EntryInTable(g, clust);
      var ok := MoveWindow(g.fatbase + clust / 256);
      if !ok { return 1; }
      assert Fat()[clust] == Entry(g, View(), clust);
      Slot16(clust);
      r := LoadWord(win[..], clust * 2 % 0x1_0000 % 512);
    }

    /** Brings byte i of the table into the window. */
    method FetchFatByte(i: nat) returns (ok: bool, b: Byte)
      requires Valid() && i < 512 * g.sectsFat
      modifies this`winsect, this`winflag, win, disk
      ensures Valid() && Quiet()
      ensures ok ==> winsect == g.fatbase + i / 512 && win[..] == View()[winsect]
      ensures ok ==> b == win[i % 512] == FatByte(g, View(), i)
      ensures !ok ==> disk.Faults() > old(disk.Faults()) && winsect == old(winsect)
      ensures winflag ==> old(winflag) && winsect == old(winsect)
    {
      ok := MoveWindow(g.fatbase + i / 512);
      b := win[i % 512];
    }

    /** Stores a byte in the window and marks it dirty. */
    method Poke(i: nat, b: Byte)
      requires Valid() && i < 512
      requires g.fatbase <= winsect < |disk.sectors| && !g.IsMirror(winsect) && win[..] == View()[winsect]
      modifies win, this`winflag
      ensures Valid() && winflag
      ensures win[..] == old(win[..])[i := b]
      ensures View() == old(View())[winsect := win[..]]
    {
      win[i] := b;
      winflag := true;
    }

    /** Everything put_cluster leaves alone when it gives up half-way. */
    twostate predicate OnlyEntry(clust: nat)
      requires old(Valid()) && Valid()
      reads this, disk, win
    {
      && Store() == old(Store()) && SameDisk()
      && forall j :: 0 <= j < g.maxClust && j != clust ==> Fat()[j] == old(Fat())[j]
    }

    /** put_cluster: entry clust, and no other, becomes val cut to the entry size. */
    method PutCluster(clust: nat, val: nat) returns (ok: bool)
      requires Valid() && g.IsCluster(clust)
      modifies this`winsect, this`winflag, win, disk
      ensures Valid() && OnlyEntry(clust)
      ensures ok ==> Fat() == old(Fat())[clust := val % g.EntrySize()]
      ensures !ok ==> disk.Faults() > old(disk.Faults())
      ensures ok ==> winflag && g.fatbase <= winsect < g.fatbase + g.sectsFat
      ensures winsect == old(winsect) || g.fatbase <= winsect < g.fatbase + g.sectsFat
    {
      match g.kind
      case Fat12 => ok := PutCluster12(clust, val);
      case Fat16 => ok := PutCluster16(clust, val);
    }

    /** Byte i of the table, and only that byte, has become b (copies apart). */
    twostate predicate BytePut(i: nat, b: Byte)
      requires old(Valid()) && Valid() && i < 512 * g.sectsFat
      reads this, disk, win
    {
      SameOutsideMirrors(g, SetFatByte(g, old(View()), i, b), View())
    }

    /** The FS_FAT12 branch of put_cluster. */
    method PutCluster12(clust: nat, val: nat) returns (ok: bool)
      requires Valid() && g.kind.Fat12? && g.IsCluster(clust)
      modifies this`winsect, this`winflag, win, disk
      ensures Valid() && OnlyEntry(clust)
      ensures ok ==> Fat() == old(Fat())[clust := val % g.EntrySize()]
      ensures !ok ==> disk.Faults() > old(disk.Faults())
      ensures ok ==> winflag && g.fatbase <= winsect < g.fatbase + g.sectsFat
      ensures winsect == old(winsect) || g.fatbase <= winsect < g.fatbase + g.sectsFat
    {
      hide FatOf, StoreOf, Mirrored, SetFatByte, FatByte, Low12, High12, Times;
      EntryInTable(g, clust);
      ghost var v := View();
      ok := PutFirst12(clust, val);
      if !ok { return; }
      ghost var w := View();
      HalfPut12(g, v, w, clust, val);
      ok := PutSecond12(clust, val);
      if !ok { return; }
      WholePut12(g, v, w, View(), clust, val);
    }

    method PutFirst12(clust: nat, val: nat) returns (ok: bool)
      requires Valid() && g.kind.Fat12? && g.IsCluster(clust) && EntryOffset(g, clust) + 1 < 512 * g.sectsFat
      modifies this`winsect, this`winflag, win, disk
      ensures Valid() && SameDisk() && Store() == old(Store())
      ensures ok ==> BytePut(clust * 3 / 2, Low12(clust, FatByte(g, old(View()), clust * 3 / 2), val))
      ensures !ok ==> Quiet() && disk.Faults() > old(disk.Faults())
      ensures winsect == old(winsect) || g.fatbase <= winsect < g.fatbase + g.sectsFat
    {
      hide FatOf, StoreOf, Mirrored, Low12, Times;
      var bc, p := clust * 3 / 2, 0;
      ok, p := FetchFatByte(bc);
      if !ok { return; }
      ghost var v := View();
      SameFatByte(g, old(View()), v, bc);
      Poke(bc % 512, Low12(clust, p, val));
      WriteInside(g, v, winsect, win[..]);
      assert View() == SetFatByte(g, v, bc, Low12(clust, p, val));
    }

    method PutSecond12(clust: nat, val: nat) returns (ok: bool)
      requires Valid() && g.kind.Fat12? && g.IsCluster(clust) && EntryOffset(g, clust) + 1 < 512 * g.sectsFat
      modifies this`winsect, this`winflag, win, disk
      ensures Valid() && SameDisk() && Store() == old(Store())
      ensures ok ==> BytePut(clust * 3 / 2 + 1, High12(clust, FatByte(g, old(View()), clust * 3 / 2 + 1), val))
      ensures !ok ==> Quiet() && disk.Faults() > old(disk.Faults())
      ensures ok ==> winflag && g.fatbase <= winsect < g.fatbase + g.sectsFat
      ensures winsect == old(winsect) || g.fatbase <= winsect < g.fatbase + g.sectsFat
    {
      hide FatOf, StoreOf, Mirrored, High12, Times;
      var bc, p := clust * 3 / 2 + 1, 0;
      ok, p := FetchFatByte(bc);
      if !ok { return; }
      ghost var v := View();
      SameFatByte(g, old(View()), v, bc);
      Poke(bc % 512, High12(clust, p, val));
      WriteInside(g, v, winsect, win[..]);
      assert View() == SetFatByte(g, v, bc, High12(clust, p, val));
    }

    /** The FS_FAT16 branch of put_cluster. */
    method PutCluster16(clust: nat, val: nat) returns (ok: bool)
      requires Valid() && g.kind.Fat16? && g.IsCluster(clust)
      modifies this`winsect, this`winflag, win, disk
      ensures Valid() && OnlyEntry(clust)
      ensures ok ==> Fat() == old(Fat())[clust := val % g.EntrySize()]
      ensures !ok ==> disk.Faults() > old(disk.Faults())
      ensures ok ==> winflag && g.fatbase <= winsect < g.fatbase + g.sectsFat
      ensures winsect == old(winsect) || g.fatbase <= winsect < g.fatbase + g.sectsFat
    {
      hide FatOf, StoreOf, Mirrored, Times;
      EntryInTable(g, clust);
      ok := MoveWindow(g.fatbase + clust / 256);
      if !ok { return; }
      Slot16(clust);
      ghost var v := View();
      var at := clust * 2 % 0x1_0000 % 512;
      Poke(at, val % 256);
      ghost var w := View();
      assert w == SetFatByte(g, v, clust * 2, val % 256);
      WriteInside(g, v, winsect, win[..]);
      Poke(at + 1, val / 256 % 256);
      assert View() == SetFatByte(g, w, clust * 2 + 1, val / 256 % 256);
      WriteInside(g, w, winsect, win[..]);
      Put16(g, v, clust, val);
    }

    /** remove_chain. Stops on every table; clears what Removed says. */
    method RemoveChain(first: nat) returns (ok: bool)
      requires Valid()
      modifies this`winsect, this`winflag, this`freeClust, win, disk
      ensures Valid() && SameDisk() && Store() == old(Store())
      ensures ok ==> Removed(old(Fat()), first) == (Fat(), true)
      ensures ok ==> freeClust == Raised(old(freeClust), Steps(old(Fat()), first))
      ensures !ok ==> !Removed(old(Fat()), first).1 || disk.Faults() > old(disk.Faults())
      ensures winsect == old(winsect) || g.fatbase <= winsect < g.fatbase + g.sectsFat
    {
      hide FATFS.Fat, FATFS.Store, FATFS.Valid, Free, Removed, Steps, Raised;
      var clust: nat := first;
      ghost var fat0, fat := Fat(), Fat();
      while clust >= 2 && clust < g.maxClust
        invariant Valid() && SameDisk() && Store() == old(Store()) && Fat() == fat
        invariant Removed(fat0, first) == Removed(fat, clust)
        invariant Raised(old(freeClust), Steps(fat0, first)) == Raised(freeClust, Steps(fat, clust))
        invariant winsect == old(winsect) || g.fatbase <= winsect < g.fatbase + g.sectsFat
        decreases g.maxClust - Free(fat), clust
      {
        var nxt := GetCluster(clust);
        RemoveEnds(freeClust, fat, clust);
        if nxt == 1 {
          return false;
        }
        var done := PutCluster(clust, 0);
        if !done {
          return false;
        }
        RemoveStep(fat, clust);
        fat := fat[clust := 0];
        RaisedOnce(freeClust, Steps(fat, nxt));
        NoteFreed();
        clust := nxt;
      }
      RemoveEnds(freeClust, fat, clust);
      ok := true;
    }

    /** The next search for a free cluster begins after c. */
    method SearchFrom(c: Word)
      requires Valid()
      modifies this`lastClust
      ensures Valid() && Fat() == old(Fat()) && Store() == old(Store()) && View() == old(View()) && lastClust == c
    {
      lastClust := c;
    }

    method NoteFreed()
      requires Valid()
      modifies this`freeClust
      ensures Valid() && Fat() == old(Fat()) && Store() == old(Store())
      ensures freeClust == if old(freeClust) == UNKNOWN then UNKNOWN else (old(freeClust) + 1) % 0x1_0000
    {
      if freeClust != UNKNOWN {
        freeClust := (freeClust + 1) % 0x1_0000;
      }
    }

    method NoteTaken(ncl: nat)
      requires Valid() && g.IsCluster(ncl)
      modifies this`freeClust, this`lastClust
      ensures Valid() && Fat() == old(Fat()) && Store() == old(Store())
      ensures lastClust == ncl && freeClust == Lowered(old(freeClust))
    {
      lastClust := ncl;
      if freeClust != UNKNOWN {
        freeClust := (freeClust - 1) % 0x1_0000;
      }
    }

    /** create_chain: 0 when no cluster is free, 1 on an error, else the next cluster
        of the chain, allocated if there was none. */
    method CreateChain(clust: nat) returns (r: nat)
      requires Valid()
      modifies this`winsect, this`winflag, this`freeClust, this`lastClust, win, disk
      ensures Valid() && SameDisk() && Store() == old(Store())
      ensures r == 0 ==> Fat() == old(Fat()) && NoneFreeIn(Fat(), 2, g.maxClust)
      ensures r == 0 && clust != 0 ==> IsCluster(Fat(), clust) && Fat()[clust] >= g.maxClust
      ensures r == 1 ==> Refused(old(Fat()), clust) || disk.Faults() > old(disk.Faults())
      ensures r == 1 ==>
        forall c :: 0 <= c < g.maxClust && c != clust && old(Fat())[c] != 0 ==> Fat()[c] == old(Fat())[c]
      ensures r >= 2 ==> Grown(old(Fat()), Fat(), clust, old(lastClust), r, g.EndMark())
      ensures r >= 2 ==> if Fat() == old(Fat()) then lastClust == old(lastClust) && freeClust == old(freeClust)
                         else lastClust == r && freeClust == Lowered(old(freeClust))
      ensures r < 2 ==> lastClust == old(lastClust) && freeClust == old(freeClust)
      ensures winsect == old(winsect) || g.fatbase <= winsect < g.fatbase + g.sectsFat
      ensures r >= 2 ==> g.fatbase <= winsect < g.fatbase + g.sectsFat
    {
      hide FATFS.Fat, FATFS.Store, FATFS.Valid;
      var mcl, scl := g.maxClust, 0;
      if clust == 0 {
        scl := lastClust;
        if scl < 2 || scl >= mcl {
          scl := 1;
        }
      } else {
        var cstat := GetCluster(clust);
        if cstat < 2 { return 1; }
        if cstat < mcl { return cstat; }
        scl := clust;
      }
      ghost var probed;
      var ncl;
      ncl, probed := FindFree(scl);
      if ncl < 2 { return ncl; }
      var ok := Occupy(ncl, clust);
      r := if ok then ncl else 1;
    }

    /** The end of create_chain: marks the new cluster "in use" and links it to the
        previous one if there is one. */
    method Occupy(ncl: nat, clust: nat) returns (ok: bool)
      requires Valid() && g.IsCluster(ncl) && Fat()[ncl] == 0
      requires clust != 0 ==> g.IsCluster(clust) && Fat()[clust] >= g.maxClust
      modifies this`winsect, this`winflag, this`freeClust, this`lastClust, win, disk
      ensures Valid() && SameDisk() && Store() == old(Store())
      ensures !ok ==> disk.Faults() > old(disk.Faults())
      ensures !ok ==> lastClust == old(lastClust) && freeClust == old(freeClust)
      ensures !ok ==> forall c :: 0 <= c < g.maxClust && c != clust && c != ncl ==> Fat()[c] == old(Fat())[c]
      ensures ok ==> lastClust == ncl && freeClust == Lowered(old(freeClust))
      ensures ok ==> g.EndMark() >= g.maxClust && Fat()[ncl] != 0
      ensures ok ==> Fat() == if clust == 0 then Started(old(Fat()), ncl, g.EndMark())
                              else Stretched(old(Fat()), clust, ncl, g.EndMark())
      ensures winsect == old(winsect) || g.fatbase <= winsect < g.fatbase + g.sectsFat
      ensures ok ==> g.fatbase <= winsect < g.fatbase + g.sectsFat
    {
      hide FATFS.Fat, FATFS.Store, FATFS.Valid;
      EntryCut(g, ncl);
      ok := PutCluster(ncl, 0xFFFF);
      if !ok { return; }
      if clust != 0 {
        ok := PutCluster(clust, ncl);
        if !ok { return; }
      }
      NoteTaken(ncl);
    }

    /** The search loop of create_chain: the first free cluster after scl, going round
        once; 0 when there is none, 1 on an error. No entry is looked at twice. */
    method FindFree(scl: nat) returns (ncl: nat, ghost probed: seq<nat>)
      requires Valid() && 1 <= scl && (scl < g.maxClust)
      modifies this`winsect, this`winflag, win, disk
      ensures Valid() && SameDisk() && Fat() == old(Fat()) && Store() == old(Store())
      ensures ncl == 0 ==> NoneFreeIn(Fat(), 2, g.maxClust)
      ensures ncl == 1 ==> (exists c :: IsCluster(Fat(), c) && Fat()[c] == 1) || disk.Faults() > old(disk.Faults())
      ensures ncl >= 2 ==> NextFit(Fat(), scl, ncl)
      ensures Distinct(probed) && |probed| <= g.maxClust - 2
      ensures forall i :: 0 <= i < |probed| ==> probed[i] == Probe(scl, i, g.maxClust) && IsCluster(Fat(), probed[i])
      ensures winsect == old(winsect) || g.fatbase <= winsect < g.fatbase + g.sectsFat
    {
      hide FATFS.View, FATFS.Fat, FATFS.Store, FATFS.Valid;
      var mcl := g.maxClust;
      ghost var fat := Fat();
      ncl, probed := scl, [];
      ProbedOnce(probed, scl, mcl);
      ghost var wrapped := false;
      while true
        invariant Valid() && SameDisk() && Fat() == fat && Store() == old(Store())
        invariant winsect == old(winsect) || g.fatbase <= winsect < g.fatbase + g.sectsFat
        invariant !wrapped ==> scl <= ncl < mcl && NoneFreeIn(fat, scl + 1, ncl + 1)
        invariant wrapped ==> 2 <= ncl < scl && NoneFreeIn(fat, scl + 1, mcl) && NoneFreeIn(fat, 2, ncl + 1)
        invariant |probed| == if wrapped then mcl - scl - 1 + ncl - 1 else ncl - scl
        invariant Distinct(probed) && |probed| <= mcl - 2
        invariant forall i :: 0 <= i < |probed| ==> probed[i] == Probe(scl, i, mcl) && 2 <= probed[i] < mcl
        decreases !wrapped, mcl - ncl
      {
        ncl := ncl + 1;
        if ncl >= mcl {
          ncl := 2;
          wrapped := true;
          if ncl > scl {
            return 0, probed;
          }
        }
        probed := probed + [ncl];
        ProbedOnce(probed, scl, mcl);
        var cstat := GetCluster(ncl);
        if cstat == 0 { break; }
        if cstat == 1 { return 1, probed; }
        if ncl == scl { return 0, probed; }
      }
    }

    /** f_getfree on a mounted volume. A known count is returned as it is; otherwise
        the table is counted, on FAT16 sector by sector from entry 0. */
    method GetFree() returns (res: FResult, nclust: nat)
      requires Valid()
      modifies this`winsect, this`winflag, this`freeClust, win, disk
      ensures Valid() && SameDisk() && Fat() == old(Fat()) && Store() == old(Store())
      ensures old(freeClust) <= g.maxClust - 2 ==> res == FR_OK && nclust == freeClust == old(freeClust)
      ensures res != FR_OK ==> res == FR_RW_ERROR && disk.Faults() > old(disk.Faults()) && freeClust == old(freeClust)
      ensures res == FR_OK && old(freeClust) > g.maxClust - 2 && disk.Faults() == old(disk.Faults()) ==>
        nclust == freeClust == if g.kind.Fat12? then Free(Fat()) else FreeFrom(Fat(), 0)
    {
      hide FATFS.Fat, FATFS.Store, FATFS.Valid;
      if freeClust <= g.maxClust - 2 {
        return FR_OK, freeClust;
      }
      var ok := true;
      match g.kind {
        case Fat12 => nclust := CountFree12();
        case Fat16 => ok, nclust := CountFree16();
      }
      if !ok {
        return FR_RW_ERROR, 0;
      }
      Note(nclust);
      res := FR_OK;
    }

    method Note(n: nat)
      requires Valid() && n <= g.maxClust
      modifies this`freeClust
      ensures Valid() && Fat() == old(Fat()) && Store() == old(Store()) && freeClust == n
    {
      freeClust := n;
    }

    method CountFree12() returns (n: nat)
      requires Valid() && g.kind.Fat12?
      modifies this`winsect, this`winflag, win, disk
      ensures Valid() && SameDisk() && Fat() == old(Fat()) && Store() == old(Store())
      ensures n <= g.maxClust
      ensures disk.Faults() == old(disk.Faults()) ==> n == Free(Fat())
    {
      hide FATFS.Fat, FATFS.Store, FATFS.Valid;
      ghost var fat := Fat();
      var clust: nat := 2;
      n := 0;
      while true
        invariant Valid() && SameDisk() && Fat() == fat && Store() == old(Store())
        invariant 2 <= clust && (clust < g.maxClust || clust == 2) && n <= clust - 2
        invariant disk.Faults() == old(disk.Faults()) ==> n + FreeFrom(fat, clust) == Free(fat)
        decreases g.maxClust - clust
      {
        var c := GetCluster(clust);
        if c == 0 {
          n := n + 1;
        }
        clust := clust + 1;
        if !(clust < g.maxClust) {
          break;
        }
      }
    }

    method CountFree16() returns (ok: bool, n: nat)
      requires Valid() && g.kind.Fat16?
      modifies this`winsect, this`winflag, win, disk
      ensures Valid() && SameDisk() && Fat() == old(Fat()) && Store() == old(Store())
      ensures !ok ==> disk.Faults() > old(disk.Faults())
      ensures ok ==> n == FreeFrom(Fat(), 0) <= g.maxClust
    {
      hide FATFS.Fat, FATFS.Store, FATFS.Valid;
      ghost var fat := Fat();
      ghost var done: nat, row: nat := 0, 0;
      var clust, sect: nat, f: Byte, p: nat := g.maxClust, g.fatbase, 0, 0;
      n := 0;
      while true
        invariant Valid() && SameDisk() && Fat() == fat && Store() == old(Store())
        invariant clust == g.maxClust - done && done < g.maxClust && done == 256 * row + f
        invariant sect == g.fatbase + row + if f == 0 then 0 else 1
        invariant f != 0 ==> winsect == g.fatbase + row && win[..] == View()[winsect] && p == 2 * f
        invariant n <= done && n + FreeFrom(fat, done) == FreeFrom(fat, 0)
        decreases clust
      {
        if f == 0 {
          ok := MoveWindow(sect);
          sect := sect + 1;
          if !ok { return; }
          p := 0;
        }
        DivMod256(done, row, f);
        WordInWindow(done, p);
        if LoadWord(win[..], p) == 0 {
          n := n + 1;
        }
        p := p + 2;
        f := (f + 1) % 256;
        done := done + 1;
        if f == 0 {
          row := row + 1;
        }
        clust := clust - 1;
        if clust == 0 {
          break;
        }
      }
      ok := true;
    }

    lemma WordInWindow(c: nat, p: nat)
      requires Valid() && g.kind.Fat16? && c < g.maxClust
      requires winsect == g.fatbase + c / 256 && p == 2 * (c % 256)
      requires winsect < |View()| && win[..] == View()[winsect]
      ensures LoadWord(win[..], p) == Fat()[c]
    {
      EntryInTable(g, c);
      Slot16(c);
      assert Fat()[c] == Entry(g, View(), c);
      assert c * 2 % 512 == p;
    }

    // ----- data sectors, past the window or through it

    /** disk_read of whole sectors straight into a caller's buffer, past the window. */
    method ReadSectors(buff: array<Byte>, at: nat, sect: nat, cc: nat) returns (ok: bool)
      requires Valid() && buff != win && 1 <= cc && at + 512 * cc <= buff.Length
      requires g.database <= sect && sect + cc <= |disk.sectors|
      modifies buff, disk`readFaults
      ensures Valid() && SameDisk() && Fat() == old(Fat()) && Store() == old(Store())
      ensures ok ==>
        forall i :: at <= i < at + 512 * cc ==> buff[i] == disk.sectors[sect + (i - at) / 512][(i - at) % 512]
      ensures forall i :: 0 <= i < buff.Length && !(at <= i < at + 512 * cc) ==> buff[i] == old(buff[i])
      ensures !ok ==> disk.Faults() > old(disk.Faults())
    {
      ok := disk.Read(buff, at, sect, cc);
    }

    /** disk_write of whole sectors straight from a caller's buffer. None of them may be
        in the window, which would go stale. */
    method WriteSectors(buff: array<Byte>, at: nat, sect: nat, cc: nat) returns (ok: bool)
      requires Valid() && buff != win && 1 <= cc && at + 512 * cc <= buff.Length
      requires g.database <= sect && sect + cc <= |disk.sectors|
      requires !(sect <= winsect < sect + cc)
      modifies disk`sectors, disk`writeFaults
      ensures Valid() && SameDisk() && Fat() == old(Fat())
      ensures ok ==> forall i :: 0 <= i < cc ==> Store()[sect + i] == buff[at + 512 * i..at + 512 * i + 512]
      ensures forall s :: 0 <= s < |Store()| && !(sect <= s < sect + cc) ==> Store()[s] == old(Store())[s]
      ensures !ok ==> disk.Faults() > old(disk.Faults())
    {
      hide FatOf, StoreOf, Mirrored, Times, PowerOfTwo;
      ok := disk.Write(buff, at, sect, cc);
      if disk.writeFaults == 0 {
        MirroredSame(g, old(disk.sectors), disk.sectors, if winflag then winsect else -1);
      }
      RunOutside(g, old(View()), View(), sect, cc);
    }

    /** Copies part of a sector out of the window after moving the window there. */
    method ReadPart(sect: nat, off: nat, buff: array<Byte>, at: nat, cnt: nat) returns (ok: bool)
      requires Valid() && buff != win && off + cnt <= 512 && at + cnt <= buff.Length
      requires g.database <= sect < |disk.sectors|
      modifies this`winsect, this`winflag, win, disk, buff
      ensures Valid() && SameDisk() && Fat() == old(Fat()) && Store() == old(Store())
      ensures ok ==> forall i :: at <= i < at + cnt ==> buff[i] == Store()[sect][off + (i - at)]
      ensures forall i :: 0 <= i < buff.Length && !(at <= i < at + cnt) ==> buff[i] == old(buff[i])
      ensures ok ==> winsect == sect
      ensures winsect == old(winsect) || winsect == sect
      ensures winflag ==> old(winflag) && winsect == old(winsect)
      ensures !ok ==> disk.Faults() > old(disk.Faults())
    {
      ok := MoveWindow(sect);
      if !ok { return; }
      ghost var v := View();
      forall i | at <= i < at + cnt {
        buff[i] := win[off + (i - at)];
      }
      assert View() == v && Store()[sect] == win[..];
    }

    /** Copies part of a sector into the window. A fresh sector, past the end of the
        file, is not read first: the dirty window is flushed and renumbered, and what
        it held before fills the rest of the sector. */
    method WritePart(isNew: bool, sect: nat, off: nat, buff: array<Byte>, at: nat, cnt: nat) returns (ok: bool)
      requires Valid() && buff != win && off + cnt <= 512 && at + cnt <= buff.Length
      requires g.database <= sect < |disk.sectors|
      modifies this`winsect, this`winflag, win, disk
      ensures Valid() && SameDisk() && Fat() == old(Fat())
      ensures ok ==> forall i :: off <= i < off + cnt ==> Store()[sect][i] == buff[at + (i - off)]
      ensures ok && !isNew ==>
        forall i :: 0 <= i < 512 && !(off <= i < off + cnt) ==> Store()[sect][i] == old(Store())[sect][i]
      ensures forall s :: 0 <= s < |Store()| && s != sect ==> Store()[s] == old(Store())[s]
      ensures ok ==> winsect == sect && winflag && (!old(winflag) ==> disk.sectors == old(disk.sectors))
      ensures !ok ==> disk.Faults() > old(disk.Faults())
    {
      hide FatOf, Mirrored, Times, SameOutsideMirrors;
      ghost var v;
      if isNew {
        ok := MoveWindow(0);
        if !ok { return; }
        v := View();
        winsect := sect;
      } else {
        ok := MoveWindow(sect);
        if !ok { return; }
        v := View();
      }
      forall i | off <= i < off + cnt {
        win[i] := buff[at + (i - off)];
      }
      winflag := true;
      MirroredLess(g, disk.sectors, sect);
      assert View() == v[sect := win[..]];
      WriteOutside(g, v, sect, win[..]);
    }

    /** Replaces the contents of the sector in the window and marks it dirty. */
    method Edit(sect: nat, edited: Sector)
      requires Valid() && winsect == sect && g.dirbase <= sect < |disk.sectors|
      modifies this`winflag, win
      ensures Valid() && Fat() == old(Fat()) && Store() == old(Store())[sect := edited]
      ensures winflag && win[..] == edited && SameDisk()
    {
      hide FatOf, Mirrored, Times;
      ghost var v := View();
      forall i | 0 <= i < 512 {
        win[i] := edited[i];
      }
      assert win[..] == edited;
      winflag := true;
      MirroredLess(g, disk.sectors, sect);
      assert View() == v[sect := edited];
      WriteOutside(g, v, sect, edited);
    }

    /** Edits the window, writes it back and flushes the disk (tff.c, lines 1104-1114). */
    method EditAndSync(sect: nat, edited: Sector) returns (ok: bool)
      requires Valid() && winsect == sect && g.dirbase <= sect < |disk.sectors|
      modifies this`winsect, this`winflag, win, disk
      ensures Valid() && SameDisk() && Fat() == old(Fat()) && Store() == old(Store())[sect := edited]
      ensures winsect == sect
      ensures ok ==> !winflag && disk.sectors == View()
      ensures !ok ==> disk.Faults() > old(disk.Faults())
    {
      hide FATFS.Fat, FATFS.Store, FATFS.Valid, Times;
      Edit(sect, edited);
      ok := MoveWindow(0);
      if ok {
        ok := FlushDisk();
      }
    }

    method FlushDisk() returns (ok: bool)
      requires Valid()
      modifies disk`writeFaults
      ensures Valid() && Quiet() && disk.sectors == old(disk.sectors)
      ensures !ok ==> disk.Faults() > old(disk.Faults())
    {
      ok := disk.Flush();
    }
  }

  /** free_clust after n increments; the unknown count stays unknown. */
  function Raised(f: Word, n: nat): Word
    decreases n
  {
    if n == 0 then f else if f == UNKNOWN then f else Raised((f + 1) % 0x1_0000, n - 1)
  }

  function Lowered(f: Word): Word {
    if f == UNKNOWN then f else (f - 1) % 0x1_0000
  }

  lemma RemoveEnds(f: Word, fat: seq<nat>, c: nat)
    ensures !IsCluster(fat, c) ==> Removed(fat, c) == (fat, true) && Raised(f, Steps(fat, c)) == f
    ensures IsCluster(fat, c) && fat[c] == 1 ==> !Removed(fat, c).1
  {
  }

  lemma RaisedOnce(f: Word, n: nat)
    ensures Raised(f, n + 1) == Raised(if f == UNKNOWN then f else (f + 1) % 0x1_0000, n)
  {
  }

  /** The mark 0x0FFFFFFF cut to an entry is past the last cluster; a cluster number
      is not cut. */
  lemma EntryCut(g: Geometry, c: nat)
    requires g.Valid() && g.IsCluster(c)
    ensures 0xFFFF % g.EntrySize() == g.EndMark() >= g.maxClust
    ensures c % g.EntrySize() == c
  {
  }

  lemma {:induction false} RaisedSum(f: Word, n: nat)
    requires f + n < UNKNOWN
    ensures Raised(f, n) == f + n
    decreases n
  {
    if n > 0 {
      RaisedSum(f + 1, n - 1);
    }
  }

  /** Why create_chain refuses: the cluster to stretch is none, is free or is marked 1,
      or an entry marked 1 is met during the search. */
  ghost predicate Refused(fat: seq<nat>, clust: nat) {
    (clust != 0 && (!IsCluster(fat, clust) || fat[clust] < 2)) || exists c :: IsCluster(fat, c) && fat[c] == 1
  }

  /** On a well-formed table, create_chain does not refuse a cluster in use. */
  lemma NeverRefused(fat: seq<nat>, clust: nat)
    requires WellFormed(fat) && (clust != 0 ==> IsCluster(fat, clust) && fat[clust] >= 2)
    ensures !Refused(fat, clust)
  {
    forall c | IsCluster(fat, c)
      ensures fat[c] != 1
    {
      NoOnes(fat, c);
    }
  }

  /** What create_chain does to the table when it returns cluster r: nothing if r was
      already next in the chain; otherwise r is the next-fit free cluster, now marked
      as an end, and linked from clust if there is one. */
  ghost predicate Grown(fat: seq<nat>, fat': seq<nat>, clust: nat, last: nat, r: nat, mark: nat) {
    if clust != 0 && IsCluster(fat, clust) && IsCluster(fat, fat[clust]) then
      fat' == fat && r == fat[clust]
    else
      && mark >= |fat| && NextFit(fat, SearchStart(|fat|, clust, last), r)
      && if clust == 0 then fat' == Started(fat, r, mark)
         else IsCluster(fat, clust) && fat[clust] >= |fat| && fat' == Stretched(fat, clust, r, mark)
  }

  /** Where a 16-bit entry is: the byte index is computed in 16 bits, which does no harm. */
  lemma Slot16(c: nat)
    ensures c * 2 / 512 == c / 256 == (c * 2 + 1) / 512
    ensures c * 2 % 0x1_0000 % 512 == c * 2 % 512 <= 510
    ensures (c * 2 + 1) % 512 == c * 2 % 512 + 1
  {
    var q, r := c / 256, c % 256;
    assert c * 2 == 512 * q + 2 * r;
    var q', r' := c * 2 / 0x1_0000, c * 2 % 0x1_0000;
    assert c * 2 == 512 * (128 * q') + r';
  }

  /** Other sectors for some of the data area. */
  lemma RunOutside(g: Geometry, v: seq<Sector>, w: seq<Sector>, sect: nat, cc: nat)
    requires Fits(g, v) && |w| == |v| && g.database <= sect && sect + cc <= |v|
    requires forall s :: 0 <= s < |v| && !(sect <= s < sect + cc) ==> w[s] == v[s]
    ensures Fits(g, w) && FatOf(g, w) == FatOf(g, v)
    ensures forall s :: 0 <= s < |v| ==> StoreOf(g, w)[s] == if sect <= s < sect + cc then w[s] else StoreOf(g, v)[s]
  {
    hide Times, PowerOfTwo;
    SameTable(g, v, w);
  }

  // ----- transfers past the window

  lemma DirtyInStore(fs: FATFS)
    requires fs.Valid() && fs.winflag && fs.g.dirbase <= fs.winsect
    ensures fs.winsect < |fs.Store()| && fs.Store()[fs.winsect] == fs.win[..]
  {
  }

  /** Outside the table the volume is what is on the disk, save for a dirty window. */
  lemma StoreOnDisk(fs: FATFS, s: nat)
    requires fs.Valid() && fs.g.database <= s < |fs.disk.sectors| && !(fs.winflag && fs.winsect == s)
    ensures s < |fs.Store()| == |fs.disk.sectors| && fs.Store()[s] == fs.disk.sectors[s]
  {
  }

  /** Sectors read straight from the disk are those of the volume if and only if the window
      is not dirty with other bytes for one of them. */
  lemma DirectReadRight(fs: FATFS, s: nat, n: nat)
    requires fs.Valid() && s + n <= |fs.disk.sectors|
    ensures (forall i :: s <= i < s + n ==> fs.disk.sectors[i] == fs.View()[i])
      <==> (fs.winflag && s <= fs.winsect < s + n ==> fs.win[..] == fs.disk.sectors[fs.winsect])
  {
    if fs.winflag && s <= fs.winsect < s + n {
      assert fs.View()[fs.winsect] == fs.win[..];
    }
  }

  // ----- the copies of the table

  /** After a write-back, unless a write has failed, every copy of the table says the same:
      byte i of copy k is byte i of the table the volume stands for. */
  lemma AnyCopy(fs: FATFS, k: nat, i: nat)
    requires fs.Valid() && !fs.winflag && fs.disk.writeFaults == 0
    requires k < fs.g.nFats && i < 512 * fs.g.sectsFat
    ensures var s := fs.g.MirrorOf(fs.g.fatbase + i / 512, k);
      s < |fs.disk.sectors| && fs.disk.sectors[s][i % 512] == FatByte(fs.g, fs.View(), i)
  {
    if k > 0 {
      assert Copied(fs.g, fs.disk.sectors, fs.g.fatbase + i / 512, k);
    }
  }

  lemma MirroredOutside(g: Geometry, before: seq<Sector>, after: seq<Sector>, w: nat)
    requires g.Valid() && |before| == |after| && w < |before| && !g.InFat(w)
    requires forall i :: 0 <= i < |before| && i != w ==> after[i] == before[i]
    requires Mirrored(g, before, w)
    ensures Mirrored(g, after, -1)
  {
    forall s, k | g.fatbase <= s < g.fatbase + g.sectsFat && 1 <= k < g.nFats
      ensures Copied(g, after, s, k)
    {
      assert Copied(g, before, s, k);
      MirrorInRange(g, s, k);
    }
  }

  lemma MirroredWrite(g: Geometry, before: seq<Sector>, after: seq<Sector>, w: nat)
    requires g.Valid() && |before| == |after| && g.fatbase <= w < g.fatbase + g.sectsFat
    requires forall i :: 0 <= i < |before| && i != w ==> after[i] == before[i]
    requires Mirrored(g, before, w)
    ensures Mirrored(g, after, w)
  {
    forall s, k | g.fatbase <= s < g.fatbase + g.sectsFat && s != w && 1 <= k < g.nFats
      ensures Copied(g, after, s, k)
    {
      assert Copied(g, before, s, k);
      MirrorInRange(g, s, k);
    }
  }

  lemma MirroredSame(g: Geometry, before: seq<Sector>, after: seq<Sector>, dirty: int)
    requires g.Valid() && |before| == |after|
    requires forall s :: 0 <= s < |before| && g.InFat(s) ==> after[s] == before[s]
    requires Mirrored(g, before, dirty)
    ensures Mirrored(g, after, dirty)
  {
    forall s, k | g.fatbase <= s < g.fatbase + g.sectsFat && s != dirty && 1 <= k < g.nFats
      ensures Copied(g, after, s, k)
    {
      assert Copied(g, before, s, k);
      MirrorInRange(g, s, k);
    }
  }

  lemma MirroredLess(g: Geometry, sectors: seq<Sector>, dirty: int)
    ensures Mirrored(g, sectors, -1) ==> Mirrored(g, sectors, dirty)
  {
  }

  lemma MirrorStep(g: Geometry, before: seq<Sector>, after: seq<Sector>, w: nat, k: nat)
    requires g.Valid() && |before| == |after|
    requires g.fatbase <= w < g.fatbase + g.sectsFat && 1 <= k < g.nFats
    requires Mirrored(g, before, w)
    requires forall i :: 0 <= i < |before| && i != g.MirrorOf(w, k) ==> after[i] == before[i]
    requires forall j :: 1 <= j < k ==> Copied(g, before, w, j)
    ensures Mirrored(g, after, w)
    ensures forall j :: 1 <= j < k ==> Copied(g, after, w, j)
  {
    MirrorInRange(g, w, k);
    forall s, j | g.fatbase <= s < g.fatbase + g.sectsFat && 1 <= j < g.nFats && (s != w || j < k)
      ensures Copied(g, after, s, j)
    {
      assert Copied(g, before, s, j);
      if g.MirrorOf(s, j) == g.MirrorOf(w, k) {
        MirrorInjective(g, s, j, w, k);
      }
    }
  }
}
