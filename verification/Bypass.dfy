/** Whole sectors are read and written past the window (tff.c, lines 944-956 and 1049-1056),
    which keeps what it held. */
module Bypass {
  import opened Arith
  import opened Bytes
  import opened FileSystem

  /** The window stands in the way of a write to sector s: it holds that sector, and is
      either asked for it next or dirty. */
  predicate Stale(winsect: nat, winflag: bool, s: nat, detour: nat) {
    winsect == s && (winflag || detour == 0)
  }

  /** The bytes for sector s in a buffer whose part from at on goes to the sectors from
      sect on. */
  function BlockFor(buff: seq<Byte>, at: nat, sect: nat, s: nat): seq<Byte>
    requires sect <= s && at + 512 * (s - sect) + 512 <= |buff|
  {
    buff[at + 512 * (s - sect)..at + 512 * (s - sect) + 512]
  }

  /** Sectors are written past the window, the window is moved to another sector or not
      (detour 0), and then to one of those written. What is found there are the bytes
      written, if and only if the window did not stand in the way or held these very
      bytes. */
  method WritePast(fs: FATFS, buff: array<Byte>, at: nat, sect: nat, n: nat, detour: nat, s: nat) returns (ok: bool)
    requires fs.Valid() && buff != fs.win && 1 <= n && at + 512 * n <= buff.Length
    requires fs.g.dirbase <= sect <= s < sect + n && detour != s
    modifies fs`winsect, fs`winflag, fs.win, fs.disk
    ensures fs.Framed() && fs.SameDisk() && buff[..] == old(buff[..])
    ensures !ok && sect + n <= |fs.disk.sectors| && detour < |fs.disk.sectors| ==>
      fs.disk.Faults() > old(fs.disk.Faults())
    ensures ok ==> fs.winsect == s < |fs.disk.sectors|
    ensures ok ==>
      fs.disk.sectors[s] == if old(fs.winsect) == s && old(fs.winflag) && detour != 0 then old(fs.win[..])
                            else BlockFor(buff[..], at, sect, s)
    ensures ok ==>
      (fs.win[..] == BlockFor(buff[..], at, sect, s)
       <==> !Stale(old(fs.winsect), old(fs.winflag), s, detour) || old(fs.win[..]) == BlockFor(buff[..], at, sect, s))
  {
    ghost var sectors := fs.disk.sectors;
    ok := fs.disk.Write(buff, at, sect, n);
    if fs.disk.writeFaults == 0 {
      MirroredSame(fs.g, sectors, fs.disk.sectors, if fs.winflag then fs.winsect else -1);
    }
    if !ok { return; }
    assert fs.disk.sectors[sect + (s - sect)] == BlockFor(buff[..], at, sect, s);
    ghost var found := fs.Overlay()[s];
    assert !fs.g.IsMirror(s);
    if detour != 0 {
      ok := fs.Move(detour);
      if !ok { return; }
    }
    assert fs.Overlay()[s] == found;
    ok := fs.Move(s);
    assert fs.Overlay()[s] == found;
  }

  /** Sectors are read past the window. For each of them, what is read is what the volume
      holds if and only if the sector is not dirty in the window with other bytes. */
  method ReadPast(fs: FATFS, buff: array<Byte>, at: nat, sect: nat, n: nat, s: nat) returns (ok: bool)
    requires fs.Valid() && buff != fs.win && 1 <= n && at + 512 * n <= buff.Length
    requires fs.g.database <= sect <= s < sect + n
    modifies buff, fs.disk`readFaults
    ensures fs.Valid() && fs.Store() == old(fs.Store())
    ensures !ok ==> sect + n > |fs.disk.sectors| || fs.disk.Faults() > old(fs.disk.Faults())
    ensures ok ==> s < |fs.Store()| == |fs.disk.sectors|
    ensures ok ==>
      (BlockFor(buff[..], at, sect, s) == fs.Store()[s]
       <==> !(fs.winflag && fs.winsect == s) || fs.win[..] == fs.disk.sectors[s])
  {
    ok := fs.disk.Read(buff, at, sect, n);
    if ok {
      SectorRead(buff[..], at, sect, n, s, fs.disk.sectors);
      DirectReadRight(fs, s, 1);
      StoreInData(fs, s);
    }
  }

  lemma SectorRead(buf: seq<Byte>, at: nat, sect: nat, n: nat, s: nat, sectors: seq<Sector>)
    requires sect <= s < sect + n <= |sectors| && at + 512 * n <= |buf|
    requires forall i :: at <= i < at + 512 * n ==> buf[i] == sectors[sect + (i - at) / 512][(i - at) % 512]
    ensures BlockFor(buf, at, sect, s) == sectors[s]
  {
    forall x | 0 <= x < 512
      ensures BlockFor(buf, at, sect, s)[x] == sectors[s][x]
    {
      DivMod512(512 * (s - sect) + x, s - sect, x);
    }
  }

  lemma StoreInData(fs: FATFS, s: nat)
    requires fs.Valid() && fs.g.database <= s < |fs.disk.sectors|
    ensures s < |fs.Store()| && fs.Store()[s] == fs.View()[s]
  {
  }
}
