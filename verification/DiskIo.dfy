/** The block device behind disk_read and disk_write (diskio.h; mmc.c, lines 460-530).
    Any call may fail. What the card does is replaced by an array of sectors. */
module DiskIo {
  import opened Bytes

  class Disk {
    var sectors: seq<Sector>
    /** STA_NOINIT of disk_status. */
    var noInit: bool
    /** How many reads and writes have failed so far. */
    ghost var readFaults: nat
    ghost var writeFaults: nat

    ghost function Faults(): nat
      reads this
    {
      readFaults + writeFaults
    }

    constructor (sectors: seq<Sector>)
      ensures this.sectors == sectors && !noInit && Faults() == 0
    {
      this.sectors := sectors;
      noInit := false;
      readFaults, writeFaults := 0, 0;
    }

    /** disk_read. A failed single-block read stores nothing (mmc.c, line 209);
        a failed multi-block read stores a prefix of the blocks. */
    method Read(buff: array<Byte>, at: nat, sector: nat, count: nat) returns (ok: bool)
      requires 1 <= count && at + 512 * count <= buff.Length
      modifies buff, this`readFaults
      ensures ok ==> sector + count <= |sectors| && readFaults == old(readFaults)
      ensures ok ==>
        forall i :: at <= i < at + 512 * count ==> buff[i] == sectors[sector + (i - at) / 512][(i - at) % 512]
      ensures ok && count == 1 ==> buff[at..at + 512] == sectors[sector]
      ensures !ok ==> readFaults == old(readFaults) + 1
      ensures !ok && count == 1 ==> buff[..] == old(buff[..])
      ensures forall i :: 0 <= i < buff.Length && !(at <= i < at + 512 * count) ==> buff[i] == old(buff[i])
    {
      ok := *;
      ok := ok && sector + count <= |sectors|;
      var n := count;
      if !ok {
        n := *;
        n := if n < count && sector + n <= |sectors| then n else 0;
        readFaults := readFaults + 1;
      }
      forall i | at <= i < at + 512 * n {
        buff[i] := sectors[sector + (i - at) / 512][(i - at) % 512];
      }
    }

    /** disk_write. After a failure nothing is known about the sectors addressed. */
    method Write(buff: array<Byte>, at: nat, sector: nat, count: nat) returns (ok: bool)
      requires 1 <= count && at + 512 * count <= buff.Length
      modifies this`sectors, this`writeFaults
      ensures |sectors| == |old(sectors)|
      ensures ok ==> sector + count <= |sectors| && writeFaults == old(writeFaults)
      ensures ok ==> forall i :: 0 <= i < count ==> sectors[sector + i] == buff[at + 512 * i..at + 512 * i + 512]
      ensures ok && count == 1 ==> sectors == old(sectors)[sector := buff[at..at + 512]]
      ensures !ok ==> writeFaults == old(writeFaults) + 1
      ensures forall s :: 0 <= s < |sectors| && !(sector <= s < sector + count) ==> sectors[s] == old(sectors[s])
    {
      ok := *;
      ok := ok && sector + count <= |sectors|;
      var torn: seq<Sector> := *;
      if !ok {
        writeFaults := writeFaults + 1;
      }
      var image: seq<Byte>, was: seq<Sector> := buff[..], sectors;
      sectors := seq(|was|, s requires 0 <= s < |was| => Arrived(was, image, at, sector, count, ok, torn, s));
    }

    /** disk_ioctl(CTRL_SYNC) */
    method Flush() returns (ok: bool)
      modifies this`writeFaults
      ensures ok ==> writeFaults == old(writeFaults)
      ensures !ok ==> writeFaults == old(writeFaults) + 1
    {
      ok := *;
      if !ok {
        writeFaults := writeFaults + 1;
      }
    }
  }

  /** What a write leaves in sector s. */
  function Arrived(was: seq<Sector>, image: seq<Byte>, at: nat, sector: nat, count: nat, ok: bool, torn: seq<Sector>,
          s: nat): (r: Sector)
    requires s < |was| && at + 512 * count <= |image|
  {
    if !(sector <= s < sector + count) then was[s]
    else if ok then image[at + 512 * (s - sector)..at + 512 * (s - sector) + 512]
    else if s < |torn| then torn[s]
    else was[s]
  }
}
