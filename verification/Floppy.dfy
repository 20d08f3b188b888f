/** A floppy disk kept in an image file (fddimage.c): track, side and sector become a
    byte offset; blocks of 1024 bytes are read and overwritten in place. */
module Floppy {
  import opened Arith
  import opened Bytes
  import opened Layout
  import opened Chains
  import opened FileData
  import opened FileSystem
  import opened Transfer
  import opened FileObject

  const FDD_SECTOR_SIZE := 1024
  const FDD_NSIDES := 2
  const FDD_NSECTORS := 5
  const TRACK_SIZE := FDD_NSIDES * FDD_NSECTORS * FDD_SECTOR_SIZE

  datatype FddError = FDD_OK | FDD_SEEK_ERROR

  datatype Address = Address(track: Byte, side: Byte, sector: Byte) {
    /** What the controller can ask for. */
    predicate Valid() { side < FDD_NSIDES && 1 <= sector <= FDD_NSECTORS }

    /** calc_offset, with its 32-bit wrap-around. */
    function Offset(): nat {
      var o1 := (FDD_NSIDES * track + (1 - side)) % 0x1_0000_0000;
      var o2 := (o1 * FDD_NSECTORS + sector - 1) % 0x1_0000_0000;
      o2 * FDD_SECTOR_SIZE % 0x1_0000_0000
    }

    /** The block lies in an image of the given size. */
    predicate InImage(size: nat) { Valid() && Offset() + FDD_SECTOR_SIZE <= size }
  }

  lemma NoWrap(n: nat)
    requires n < 0x1_0000_0000
    ensures n % 0x1_0000_0000 == n
  {
  }

  /** Within the controller's range nothing wraps around. */
  lemma OffsetValue(a: Address)
    requires a.Valid()
    ensures a.Offset() == 1024 * ((a.track * 2 + 1 - a.side) * 5 + a.sector - 1)
  {
    var o1 := FDD_NSIDES * a.track + (1 - a.side);
    var o2 := o1 * FDD_NSECTORS + a.sector - 1;
    NoWrap(o1);
    NoWrap(o2);
    NoWrap(o2 * FDD_SECTOR_SIZE);
  }

  /** Blocks are numbered by track, then side 1 before side 0, then sector; different
      addresses have disjoint blocks. */
  lemma BlocksApart(a: Address, b: Address)
    requires a.Valid() && b.Valid()
    ensures a == b || a.Offset() + FDD_SECTOR_SIZE <= b.Offset() || b.Offset() + FDD_SECTOR_SIZE <= a.Offset()
  {
    hide Address.Offset;
    OffsetValue(a);
    OffsetValue(b);
  }

  /** The floppy as its user sees it: a map from addresses to blocks. */
  ghost function Image(data: seq<Byte>): imap<Address, seq<Byte>> {
    imap a: Address | a.InImage(|data|) :: data[a.Offset()..a.Offset() + FDD_SECTOR_SIZE]
  }

  /** The block at offset o, as far as the file goes. */
  function Block(data: seq<Byte>, o: nat): (b: seq<Byte>)
    ensures |b| <= FDD_SECTOR_SIZE
  {
    data[Min(o, |data|)..Min(o + FDD_SECTOR_SIZE, |data|)]
  }

  /** What a buffer holds after a shorter block has been copied to its start. */
  function OnTop(block: seq<Byte>, buf: seq<Byte>): seq<Byte>
    requires |block| <= |buf|
  {
    block + buf[|block|..]
  }

  lemma BlockInImage(data: seq<Byte>, a: Address, buf: seq<Byte>)
    requires a.InImage(|data|) && |buf| >= FDD_SECTOR_SIZE
    ensures OnTop(Block(data, a.Offset()), buf)[..FDD_SECTOR_SIZE] == Image(data)[a]
  {
  }

  /** Overwriting one block of the file updates the map at one address. */
  lemma ImageUpdate(data: seq<Byte>, a: Address, block: seq<Byte>)
    requires a.InImage(|data|) && |block| == FDD_SECTOR_SIZE
    ensures Image(Replaced(data, a.Offset(), FDD_SECTOR_SIZE, block)) == Image(data)[a := block]
  {
    var data' := Replaced(data, a.Offset(), FDD_SECTOR_SIZE, block);
    forall b: Address | b.InImage(|data|)
      ensures data'[b.Offset()..b.Offset() + FDD_SECTOR_SIZE] ==
              if b == a then block else data[b.Offset()..b.Offset() + FDD_SECTOR_SIZE]
    {
      BlocksApart(a, b);
    }
  }

  /** The file after f_write_inplace of a block at offset o, or of what fits there. */
  ghost function Put(data: seq<Byte>, o: nat, buf: seq<Byte>): seq<Byte>
    requires |buf| >= FDD_SECTOR_SIZE
  {
    var p := Min(o, |data|);
    InPlace(data, p, Min(FDD_SECTOR_SIZE, |data| - p), buf)
  }

  /** The track count of fdd_load multiplies by the sectors of a track where it should
      divide by them. It is the number of tracks, modulo 256 as it is, only for multiples
      of 32 tracks below 256, and less than a fifth of a track more. */
  lemma TrackCount(size: nat)
    ensures size / 1024 / 2 * FDD_NSECTORS % 256 == size / TRACK_SIZE
       <==> size / 2048 % 160 == 0 && size < 256 * TRACK_SIZE
  {
    var q := size / 2048;
    Halves(size, q);
    Fifths(size, q);
    TracksOf(q, q / 5, q % 5, 5 * q / 256);
    assert size < 256 * TRACK_SIZE <==> q < 1280;
  }

  lemma Halves(size: nat, q: nat)
    requires q == size / 2048
    ensures size / 1024 / 2 == q
  {
    var a := size / 1024;
    assert 1024 * (a - 2 * q) == size - 2048 * q - (size - 1024 * a);
    assert 0 <= a - 2 * q < 2;
  }

  lemma Fifths(size: nat, q: nat)
    requires q == size / 2048
    ensures size / TRACK_SIZE == q / 5
  {
    var t := q / 5;
    assert 10240 * t <= size < 10240 * (t + 1);
  }

  lemma TracksOf(q: nat, t: nat, r: nat, m: nat)
    requires q == 5 * t + r && r < 5 && m == 5 * q / 256
    ensures 5 * q % 256 == t <==> q % 160 == 0 && q < 1280
  {
    if 5 * q % 256 == t {
      assert 5 * r == 8 * (32 * m - 3 * t);
      assert r == 0;
      TimesOf160(q, 11 * m - t);
    } else if q % 160 == 0 && q < 1280 {
      TracksBack(q, q / 160);
      assert false;
    }
  }

  lemma TimesOf160(q: nat, k: int)
    requires q == 160 * k
    ensures q % 160 == 0
  {
  }

  lemma TracksBack(q: nat, j: nat)
    requires q == 160 * j && j < 8
    ensures 5 * q % 256 == q / 5 == 32 * j
  {
    DivMod256(5 * q, 3 * j, 32 * j);
  }

  /** One track counts as 25. */
  lemma OneTrack()
    ensures 10240 / TRACK_SIZE == 1 && 10240 / 1024 / 2 * FDD_NSECTORS % 256 == 25
  {
  }

  class FDDImage {
    const file: FIL
    const buffer: array<Byte>
    var ntracks: Byte
    var curSide: Byte
    var curTrack: Byte
    var curSector: Byte
    /** fdderror, set by the last seek */
    var fdderror: FddError

    /** fdd_load */
    constructor (file: FIL, buffer: array<Byte>)
      ensures this.file == file && this.buffer == buffer && fdderror == FDD_OK
      ensures ntracks == file.fsize / TRACK_SIZE <==> file.fsize / 2048 % 160 == 0 && file.fsize < 256 * TRACK_SIZE
    {
      TrackCount(file.fsize);
      this.file := file;
      this.buffer := buffer;
      ntracks := (file.fsize / 1024 / 2 * FDD_NSECTORS) % 256;
      curSide, curTrack, curSector, fdderror := 0, 0, 0, FDD_OK;
    }

    /** The image is open for reading. */
    ghost predicate Open()
      reads this, file, file.fs, file.fs.disk, file.fs.win
    {
      && file.Valid() && file.Cursor() && file.Refusal(file.canRead) == FR_OK && !file.canWrite
      && buffer.Length >= FDD_SECTOR_SIZE && buffer != file.fs.win
    }

    /** And none of its sectors is in the window. */
    ghost predicate Valid()
      reads this, file, file.fs, file.fs.disk, file.fs.win
    {
      Open() && AheadOf(file.fs.g, file.chain, 0, file.fs.winsect)
    }

    /** fdd_seek: records the address; the range check only sets an error code. */
    method Seek(side: Byte, track: Byte, sector: Byte)
      modifies this`curSide, this`curTrack, this`curSector, this`fdderror
      ensures curSide == side && curTrack == track && curSector == sector
      ensures fdderror == FDD_SEEK_ERROR <==> side > FDD_NSIDES || track > ntracks || sector > FDD_NSECTORS
    {
      fdderror := if side > FDD_NSIDES || track > ntracks || sector > FDD_NSECTORS then FDD_SEEK_ERROR else FDD_OK;
      curSide, curTrack, curSector := side, track, sector;
    }

    function Current(): Address
      reads this
    {
      Address(curTrack, curSide, curSector)
    }

    /** fdd_readsector. An address past the end of the image delivers nothing, one at
        the end what there is. */
    method ReadSector() returns (r: FResult)
      requires Valid()
      modifies file`sectClust, file`currClust, file`currSect, file`orgClust, file`chain, file`fptr, file`fsize
      modifies file`written, file`error
      modifies file.fs`winsect, file.fs`winflag, file.fs`lastClust, file.fs`freeClust, file.fs.win, file.fs.disk, buffer
      ensures file.fs.Valid() && file.fs.SameDisk() && file.fs.Store() == old(file.fs.Store())
      ensures r == FR_OK ==> Open() && file.fs.Fat() == old(file.fs.Fat()) && file.chain == old(file.chain)
      ensures r == FR_OK ==> file.Data() == old(file.Data())
      ensures r == FR_OK && (Current().InImage(file.fsize) || file.fsize % 512 == 0) ==> Valid()
      ensures r == FR_OK ==> buffer[..] == OnTop(Block(old(file.Data()), Current().Offset()), old(buffer[..]))
      ensures r != FR_OK ==> r == FR_RW_ERROR && file.fs.disk.Faults() > old(file.fs.disk.Faults())
    {
      hide FATFS.Fat, FATFS.Store, FATFS.Valid, FIL.Valid, FIL.Cursor, FIL.Refusal, AheadOf, Address.Offset;
      var offset := Current().Offset();
      OffsetAligned(Current());
      r := GoTo(offset);
      if r != FR_OK { return; }
      r := ReadHere(offset);
    }

    /** fdd_writesector. In the image, the block at the address is replaced. At its end
        there is less to write, or nothing; what of it is replaced InPlace says. Nothing
        else on the volume changes. */
    method WriteSector() returns (r: FResult)
      requires Valid()
      modifies file`sectClust, file`currClust, file`currSect, file`orgClust, file`chain, file`fptr, file`fsize
      modifies file`written, file`error
      modifies file.fs`winsect, file.fs`winflag, file.fs`lastClust, file.fs`freeClust, file.fs.win, file.fs.disk, buffer
      ensures file.fs.Valid() && file.fs.SameDisk()
      ensures r == FR_OK ==>
        Open() && file.fs.Fat() == old(file.fs.Fat()) && file.chain == old(file.chain) && file.fsize == old(file.fsize)
      ensures r == FR_OK ==> SameOutside(file.fs.g, file.chain, old(file.fs.Store()), file.fs.Store())
      ensures r == FR_OK ==> file.Data() == Put(old(file.Data()), Current().Offset(), old(buffer[..]))
      ensures r == FR_OK && (Current().InImage(file.fsize) || file.fsize % 512 == 0) ==>
        Valid() && buffer[..] == old(buffer[..])
      ensures r == FR_OK && Current().InImage(file.fsize) ==>
        Image(file.Data()) == Image(old(file.Data()))[Current() := old(buffer[..FDD_SECTOR_SIZE])]
      ensures r != FR_OK ==> r == FR_RW_ERROR && file.fs.disk.Faults() > old(file.fs.disk.Faults())
    {
      hide FATFS.Fat, FATFS.Store, FATFS.Valid, FIL.Valid, FIL.Cursor, FIL.Refusal, AheadOf, Address.Offset, Image;
      hide Replaced, SameOutside, InPlace, Put;
      var offset := Current().Offset();
      OffsetAligned(Current());
      ghost var data, buf := file.Data(), buffer[..];
      r := GoTo(offset);
      if r != FR_OK { return; }
      r := WriteHere(offset);
      if Current().InImage(|data|) {
        PutWhole(data, offset, buf);
        ImageUpdate(data, Current(), buf[..FDD_SECTOR_SIZE]);
      }
    }

    method ReadHere(offset: nat) returns (r: FResult)
      requires Valid() && file.fptr == Min(offset, file.fsize) && offset % 1024 == 0
      modifies file`sectClust, file`currClust, file`currSect, file`fptr, file`error
      modifies file.fs`winsect, file.fs`winflag, file.fs.win, file.fs.disk, buffer
      ensures file.fs.Valid() && file.fs.SameDisk() && file.fs.Store() == old(file.fs.Store())
      ensures r == FR_OK ==> Open() && file.fs.Fat() == old(file.fs.Fat()) && file.Data() == old(file.Data())
      ensures r == FR_OK && (offset + FDD_SECTOR_SIZE <= file.fsize || file.fsize % 512 == 0) ==> Valid()
      ensures r == FR_OK ==> buffer[..] == OnTop(Block(old(file.Data()), offset), old(buffer[..]))
      ensures r != FR_OK ==> r == FR_RW_ERROR && file.fs.disk.Faults() > old(file.fs.disk.Faults())
    {
      hide FATFS.Fat, FATFS.Store, FATFS.Valid, IsFile, AheadOf, Content, FIL.Cursor, OnTop, Block, WindowAfter;
      AlignedRequest(offset, file.fsize);
      ClearOfAll(file.fs.g, file.chain, file.fptr, Min(FDD_SECTOR_SIZE, file.fsize - file.fptr), file.fs.winsect);
      file.Fresh(Min(FDD_SECTOR_SIZE, file.fsize - file.fptr));
      ghost var data, buf := file.Data(), buffer[..];
      ghost var p, first, was, flag := file.fptr, file.currSect, file.fs.winsect, file.fs.winflag;
      var bytesread;
      r, bytesread := file.Read(buffer, FDD_SECTOR_SIZE);
      if r != FR_OK { return; }
      Delivered(data, offset, buf, bytesread);
      AlignedStays(p, bytesread, was, first, file.currSect, file.fs.winsect, file.fs.winflag && !flag,
        file.fs.g.database);
      StillAhead();
    }

    method WriteHere(offset: nat) returns (r: FResult)
      requires Valid() && file.fptr == Min(offset, file.fsize) && offset % 1024 == 0
      modifies file`sectClust, file`currClust, file`currSect, file`fptr, file`error
      modifies file.fs`winsect, file.fs`winflag, file.fs.win, file.fs.disk, buffer
      ensures file.fs.Valid() && file.fs.SameDisk()
      ensures r == FR_OK ==> Open() && file.fs.Fat() == old(file.fs.Fat())
      ensures r == FR_OK ==> SameOutside(file.fs.g, file.chain, old(file.fs.Store()), file.fs.Store())
      ensures r == FR_OK ==> file.Data() == Put(old(file.Data()), offset, old(buffer[..]))
      ensures r == FR_OK && (offset + FDD_SECTOR_SIZE <= file.fsize || file.fsize % 512 == 0) ==>
        Valid() && buffer[..] == old(buffer[..])
      ensures r != FR_OK ==> r == FR_RW_ERROR && file.fs.disk.Faults() > old(file.fs.disk.Faults())
    {
      hide FATFS.Fat, FATFS.Store, FATFS.Valid, IsFile, AheadOf, Content, FIL.Cursor, Replaced, InPlace, SameOutside;
      hide WindowAfter;
      AlignedRequest(offset, file.fsize);
      ClearOfAll(file.fs.g, file.chain, file.fptr, Min(FDD_SECTOR_SIZE, file.fsize - file.fptr), file.fs.winsect);
      ghost var p, first, was, flag := file.fptr, file.currSect, file.fs.winsect, file.fs.winflag;
      var byteswritten;
      r, byteswritten := file.WriteInPlace(buffer, FDD_SECTOR_SIZE);
      if r == FR_OK {
        AlignedStays(p, byteswritten, was, first, file.currSect, file.fs.winsect, file.fs.winflag && !flag,
          file.fs.g.database);
      }
      StillAhead();
    }

    lemma StillAhead()
      requires file.Valid()
      ensures file.fs.winsect < file.fs.g.database ==> AheadOf(file.fs.g, file.chain, 0, file.fs.winsect)
    {
      FirstCluster(file.fs.g, file.fs.Fat(), file.orgClust, file.chain, file.fsize);
      if file.fs.winsect < file.fs.g.database {
        AheadOfData(file.fs.g, file.chain, 0, file.fs.winsect);
      }
    }

    /** f_lseek, which leaves the window clear of the image. */
    method GoTo(offset: nat) returns (r: FResult)
      requires Valid() && offset < 0x1_0000_0000
      modifies file`sectClust, file`currClust, file`currSect, file`orgClust, file`chain, file`fptr, file`fsize
      modifies file`written, file`error
      modifies file.fs`winsect, file.fs`winflag, file.fs`lastClust, file.fs`freeClust, file.fs.win, file.fs.disk
      ensures file.fs.Valid() && file.fs.SameDisk() && file.fs.Store() == old(file.fs.Store())
      ensures r == FR_OK ==> Valid() && file.fs.Fat() == old(file.fs.Fat()) && file.chain == old(file.chain)
      ensures r == FR_OK ==> file.Data() == old(file.Data())
      ensures r == FR_OK ==> file.fptr == Min(offset, file.fsize)
      ensures r == FR_OK ==> file.fs.winsect == old(file.fs.winsect) || file.fs.winsect < file.fs.g.database
      ensures r != FR_OK ==> r == FR_RW_ERROR && file.fs.disk.Faults() > old(file.fs.disk.Faults())
    {
      hide FATFS.Fat, FATFS.Store, FATFS.Valid, IsFile, Content, Extends, Needed, AtSector;
      ghost var w := file.fs.winsect;
      r := file.Seek(offset);
      if r != FR_OK { return; }
      FirstCluster(file.fs.g, file.fs.Fat(), file.orgClust, file.chain, file.fsize);
      if file.fs.winsect < file.fs.g.database {
        AheadOfData(file.fs.g, file.chain, 0, file.fs.winsect);
      }
    }
  }

  lemma OffsetAligned(a: Address)
    ensures a.Offset() % 1024 == 0 && a.Offset() < 0x1_0000_0000
  {
    var o := (((FDD_NSIDES * a.track + (1 - a.side)) % 0x1_0000_0000) * FDD_NSECTORS + a.sector - 1) % 0x1_0000_0000;
    assert a.Offset() == o * 1024 % 0x1_0000_0000;
    var q := o * 1024 / 0x1_0000_0000;
    assert a.Offset() == 1024 * (o - 0x40_0000 * q);
  }

  lemma PutWhole(data: seq<Byte>, p: nat, buf: seq<Byte>)
    requires p % 1024 == 0 && p + FDD_SECTOR_SIZE <= |data| && |buf| >= FDD_SECTOR_SIZE
    ensures Put(data, p, buf) == Replaced(data, p, FDD_SECTOR_SIZE, buf[..FDD_SECTOR_SIZE])
  {
    hide InPlace;
    DivMod512(p, p / 1024 * 2, 0);
    InPlaceAligned(data, p, FDD_SECTOR_SIZE, buf);
    assert buf[..FDD_SECTOR_SIZE][..FDD_SECTOR_SIZE] == buf[..FDD_SECTOR_SIZE];
  }

  /** Whole sectors leave the window where it was, if not in the table. */
  lemma AlignedStays(p: nat, done: nat, was: nat, first: nat, last: nat, now: nat, soiled: bool, table: nat)
    requires WindowAfter(p, done, was, first, last, now, soiled, now < table)
    ensures p % 512 == 0 && done % 512 == 0 ==> now == was || now < table
  {
  }

  lemma ClearOfAll(g: Geometry, ch: seq<nat>, p: nat, n: nat, w: nat)
    requires AheadOf(g, ch, 0, w)
    ensures ClearOf(g, ch, p, n, w)
  {
  }

  lemma Delivered(data: seq<Byte>, o: nat, buf: seq<Byte>, n: nat)
    requires |buf| >= FDD_SECTOR_SIZE && n == Min(FDD_SECTOR_SIZE, |data| - Min(o, |data|))
    ensures data[Min(o, |data|)..Min(o, |data|) + n] + buf[n..] == OnTop(Block(data, o), buf)
  {
  }

  lemma AlignedRequest(o: nat, size: nat)
    requires o % 1024 == 0
    ensures o + FDD_SECTOR_SIZE <= size || size % 512 == 0 ==>
            Min(o, size) % 512 == 0 && Min(FDD_SECTOR_SIZE, size - Min(o, size)) % 512 == 0
  {
    var q, s := o / 1024, size / 512;
    DivMod512(o, 2 * q, 0);
    if size % 512 == 0 && o < size < o + FDD_SECTOR_SIZE {
      DivMod512(size - o, s - 2 * q, 0);
    }
  }

  /** Sector 6 of side 1 is sector 1 of side 0. */
  lemma SectorSix()
    ensures !Address(0, 1, 6).Valid() && Address(0, 0, 1).Valid()
    ensures Address(0, 1, 6).Offset() == Address(0, 0, 1).Offset() == 5 * FDD_SECTOR_SIZE
  {
  }

  // ----- runs of requests

  datatype Request = ReadBlock(a: Address) | WriteBlock(a: Address, block: seq<Byte>)

  /** An image of whole disk sectors takes any request, a valid address or not; one of
      another size takes the addresses inside it. */
  ghost predicate Serveable(req: Request, size: nat) {
    && (size % 512 == 0 || req.a.InImage(size))
    && (req.WriteBlock? ==> |req.block| == FDD_SECTOR_SIZE)
  }

  /** The contents of the image and of the buffer shared with the host. */
  datatype Drive = Drive(data: seq<Byte>, buf: seq<Byte>)

  /** One request: what the image has of the block is put in the buffer, or takes what
      is in the buffer. */
  ghost function Served(d: Drive, req: Request): (d': Drive)
    requires |d.buf| >= FDD_SECTOR_SIZE && (req.WriteBlock? ==> |req.block| == FDD_SECTOR_SIZE)
    ensures |d'.buf| == |d.buf|
  {
    var o := req.a.Offset();
    if req.ReadBlock? then
      Drive(d.data, OnTop(Block(d.data, o), d.buf))
    else
      var buf := OnTop(req.block, d.buf);
      Drive(Put(d.data, o, buf), buf)
  }

  ghost predicate Blocks(reqs: seq<Request>) {
    forall i :: 0 <= i < |reqs| && reqs[i].WriteBlock? ==> |reqs[i].block| == FDD_SECTOR_SIZE
  }

  ghost function ServedAll(d: Drive, reqs: seq<Request>): (d': Drive)
    requires |d.buf| >= FDD_SECTOR_SIZE && Blocks(reqs)
    ensures |d'.buf| == |d.buf|
  {
    if reqs == [] then d else Served(ServedAll(d, reqs[..|reqs| - 1]), reqs[|reqs| - 1])
  }

  /** What the host finds in the buffer after each read of a run. */
  ghost function Answers(d: Drive, reqs: seq<Request>): seq<seq<Byte>>
    requires |d.buf| >= FDD_SECTOR_SIZE && Blocks(reqs)
  {
    if reqs == [] then []
    else
      Answers(d, reqs[..|reqs| - 1]) +
      if reqs[|reqs| - 1].ReadBlock? then [ServedAll(d, reqs).buf[..FDD_SECTOR_SIZE]] else []
  }

  /** The map after a run of requests: a write updates one address. */
  ghost function MapAfter(m: imap<Address, seq<Byte>>, reqs: seq<Request>): imap<Address, seq<Byte>> {
    if reqs == [] then m
    else
      var before, req := MapAfter(m, reqs[..|reqs| - 1]), reqs[|reqs| - 1];
      if req.WriteBlock? then before[req.a := req.block] else before
  }

  /** The answers to the reads of a run: what the map holds at that moment. */
  ghost function Replies(m: imap<Address, seq<Byte>>, reqs: seq<Request>): seq<seq<Byte>> {
    if reqs == [] then []
    else
      var before, req := MapAfter(m, reqs[..|reqs| - 1]), reqs[|reqs| - 1];
      Replies(m, reqs[..|reqs| - 1]) + if req.ReadBlock? && req.a in before then [before[req.a]] else []
  }

  /** A floppy whose requests stay inside the image is a map from addresses to blocks. */
  lemma {:induction false} ServesAsMap(d: Drive, reqs: seq<Request>)
    requires |d.buf| >= FDD_SECTOR_SIZE && Blocks(reqs)
    requires forall i :: 0 <= i < |reqs| ==> reqs[i].a.InImage(|d.data|)
    ensures |ServedAll(d, reqs).data| == |d.data|
    ensures Image(ServedAll(d, reqs).data) == MapAfter(Image(d.data), reqs)
    ensures Answers(d, reqs) == Replies(Image(d.data), reqs)
  {
    hide Address.Offset, Image, Put, OnTop, Block;
    if reqs != [] {
      var before, req := reqs[..|reqs| - 1], reqs[|reqs| - 1];
      ServesAsMap(d, before);
      ServesOne(ServedAll(d, before), req);
    }
  }

  lemma ServesOne(d: Drive, req: Request)
    requires |d.buf| >= FDD_SECTOR_SIZE && req.a.InImage(|d.data|)
    requires req.WriteBlock? ==> |req.block| == FDD_SECTOR_SIZE
    ensures |Served(d, req).data| == |d.data| && req.a in Image(d.data)
    ensures req.ReadBlock? ==>
      Served(d, req).data == d.data && Served(d, req).buf[..FDD_SECTOR_SIZE] == Image(d.data)[req.a]
    ensures req.WriteBlock? ==> Image(Served(d, req).data) == Image(d.data)[req.a := req.block]
  {
    hide Address.Offset, Put, Block;
    OffsetAligned(req.a);
    if req.ReadBlock? {
      BlockInImage(d.data, req.a, d.buf);
    } else {
      var buf := OnTop(req.block, d.buf);
      assert buf[..FDD_SECTOR_SIZE] == req.block;
      PutWhole(d.data, req.a.Offset(), buf);
      ImageUpdate(d.data, req.a, req.block);
    }
  }

  /** An address the controller would refuse still has a block: the linear number is
      all that counts, so a sector number past the last one reaches the next side or
      track. */
  lemma AnotherName(a: Address)
    requires a.Offset() < 256 * FDD_NSIDES * FDD_NSECTORS * FDD_SECTOR_SIZE
    ensures exists b: Address :: b.Valid() && b.Offset() == a.Offset()
  {
    OffsetAligned(a);
    var n := a.Offset() / FDD_SECTOR_SIZE;
    var t := n / 10;
    var h := if n - 10 * t < 5 then 0 else 1;
    OffsetValue(Address(t, 1 - h, n - 10 * t - 5 * h + 1));
  }

  /** The request loop of the controller (slave.c, lines 108-193) without its status
      registers: whatever the fragmentation of the image, each request does what
      Served says, and no sector outside the image changes. */
  method Serve(fdd: FDDImage, reqs: seq<Request>) returns (r: FResult, replies: seq<seq<Byte>>)
    requires fdd.Valid() && forall i :: 0 <= i < |reqs| ==> Serveable(reqs[i], fdd.file.fsize)
    modifies fdd`curSide, fdd`curTrack, fdd`curSector, fdd`fdderror
    modifies fdd.file`sectClust, fdd.file`currClust, fdd.file`currSect, fdd.file`orgClust, fdd.file`chain
    modifies fdd.file`fptr, fdd.file`fsize, fdd.file`written, fdd.file`error
    modifies fdd.file.fs`winsect, fdd.file.fs`winflag, fdd.file.fs`lastClust, fdd.file.fs`freeClust
    modifies fdd.file.fs.win, fdd.file.fs.disk, fdd.buffer
    ensures fdd.file.fs.Valid() && fdd.file.fs.SameDisk() && Blocks(reqs)
    ensures r == FR_OK ==>
      && fdd.Valid() && fdd.file.fs.Fat() == old(fdd.file.fs.Fat()) && fdd.file.chain == old(fdd.file.chain)
      && SameOutside(fdd.file.fs.g, fdd.file.chain, old(fdd.file.fs.Store()), fdd.file.fs.Store())
    ensures r == FR_OK ==>
      && Drive(fdd.file.Data(), fdd.buffer[..]) == ServedAll(Drive(old(fdd.file.Data()), old(fdd.buffer[..])), reqs)
      && replies == Answers(Drive(old(fdd.file.Data()), old(fdd.buffer[..])), reqs)
    ensures r == FR_OK && (forall i :: 0 <= i < |reqs| ==> reqs[i].a.InImage(old(fdd.file.fsize))) ==>
      && Image(fdd.file.Data()) == MapAfter(Image(old(fdd.file.Data())), reqs)
      && replies == Replies(Image(old(fdd.file.Data())), reqs)
    ensures r != FR_OK ==> r == FR_RW_ERROR && fdd.file.fs.disk.Faults() > old(fdd.file.fs.disk.Faults())
  {
    hide FATFS.Fat, FATFS.Store, FATFS.Valid, FIL.Refusal, FIL.Cursor, AheadOf, Image, SameOutside, IsFile, Content;
    hide Served;
    ghost var d, st := Drive(fdd.file.Data(), fdd.buffer[..]), fdd.file.fs.Store();
    SameOutsideSelf(fdd.file.fs.g, fdd.file.chain, st);
    r, replies := FR_OK, [];
    var i := 0;
    while i < |reqs|
      invariant 0 <= i <= |reqs| && r == FR_OK
      invariant fdd.Valid() && fdd.file.fs.Valid() && fdd.file.Valid() && fdd.file.fs.SameDisk()
      invariant fdd.file.fs.Fat() == old(fdd.file.fs.Fat())
      invariant fdd.file.chain == old(fdd.file.chain) && fdd.file.fsize == old(fdd.file.fsize)
      invariant SameOutside(fdd.file.fs.g, fdd.file.chain, st, fdd.file.fs.Store())
      invariant Drive(fdd.file.Data(), fdd.buffer[..]) == ServedAll(d, reqs[..i])
      invariant replies == Answers(d, reqs[..i])
    {
      assert reqs[..i + 1][..i] == reqs[..i];
      ghost var st1 := fdd.file.fs.Store();
      var reply;
      r, reply := ServeOne(fdd, reqs[i]);
      if r != FR_OK { return; }
      replies := replies + reply;
      SameOutsideRun(fdd.file.fs.g, fdd.file.chain, st, st1, fdd.file.fs.Store());
      i := i + 1;
    }
    assert reqs[..i] == reqs;
    if forall k :: 0 <= k < |reqs| ==> reqs[k].a.InImage(|d.data|) {
      ServesAsMap(d, reqs);
    }
  }

  /** One request: the address is set, a block to write is put in the buffer, a block
      read is taken from it. */
  method ServeOne(fdd: FDDImage, req: Request) returns (r: FResult, reply: seq<seq<Byte>>)
    requires fdd.Valid() && Serveable(req, fdd.file.fsize)
    modifies fdd`curSide, fdd`curTrack, fdd`curSector, fdd`fdderror
    modifies fdd.file`sectClust, fdd.file`currClust, fdd.file`currSect, fdd.file`orgClust, fdd.file`chain
    modifies fdd.file`fptr, fdd.file`fsize, fdd.file`written, fdd.file`error
    modifies fdd.file.fs`winsect, fdd.file.fs`winflag, fdd.file.fs`lastClust, fdd.file.fs`freeClust
    modifies fdd.file.fs.win, fdd.file.fs.disk, fdd.buffer
    ensures fdd.file.fs.Valid() && fdd.file.fs.SameDisk()
    ensures r == FR_OK ==> fdd.Valid() && fdd.file.Valid() && fdd.file.fs.Fat() == old(fdd.file.fs.Fat())
    ensures r == FR_OK ==> fdd.file.chain == old(fdd.file.chain) && fdd.file.fsize == old(fdd.file.fsize)
    ensures r == FR_OK ==>
      SameOutside(fdd.file.fs.g, fdd.file.chain, old(fdd.file.fs.Store()), fdd.file.fs.Store())
    ensures r == FR_OK ==>
      Drive(fdd.file.Data(), fdd.buffer[..]) == Served(Drive(old(fdd.file.Data()), old(fdd.buffer[..])), req)
    ensures r == FR_OK ==> reply == if req.ReadBlock? then [fdd.buffer[..FDD_SECTOR_SIZE]] else []
    ensures r != FR_OK ==> r == FR_RW_ERROR && fdd.file.fs.disk.Faults() > old(fdd.file.fs.disk.Faults())
  {
    hide FATFS.Fat, FATFS.Store, FATFS.Valid, FIL.Cursor, AheadOf, Address.Offset, SameOutside, Block, IsFile, Put;
    hide Content;
    reply := [];
    SameOutsideSelf(fdd.file.fs.g, fdd.file.chain, fdd.file.fs.Store());
    fdd.Seek(req.a.side, req.a.track, req.a.sector);
    if req.WriteBlock? {
      forall i | 0 <= i < FDD_SECTOR_SIZE {
        fdd.buffer[i] := req.block[i];
      }
      assert fdd.buffer[..] == OnTop(req.block, old(fdd.buffer[..]));
      r := fdd.WriteSector();
    } else {
      r := fdd.ReadSector();
      reply := [fdd.buffer[..FDD_SECTOR_SIZE]];
    }
  }
}
