/** The cluster table as bytes on the volume: packed 12-bit or plain 16-bit entries
    ("FAT Data Structure", FAT32 File System Specification 1.03). A volume is a
    sequence of sectors; it stands for a table (one number per cluster) and a store
    (everything outside the table area). */
module FatTable {
  import opened Arith
  import opened Bytes
  import opened Layout

  ghost predicate Fits(g: Geometry, v: seq<Sector>) {
    g.Valid() && g.database <= g.End() <= |v|
  }

  /** Byte i of the first copy of the table. */
  function FatByte(g: Geometry, v: seq<Sector>, i: nat): Byte
    requires g.fatbase + g.sectsFat <= |v| && i < 512 * g.sectsFat
  {
    v[g.fatbase + i / 512][i % 512]
  }

  function SetFatByte(g: Geometry, v: seq<Sector>, i: nat, b: Byte): (r: seq<Sector>)
    requires g.fatbase + g.sectsFat <= |v| && i < 512 * g.sectsFat
    ensures |r| == |v|
    ensures forall j :: 0 <= j < 512 * g.sectsFat ==> FatByte(g, r, j) == if j == i then b else FatByte(g, v, j)
  {
    v[g.fatbase + i / 512 := v[g.fatbase + i / 512][i % 512 := b]]
  }

  /** Where entry c starts. */
  function EntryOffset(g: Geometry, c: nat): nat {
    if g.kind.Fat12? then c * 3 / 2 else c * 2
  }

  lemma EntryInTable(g: Geometry, c: nat)
    requires g.Valid() && c < g.maxClust
    ensures EntryOffset(g, c) + 1 < 512 * g.sectsFat
  {
  }

  /** get_cluster's extraction of a 12-bit entry from the two bytes it touches. */
  function Unpack12(c: nat, lo: Byte, hi: Byte): (e: nat)
    ensures e < 0x1000
  {
    var w := lo as int + 256 * hi;
    if c % 2 == 1 then w / 16 else w % 4096
  }

  function Entry(g: Geometry, v: seq<Sector>, c: nat): (e: nat)
    requires g.Valid() && g.fatbase + g.sectsFat <= |v| && c < g.maxClust
    ensures e < g.EntrySize()
  {
    EntryInTable(g, c);
    var at := EntryOffset(g, c);
    var lo, hi := FatByte(g, v, at), FatByte(g, v, at + 1);
    if g.kind.Fat16? then lo as int + 256 * hi else Unpack12(c, lo, hi)
  }

  /** The table as a sequence of numbers, entries 0 and 1 included. */
  ghost function FatOf(g: Geometry, v: seq<Sector>): (fat: seq<nat>)
    requires Fits(g, v)
    ensures |fat| == g.maxClust
    ensures forall c :: 0 <= c < |fat| ==> fat[c] < g.EntrySize()
  {
    seq(g.maxClust, c requires 0 <= c < g.maxClust => Entry(g, v, c))
  }

  lemma EntryOf12(g: Geometry, v: seq<Sector>, c: nat)
    requires Fits(g, v) && g.kind.Fat12? && c < g.maxClust
    ensures c * 3 / 2 + 1 < 512 * g.sectsFat
    ensures FatOf(g, v)[c] == Unpack12(c, FatByte(g, v, c * 3 / 2), FatByte(g, v, c * 3 / 2 + 1))
  {
    EntryInTable(g, c);
  }

  /** The volume with the table area left out. */
  ghost function StoreOf(g: Geometry, v: seq<Sector>): (st: seq<Sector>)
    ensures |st| == |v|
  {
    seq(|v|, s requires 0 <= s < |v| => if g.InFat(s) then BLANK_SECTOR else v[s])
  }

  /** Two volumes that differ in the later copies of the table only. */
  ghost predicate SameOutsideMirrors(g: Geometry, v: seq<Sector>, w: seq<Sector>) {
    |w| == |v| && forall s :: 0 <= s < |v| && !g.IsMirror(s) ==> w[s] == v[s]
  }

  lemma SameFatByte(g: Geometry, v: seq<Sector>, w: seq<Sector>, i: nat)
    requires g.fatbase + g.sectsFat <= |v| && i < 512 * g.sectsFat && SameOutsideMirrors(g, v, w)
    ensures FatByte(g, w, i) == FatByte(g, v, i)
  {
  }

  /** The later copies of the table play no part in what a volume stands for. */
  lemma SamePrimary(g: Geometry, v: seq<Sector>, w: seq<Sector>)
    requires Fits(g, v) && SameOutsideMirrors(g, v, w)
    ensures FatOf(g, w) == FatOf(g, v)
    ensures StoreOf(g, w) == StoreOf(g, v)
  {
    forall c | 0 <= c < g.maxClust
      ensures Entry(g, w, c) == Entry(g, v, c)
    {
      EntryInTable(g, c);
    }
  }

  lemma SetFatByteMirrors(g: Geometry, v: seq<Sector>, w: seq<Sector>, i: nat, b: Byte)
    requires Fits(g, v) && SameOutsideMirrors(g, v, w) && i < 512 * g.sectsFat
    ensures FatOf(g, SetFatByte(g, w, i, b)) == FatOf(g, SetFatByte(g, v, i, b))
  {
    SamePrimary(g, SetFatByte(g, v, i, b), SetFatByte(g, w, i, b));
  }

  /** Sectors outside the table area play no part in the table. */
  lemma SameTable(g: Geometry, v: seq<Sector>, w: seq<Sector>)
    requires Fits(g, v) && |w| == |v|
    requires forall s :: 0 <= s < |v| && g.InFat(s) ==> w[s] == v[s]
    ensures FatOf(g, w) == FatOf(g, v)
  {
    forall c | 0 <= c < g.maxClust
      ensures Entry(g, w, c) == Entry(g, v, c)
    {
      EntryInTable(g, c);
    }
  }

  /** Writing outside the table area changes one sector of the store and no entry. */
  lemma WriteOutside(g: Geometry, v: seq<Sector>, s: nat, x: Sector)
    requires Fits(g, v) && s < |v| && !g.InFat(s)
    ensures Fits(g, v[s := x])
    ensures FatOf(g, v[s := x]) == FatOf(g, v)
    ensures StoreOf(g, v[s := x]) == StoreOf(g, v)[s := x]
  {
    forall c | 0 <= c < g.maxClust
      ensures Entry(g, v[s := x], c) == Entry(g, v, c)
    {
      EntryInTable(g, c);
    }
  }

  /** Writing inside the table area leaves the store alone. */
  lemma WriteInside(g: Geometry, v: seq<Sector>, s: nat, x: Sector)
    requires Fits(g, v) && s < |v| && g.InFat(s)
    ensures StoreOf(g, v[s := x]) == StoreOf(g, v)
  {
  }

  /** The two bytes put_cluster stores for a 12-bit entry. */
  function Low12(c: nat, was: Byte, val: nat): Byte {
    if c % 2 == 1 then was % 16 + val % 16 * 16 else val % 256
  }

  function High12(c: nat, was: Byte, val: nat): Byte {
    if c % 2 == 1 then val / 16 % 256 else was / 16 * 16 + val / 256 % 16
  }

  /** Which bits of its two bytes a 12-bit entry depends on. */
  lemma Unpack12Parts(c: nat, lo: Byte, hi: Byte)
    ensures c % 2 == 1 ==> Unpack12(c, lo, hi) == lo / 16 + 16 * hi
    ensures c % 2 == 0 ==> Unpack12(c, lo, hi) == lo + 256 * (hi % 16)
  {
    var w := lo as int + 256 * hi;
    if c % 2 == 1 {
      DivMod16(w, lo / 16 + 16 * hi, lo % 16);
    } else {
      DivMod4096(w, hi / 16, lo + 256 * (hi % 16));
    }
  }

  lemma High12Parts(c: nat, was: Byte, val: nat)
    ensures c % 2 == 1 ==> High12(c, was, val) == val % 0x1000 / 16
    ensures c % 2 == 0 ==> High12(c, was, val) / 16 == was / 16 && High12(c, was, val) % 16 == val % 0x1000 / 256
  {
    var q, r := val / 4096, val % 4096;
    if c % 2 == 1 {
      DivMod16(val, 256 * q + r / 16, r % 16);
      DivMod256(val / 16, q, r / 16);
    } else {
      DivMod256(val, 16 * q + r / 256, r % 256);
      DivMod16(val / 256, q, r / 256);
      DivMod16(High12(c, was, val), was / 16, val / 256 % 16);
    }
  }

  lemma Low12Parts(c: nat, was: Byte, val: nat)
    ensures c % 2 == 1 ==> Low12(c, was, val) / 16 == val % 0x1000 % 16 && Low12(c, was, val) % 16 == was % 16
    ensures c % 2 == 0 ==> Low12(c, was, val) == val % 0x1000 % 256
  {
    var q, r := val / 4096, val % 4096;
    if c % 2 == 1 {
      DivMod16(val, 256 * q + r / 16, r % 16);
      DivMod16(Low12(c, was, val), val % 16, was % 16);
    } else {
      DivMod256(val, 16 * q + r / 256, r % 256);
    }
  }

  /** Twelve bits cut in two bytes and put together again. */
  lemma Pack12(c: nat, low: Byte, high: Byte, val: nat)
    ensures Unpack12(c, Low12(c, low, val), High12(c, high, val)) == val % 0x1000
  {
    Unpack12Parts(c, Low12(c, low, val), High12(c, high, val));
    High12Parts(c, high, val);
    Low12Parts(c, low, val);
  }

  /** The bytes of two 12-bit entries overlap only when the entries are adjacent. */
  lemma Neighbours12(c: nat, j: nat)
    requires c != j
    ensures j * 3 / 2 != c * 3 / 2
    ensures j * 3 / 2 == c * 3 / 2 + 1 ==> c % 2 == 0 && j % 2 == 1
    ensures j * 3 / 2 + 1 == c * 3 / 2 ==> j % 2 == 0 && c % 2 == 1
  {
  }

  /** Storing the first byte of a 12-bit entry disturbs no other entry. */
  lemma PutLow12(g: Geometry, v: seq<Sector>, c: nat, val: nat)
    requires Fits(g, v) && g.kind.Fat12? && c < g.maxClust
    ensures EntryOffset(g, c) + 1 < 512 * g.sectsFat
    ensures var at := EntryOffset(g, c);
            var w := SetFatByte(g, v, at, Low12(c, FatByte(g, v, at), val));
            Fits(g, w) &&
            forall j :: 0 <= j < g.maxClust && j != c ==> FatOf(g, w)[j] == FatOf(g, v)[j]
  {
    EntryInTable(g, c);
    var at := EntryOffset(g, c);
    var w := SetFatByte(g, v, at, Low12(c, FatByte(g, v, at), val));
    forall j | 0 <= j < g.maxClust && j != c
      ensures Entry(g, w, j) == Entry(g, v, j)
    {
      PutLow12At(g, v, w, c, val, j);
    }
  }

  lemma PutLow12At(g: Geometry, v: seq<Sector>, w: seq<Sector>, c: nat, val: nat, j: nat)
    requires Fits(g, v) && Fits(g, w) && g.kind.Fat12? && c < g.maxClust && j < g.maxClust && j != c
    requires forall i :: 0 <= i < 512 * g.sectsFat && i != c * 3 / 2 ==> FatByte(g, w, i) == FatByte(g, v, i)
    requires c * 3 / 2 < 512 * g.sectsFat
    requires FatByte(g, w, c * 3 / 2) == Low12(c, FatByte(g, v, c * 3 / 2), val)
    ensures Entry(g, w, j) == Entry(g, v, j)
  {
    EntryInTable(g, j);
    Neighbours12(c, j);
    if j * 3 / 2 + 1 == c * 3 / 2 {
      var at := c * 3 / 2;
      Low12Parts(c, FatByte(g, v, at), val);
      Unpack12Parts(j, FatByte(g, v, at - 1), FatByte(g, v, at));
      Unpack12Parts(j, FatByte(g, w, at - 1), FatByte(g, w, at));
    }
  }

  lemma PutHigh12At(g: Geometry, v: seq<Sector>, w: seq<Sector>, c: nat, val: nat, j: nat)
    requires Fits(g, v) && Fits(g, w) && g.kind.Fat12? && c < g.maxClust && j < g.maxClust && j != c
    requires forall i :: 0 <= i < 512 * g.sectsFat && i != c * 3 / 2 + 1 ==> FatByte(g, w, i) == FatByte(g, v, i)
    requires c * 3 / 2 + 1 < 512 * g.sectsFat
    requires FatByte(g, w, c * 3 / 2 + 1) == High12(c, FatByte(g, v, c * 3 / 2 + 1), val)
    ensures Entry(g, w, j) == Entry(g, v, j)
  {
    EntryInTable(g, j);
    Neighbours12(c, j);
    var at := c * 3 / 2 + 1;
    if j * 3 / 2 == at {
      High12Parts(c, FatByte(g, v, at), val);
      Unpack12Parts(j, FatByte(g, v, at), FatByte(g, v, at + 1));
      Unpack12Parts(j, FatByte(g, w, at), FatByte(g, w, at + 1));
    }
  }

  /** Storing both bytes sets entry c to val modulo 4096, and only entry c, although
      neighbouring entries share a byte. */
  lemma PutBoth12(g: Geometry, v: seq<Sector>, c: nat, val: nat)
    requires Fits(g, v) && g.kind.Fat12? && c < g.maxClust
    ensures EntryOffset(g, c) + 1 < 512 * g.sectsFat
    ensures var at := EntryOffset(g, c);
            var w := SetFatByte(g, v, at, Low12(c, FatByte(g, v, at), val));
            var x := SetFatByte(g, w, at + 1, High12(c, FatByte(g, w, at + 1), val));
            Fits(g, x) && FatOf(g, x) == FatOf(g, v)[c := val % 0x1000]
  {
    hide Low12, High12, Unpack12, FatByte, SetFatByte;
    EntryInTable(g, c);
    var at := EntryOffset(g, c);
    var w := SetFatByte(g, v, at, Low12(c, FatByte(g, v, at), val));
    var x := SetFatByte(g, w, at + 1, High12(c, FatByte(g, w, at + 1), val));
    forall j | 0 <= j < g.maxClust
      ensures Entry(g, x, j) == if j == c then val % 0x1000 else Entry(g, v, j)
    {
      if j != c {
        PutLow12At(g, v, w, c, val, j);
        PutHigh12At(g, w, x, c, val, j);
      } else {
        Pack12(c, FatByte(g, v, at), FatByte(g, w, at + 1), val);
      }
    }
  }

  /** After the first byte (copies of the table apart): the other entries are as before. */
  lemma HalfPut12(g: Geometry, v: seq<Sector>, w: seq<Sector>, c: nat, val: nat)
    requires Fits(g, v) && Fits(g, w) && g.kind.Fat12? && c < g.maxClust && EntryOffset(g, c) + 1 < 512 * g.sectsFat
    requires SameOutsideMirrors(g, SetFatByte(g, v, c * 3 / 2, Low12(c, FatByte(g, v, c * 3 / 2), val)), w)
    ensures forall j :: 0 <= j < g.maxClust && j != c ==> FatOf(g, w)[j] == FatOf(g, v)[j]
  {
    PutLow12(g, v, c, val);
    SamePrimary(g, SetFatByte(g, v, c * 3 / 2, Low12(c, FatByte(g, v, c * 3 / 2), val)), w);
  }

  /** After both bytes (copies of the table apart): the entry is val modulo 4096. */
  lemma WholePut12(g: Geometry, v: seq<Sector>, w: seq<Sector>, x: seq<Sector>, c: nat, val: nat)
    requires Fits(g, v) && Fits(g, w) && Fits(g, x) && g.kind.Fat12? && c < g.maxClust
    requires EntryOffset(g, c) + 1 < 512 * g.sectsFat
    requires SameOutsideMirrors(g, SetFatByte(g, v, c * 3 / 2, Low12(c, FatByte(g, v, c * 3 / 2), val)), w)
    requires SameOutsideMirrors(g, SetFatByte(g, w, c * 3 / 2 + 1, High12(c, FatByte(g, w, c * 3 / 2 + 1), val)), x)
    ensures FatOf(g, x) == FatOf(g, v)[c := val % g.EntrySize()]
  {
    hide Low12, High12, FatOf, FatByte, SetFatByte, SameOutsideMirrors;
    var at := c * 3 / 2;
    var w' := SetFatByte(g, v, at, Low12(c, FatByte(g, v, at), val));
    SameFatByte(g, w', w, at + 1);
    var b := High12(c, FatByte(g, w, at + 1), val);
    PutBoth12(g, v, c, val);
    SetFatByteMirrors(g, w', w, at + 1, b);
    SamePrimary(g, SetFatByte(g, w, at + 1, b), x);
  }

  lemma LowHigh(val: nat)
    ensures val % 256 + 256 * (val / 256 % 256) == val % 0x1_0000
  {
    var q, r := val / 0x1_0000, val % 0x1_0000;
    assert val / 256 == 256 * q + r / 256;
  }

  /** Storing a 16-bit entry sets that entry only. */
  lemma Put16(g: Geometry, v: seq<Sector>, c: nat, val: nat)
    requires Fits(g, v) && g.kind.Fat16? && c < g.maxClust
    ensures EntryOffset(g, c) + 1 < 512 * g.sectsFat
    ensures var x := SetFatByte(g, SetFatByte(g, v, c * 2, val % 256), c * 2 + 1, val / 256 % 256);
            Fits(g, x) && FatOf(g, x) == FatOf(g, v)[c := val % 0x1_0000]
  {
    EntryInTable(g, c);
    var x := SetFatByte(g, SetFatByte(g, v, c * 2, val % 256), c * 2 + 1, val / 256 % 256);
    forall j | 0 <= j < g.maxClust
      ensures Entry(g, x, j) == if j == c then val % 0x1_0000 else Entry(g, v, j)
    {
      EntryInTable(g, j);
      if j == c {
        LowHigh(val);
      }
    }
  }
}
