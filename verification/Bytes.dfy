/** Bytes, 512-byte sectors and little-endian words (tff.h, LD_WORD .. ST_DWORD). */
module Bytes {
  type Byte = b: int | 0 <= b < 256
  type Word = w: int | 0 <= w < 0x1_0000
  type Sector = s: seq<Byte> | |s| == 512 witness seq(512, _ => 0)

  const BLANK_SECTOR: Sector := seq(512, _ => 0)

  function LoadWord(s: seq<Byte>, i: nat): (w: Word)
    requires i + 2 <= |s|
  {
    s[i] as int + 256 * s[i + 1] as int
  }

  function StoreWord(s: seq<Byte>, i: nat, w: Word): (r: seq<Byte>)
    requires i + 2 <= |s|
    ensures |r| == |s|
  {
    s[i := w % 256][i + 1 := w / 256]
  }

  function LoadDword(s: seq<Byte>, i: nat): (d: nat)
    requires i + 4 <= |s|
    ensures d < 0x1_0000_0000
  {
    LoadWord(s, i) + 0x1_0000 * LoadWord(s, i + 2)
  }

  function StoreDword(s: seq<Byte>, i: nat, d: nat): (r: seq<Byte>)
    requires i + 4 <= |s|
    requires d < 0x1_0000_0000
    ensures |r| == |s|
  {
    StoreWord(StoreWord(s, i, d % 0x1_0000), i + 2, d / 0x1_0000)
  }

  lemma WordReads(s: seq<Byte>, i: nat, w: Word)
    requires i + 2 <= |s|
    ensures LoadWord(StoreWord(s, i, w), i) == w
    ensures forall k :: 0 <= k < |s| && !(i <= k < i + 2) ==> StoreWord(s, i, w)[k] == s[k]
  {
  }

  lemma DwordReads(s: seq<Byte>, i: nat, d: nat)
    requires i + 4 <= |s| && d < 0x1_0000_0000
    ensures LoadDword(StoreDword(s, i, d), i) == d
    ensures forall k :: 0 <= k < |s| && !(i <= k < i + 4) ==> StoreDword(s, i, d)[k] == s[k]
  {
    hide StoreWord;
    var r := StoreWord(s, i, d % 0x1_0000);
    WordReads(s, i, d % 0x1_0000);
    WordReads(r, i + 2, d / 0x1_0000);
  }

  function Min(a: nat, b: nat): nat { if a <= b then a else b }
}
