/** The input engine of the scanf family (_scanf.c). It reads one character ahead; unsigned
    counters wrap at 8 or 16 bits and integers at 32, as on the target. The inline assembly
    is modelled by its documented meaning. */
module Scanf {
  import opened Bytes

  const EOF := -1

  // ----- characters (the classification table, vector/ctype.s)

  /** The table also marks 127. */
  predicate IsSpace(c: int) { 9 <= c <= 13 || c == 32 || c == 127 }

  predicate IsDigit(c: int) { '0' as int <= c <= '9' as int }

  predicate IsXDigit(c: int) {
    IsDigit(c) || 'a' as int <= c <= 'f' as int || 'A' as int <= c <= 'F' as int
  }

  function HexVal(c: int): (v: nat)
    requires IsXDigit(c)
  {
    if IsDigit(c) then c - '0' as int
    else (if c <= 'F' as int then c + 32 else c) - ('a' as int - 10)
  }

  /** The digits of a base. */
  function DigitOf(base: nat): int -> bool {
    c => IsXDigit(c) && HexVal(c) < base
  }

  const SOLID: int -> bool := c => c != EOF && !IsSpace(c)
  const WHITE: int -> bool := c => IsSpace(c)

  function OneOf(chars: set<Byte>): int -> bool {
    c => c != EOF && c in chars
  }

  function CharAt(s: seq<Byte>, i: nat): int { if i < |s| then s[i] as int else EOF }

  /** The end of the longest run, from i, of at most limit characters with property p. */
  function RunEnd(s: seq<Byte>, i: nat, limit: nat, p: int -> bool): nat
    decreases limit
  {
    if limit > 0 && p(CharAt(s, i)) then RunEnd(s, i + 1, limit - 1, p) else i
  }

  predicate Longest(s: seq<Byte>, i: nat, k: nat, limit: nat, p: int -> bool) {
    && i <= k <= |s| && k - i <= limit
    && (forall j :: i <= j < k ==> p(s[j]))
    && (k - i == limit || !p(CharAt(s, k)))
  }

  lemma {:induction false} RunEndIsLongest(s: seq<Byte>, i: nat, limit: nat, p: int -> bool)
    requires i <= |s| && !p(EOF)
    ensures Longest(s, i, RunEnd(s, i, limit, p), limit, p)
    decreases limit
  {
    if limit > 0 && p(CharAt(s, i)) {
      RunEndIsLongest(s, i + 1, limit - 1, p);
    }
  }

  lemma LongestIsRunEnd(s: seq<Byte>, i: nat, k: nat, limit: nat, p: int -> bool)
    requires Longest(s, i, k, limit, p) && !p(EOF)
    ensures k == RunEnd(s, i, limit, p)
  {
    RunEndIsLongest(s, i, limit, p);
    var e := RunEnd(s, i, limit, p);
    assert i <= e < k ==> p(CharAt(s, e));
    assert i <= k < e ==> p(CharAt(s, k));
  }

  lemma RunEndStep(s: seq<Byte>, i: nat, limit: nat, p: int -> bool)
    ensures RunEnd(s, i, limit, p) == if limit > 0 && p(CharAt(s, i)) then RunEnd(s, i + 1, limit - 1, p) else i
  {
  }

  lemma RunStep(s: seq<Byte>, i: nat, limit: nat, base: nat)
    ensures RunEnd(s, i, limit, DigitOf(base)) ==
      if limit > 0 && IsXDigit(CharAt(s, i)) && HexVal(CharAt(s, i)) < base
      then RunEnd(s, i + 1, limit - 1, DigitOf(base)) else i
  {
  }

  function LowByte(n: nat): Byte { n % 256 }

  lemma LowByteIs(n: nat)
    ensures LowByte(n) == n % 256
  {
  }

  lemma LowByteStep(n: nat)
    ensures LowByte(n + 1) == (LowByte(n) + 1) % 256
  {
  }

  /** The number a string of digits denotes. */
  function Value(s: seq<Byte>, base: nat): nat {
    if s == [] then 0
    else Value(s[..|s| - 1], base) * base + var c := s[|s| - 1]; if IsXDigit(c) then HexVal(c) else 0
  }

  lemma ValueEmpty(s: seq<Byte>, i: nat, base: nat)
    requires i <= |s|
    ensures Value(s[i..i], base) == 0
  {
  }

  /** Appending a digit in 32 bits. */
  lemma ValueStep(s: seq<Byte>, i: nat, k: nat, base: nat)
    requires i <= k < |s| && IsXDigit(s[k]) && base <= 16
    ensures (Value(s[i..k], base) % 0x1_0000_0000 * base + HexVal(s[k])) % 0x1_0000_0000
         == Value(s[i..k + 1], base) % 0x1_0000_0000
  {
    assert s[i..k + 1][..k - i] == s[i..k];
    MulMod(Value(s[i..k], base), base, HexVal(s[k]));
  }

  lemma MulMod(a: nat, b: nat, c: nat)
    ensures (a % 0x1_0000_0000 * b + c) % 0x1_0000_0000 == (a * b + c) % 0x1_0000_0000
  {
    var q, r := a / 0x1_0000_0000, a % 0x1_0000_0000;
    assert a * b == r * b + 0x1_0000_0000 * (q * b) by {
      assert a == 0x1_0000_0000 * q + r;
    }
    AddMultiple(r * b + c, q * b);
  }

  /** A count modulo 2^16, less the character read ahead. */
  lemma OneLess(n: nat, ahead: nat)
    requires ahead <= 1 && ahead <= n
    ensures (n % 0x1_0000 + if ahead == 0 then 0 else 0xFFFF) % 0x1_0000 == (n - ahead) % 0x1_0000
  {
  }

  lemma AddMultiple(n: nat, k: nat)
    ensures (n + 0x1_0000_0000 * k) % 0x1_0000_0000 == n % 0x1_0000_0000
  {
  }

  // ----- what a number looks like

  /** A sign, a base prefix, and where the digits start. */
  datatype Header = Header(negative: bool, signed: bool, prefixed: bool, base: nat, from: nat)

  /** The header at h, which is no white space. Base 0 means: find out. */
  function HeaderAt(s: seq<Byte>, h: nat, base: nat): Header {
    var negative := CharAt(s, h) == '-' as int;
    var signed := negative || CharAt(s, h) == '+' as int;
    var prefix := PrefixAt(s, if signed then h + 1 else h, base);
    prefix.(negative := negative, signed := signed)
  }

  function PrefixAt(s: seq<Byte>, p: nat, base: nat): Header {
    if base != 0 then Header(false, false, false, base, p)
    else if CharAt(s, p) != '0' as int then Header(false, false, false, 10, p)
    else if CharAt(s, p + 1) == 'x' as int || CharAt(s, p + 1) == 'X' as int then Header(false, false, true, 16, p + 2)
    else Header(false, false, false, 8, p)
  }

  /** A value with its sign, in 32 bits. */
  function Signed(negative: bool, v: nat): nat {
    var u := v % 0x1_0000_0000;
    if negative && u > 0 then 0x1_0000_0000 - u else u
  }

  lemma SignedIs(v: nat)
    ensures Signed(false, v) == v % 0x1_0000_0000
    ensures Signed(true, v) == (0x1_0000_0000 - v % 0x1_0000_0000) % 0x1_0000_0000
  {
  }

  function Truncate(v: nat, bytes: nat): nat {
    if bytes == 1 then v % 0x100 else if bytes == 2 then v % 0x1_0000 else v % 0x1_0000_0000
  }

  // ----- what is stored, and where it comes from

  /** The objects written through successive pointer arguments. A fragment is what a %c
      leaves that meets the end of input; it does not count as an assignment. */
  datatype Stored =
    | Number(bytes: nat, value: nat)
    | Text(chars: seq<Byte>)
    | Chars(chars: seq<Byte>)
    | Fragment(chars: seq<Byte>)

  /** The part of the input an object was read from. */
  datatype Source =
    | Digits(negative: bool, base: nat, from: nat, end: nat)
    | Letters(from: nat, end: nat)
    | Position(from: nat, end: nat)

  /** The object is what its source says. */
  predicate ReadOff(o: Stored, at: Source, input: seq<Byte>, start: nat) {
    && start <= at.from <= at.end <= |input|
    && match at
       case Digits(negative, base, from, end) =>
         && o.Number? && from < end && (forall i :: from <= i < end ==> DigitOf(base)(input[i]))
         && o.value == Truncate(Signed(negative, Value(input[from..end], base)), o.bytes)
       case Letters(from, end) => !o.Number? && o.chars == input[from..end]
       case Position(from, end) => o.Number? && from == end && o.value == Truncate((from - start) % 0x1_0000, o.bytes)
  }

  /** The objects are read off disjoint parts of the input, from left to right. */
  predicate Faithful(stored: seq<Stored>, sources: seq<Source>, input: seq<Byte>, start: nat, here: nat) {
    && |stored| == |sources|
    && (forall i :: 0 <= i < |stored| ==> ReadOff(stored[i], sources[i], input, start))
    && (forall i, j :: 0 <= i < j < |sources| ==> sources[i].end <= sources[j].from)
    && (forall i :: 0 <= i < |sources| ==> sources[i].end <= here)
  }

  predicate Counts(o: Stored, at: Source) { !o.Fragment? && !at.Position? }

  /** How many assignments there are to report. */
  function Tally(stored: seq<Stored>, sources: seq<Source>): nat
    requires |stored| == |sources|
  {
    if stored == [] then 0
    else
      var n := |stored| - 1;
      Tally(stored[..n], sources[..n]) + if Counts(stored[n], sources[n]) then 1 else 0
  }

  lemma TallyStep(stored: seq<Stored>, sources: seq<Source>, o: Stored, at: Source)
    requires |stored| == |sources|
    ensures Tally(stored + [o], sources + [at]) == Tally(stored, sources) + if Counts(o, at) then 1 else 0
  {
    var n := |stored|;
    assert (stored + [o])[..n] == stored && (sources + [at])[..n] == sources;
  }

  lemma FaithfulStep(stored: seq<Stored>, sources: seq<Source>, input: seq<Byte>, start: nat, here: nat, o: Stored,
          at: Source, here': nat)
    requires Faithful(stored, sources, input, start, here)
    requires ReadOff(o, at, input, start) && here <= at.from && at.end <= here'
    ensures Faithful(stored + [o], sources + [at], input, start, here')
  {
  }

  lemma SameNumber(stored: seq<Stored>, sources: seq<Source>, input: seq<Byte>, start: nat, here: nat)
    requires Faithful(stored, sources, input, start, here)
    ensures |stored| == |sources|
  {
  }

  lemma NumberBounds(s: seq<Byte>, i: nat, base: nat)
    requires i <= |s|
    ensures i <= RunEnd(s, i, |s|, WHITE) <= HeaderAt(s, RunEnd(s, i, |s|, WHITE), base).from <= |s|
  {
    RunEndIsLongest(s, i, |s|, WHITE);
  }

  lemma HeaderSplit(s: seq<Byte>, h: nat, base: nat)
    ensures var sign, n := HeaderAt(s, h, 10), HeaderAt(s, h, base);
      var prefix := PrefixAt(s, sign.from, base);
      n == prefix.(negative := sign.negative, signed := sign.signed)
  {
  }

  lemma LettersReadOff(o: Stored, from: nat, end: nat, s: seq<Byte>, start: nat)
    requires start <= from <= end <= |s| && !o.Number? && o.chars == s[from..end]
    ensures ReadOff(o, Letters(from, end), s, start)
  {
  }

  lemma PositiveIs(s: seq<Byte>, from: nat, end: nat)
    requires from <= end <= |s|
    ensures Signed(false, Value(s[from..end], 16)) == Value(s[from..end], 16) % 0x1_0000_0000
  {
  }

  lemma DigitsReadOff(s: seq<Byte>, start: nat, negative: bool, base: nat, from: nat, limit: nat, bytes: nat)
    requires start <= from <= |s| && from < RunEnd(s, from, limit, DigitOf(base))
    ensures var end := RunEnd(s, from, limit, DigitOf(base));
      && end <= |s|
      && ReadOff(Number(bytes, Truncate(Signed(negative, Value(s[from..end], base)), bytes)),
              Digits(negative, base, from, end), s, start)
  {
    RunEndIsLongest(s, from, limit, DigitOf(base));
  }

  lemma FaithfulLater(stored: seq<Stored>, sources: seq<Source>, input: seq<Byte>, start: nat, here: nat, here': nat)
    requires Faithful(stored, sources, input, start, here) && here <= here'
    ensures Faithful(stored, sources, input, start, here')
  {
  }

  // ----- character sets

  predicate InRange(c: Byte, a: Byte, b: Byte) {
    if a <= b then a <= c <= b else c >= a || c <= b
  }

  /** The characters from a up to b, going round at 255. */
  function Range(a: Byte, b: Byte): set<Byte> {
    set c: Byte | InRange(c, a, b)
  }

  /** What the format says at i; a zero ends it. */
  function FormatAt(format: seq<Byte>, i: nat): Byte { if i < |format| then format[i] else 0 }

  datatype SetParse = SetParse(chars: set<Byte>, at: nat)

  /** The members of a scan set from the character before position i on, and the position
      after the bracket or zero that ends it. */
  function SetRest(format: seq<Byte>, i: nat, chars: set<Byte>): (r: SetParse)
    requires 1 <= i <= |format| + 1
    ensures i <= r.at <= |format| + 1
    ensures FormatAt(format, r.at - 1) == 0 || FormatAt(format, r.at - 1) == ']' as int
    decreases |format| + 1 - i
  {
    var f := FormatAt(format, i - 1);
    if f == 0 || i == |format| + 1 || f == ']' as int then SetParse(chars, i)
    else if FormatAt(format, i) != '-' as int then SetRest(format, i + 1, chars + {f})
    else
      var last := FormatAt(format, i + 1);
      if last == 0 || last == ']' as int then SetParse(chars + {f, '-' as int}, i + 2)
      else SetRest(format, i + 3, chars + Range(f, last))
  }

  /** A bracket that comes first is a member. */
  function SetFrom(format: seq<Byte>, j: nat): (r: SetParse)
    requires 1 <= j <= |format| + 1
    ensures j <= r.at <= |format| + 1
  {
    if FormatAt(format, j - 1) == ']' as int then SetRest(format, j + 1, {']' as int}) else SetRest(format, j, {})
  }

  /** The set of a [ conversion whose bracket stands before position i, and the position
      after it. The end of the format is not skipped. */
  function SetAt(format: seq<Byte>, i: nat): (r: SetParse)
    requires 1 <= i <= |format|
    ensures i <= r.at <= |format|
  {
    var invert := FormatAt(format, i) == '^' as int;
    var j := if invert then i + 2 else i + 1;
    var rest := SetFrom(format, j);
    SetParse(if invert then set b: Byte | b !in rest.chars else rest.chars,
             if FormatAt(format, rest.at - 1) == 0 then rest.at - 1 else rest.at)
  }

  /** In a set without ranges every character stands for itself. */
  lemma {:induction false} PlainSet(format: seq<Byte>, i: nat, k: nat, chars: set<Byte>)
    requires 1 <= i <= k + 1 <= |format| && format[k] == ']' as int
    requires forall j :: i - 1 <= j < k ==> format[j] != 0 && format[j] != ']' as int && format[j] != '-' as int
    ensures SetRest(format, i, chars) == SetParse(chars + (set j | i - 1 <= j < k :: format[j]), k + 1)
    decreases k + 1 - i
  {
    if i - 1 < k {
      PlainSet(format, i + 1, k, chars + {format[i - 1]});
    }
  }

  // ----- conversion specifications

  /** What stands between the percent sign and the conversion character, and that character;
      at is the position after it. */
  datatype Spec = Spec(noAssign: bool, haveWidth: bool, width: Word, intBytes: nat, conversion: Byte, at: nat)

  function DigitsFrom(format: seq<Byte>, i: nat): (k: nat)
    requires i <= |format|
    ensures i <= k <= |format| && !IsDigit(FormatAt(format, k))
    decreases |format| - i
  {
    if i < |format| && IsDigit(format[i]) then DigitsFrom(format, i + 1) else i
  }

  /** The length modifier at i: the size it gives an integer, less one, and its end. */
  function ModifierAt(format: seq<Byte>, i: nat): (int, nat)
  {
    var f := FormatAt(format, i);
    if f == 'h' as int then if FormatAt(format, i + 1) == 'h' as int then (0, i + 2) else (1, i + 1)
    else if f == 'l' as int then (3, if FormatAt(format, i + 1) == 'l' as int then i + 2 else i + 1)
    else if f == 'j' as int then (3, i + 1)
    else if f == 'z' as int || f == 't' as int || f == 'L' as int then (1, i + 1)
    else (1, i)
  }

  /** The specification whose percent sign stands before position i. */
  function SpecAt(format: seq<Byte>, i: nat): Spec
    requires i <= |format|
    ensures var r := SpecAt(format, i); i < r.at <= |format| + 1 && FormatAt(format, r.at - 1) == r.conversion
  {
    var noAssign := FormatAt(format, i) == '*' as int;
    var j := if noAssign then i + 1 else i;
    var k := DigitsFrom(format, j);
    var (intBytes, m) := ModifierAt(format, k);
    var width := if j < k then Value(format[j..k], 10) % 0x1_0000 else 0xFFFF;
    Spec(noAssign, j < k, width, intBytes, FormatAt(format, m), m + 1)
  }

  lemma SpecParts(format: seq<Byte>, i: nat)
    requires i <= |format|
    ensures var noAssign := FormatAt(format, i) == '*' as int;
      var j := if noAssign then i + 1 else i;
      j <= |format| &&
      var k := DigitsFrom(format, j);
      var m := ModifierAt(format, k);
      SpecAt(format, i)
      == Spec(noAssign, j < k, if j < k then Value(format[j..k], 10) % 0x1_0000 else 0xFFFF,
              m.0, FormatAt(format, m.1), m.1 + 1)
  {
    hide Value, DigitsFrom, ModifierAt;
  }

  /** The number that is written for the width, if one is. */
  function WrittenWidth(format: seq<Byte>, i: nat): nat
    requires i <= |format|
  {
    var j := if FormatAt(format, i) == '*' as int then i + 1 else i;
    Value(format[j..DigitsFrom(format, j)], 10)
  }

  /** The width is the number written if and only if that is below 65536; it is refused, as
      if it were 0, if and only if that is a multiple of 65536. */
  lemma WidthExactly(format: seq<Byte>, i: nat)
    requires i <= |format| && SpecAt(format, i).haveWidth
    ensures SpecAt(format, i).width == WrittenWidth(format, i) <==> WrittenWidth(format, i) < 0x1_0000
    ensures SpecAt(format, i).width == 0 <==> WrittenWidth(format, i) % 0x1_0000 == 0
  {
    hide Value, DigitsFrom;
  }

  lemma WidthStep(format: seq<Byte>, j: nat, k: nat)
    requires j <= k < |format| && IsDigit(format[k])
    ensures (Value(format[j..k], 10) % 0x1_0000 * 10 + (format[k] - '0' as int)) % 0x1_0000
         == Value(format[j..k + 1], 10) % 0x1_0000
  {
    assert format[j..k + 1][..k - j] == format[j..k];
    TenTimes(Value(format[j..k], 10), HexVal(format[k]));
  }

  lemma TenTimes(v: nat, d: nat)
    ensures (v % 0x1_0000 * 10 + d) % 0x1_0000 == (v * 10 + d) % 0x1_0000
  {
    var q, r := v / 0x1_0000, v % 0x1_0000;
    assert v * 10 + d == r * 10 + d + 0x1_0000 * (10 * q);
    AddWords(r * 10 + d, 10 * q);
  }

  lemma AddWords(n: nat, k: nat)
    ensures (n + 0x1_0000 * k) % 0x1_0000 == n % 0x1_0000
  {
  }

  lemma {:induction false} DigitsFromStep(format: seq<Byte>, i: nat, j: nat)
    requires j <= i <= |format| && (forall n :: j <= n < i ==> IsDigit(format[n]))
    ensures DigitsFrom(format, j) == DigitsFrom(format, i)
    decreases i - j
  {
    if j < i {
      DigitsFromStep(format, i, j + 1);
    }
  }

  predicate IsInt(f: Byte) {
    || f == 'd' as int || f == 'u' as int || f == 'i' as int
    || f == 'o' as int || f == 'x' as int || f == 'X' as int
  }

  function BaseOf(f: Byte): nat {
    if f == 'd' as int || f == 'u' as int then 10
    else if f == 'i' as int then 0
    else if f == 'o' as int then 8
    else 16
  }

  /** Wide characters and floats are known but not implemented. */
  predicate IsMissing(f: Byte) {
    f == 'S' as int || f == 'C' as int || f == 'a' as int || f == 'A' as int || f == 'e' as int
    || f == 'E' as int || f == 'f' as int || f == 'F' as int || f == 'g' as int || f == 'G' as int
  }

  // ----- what each directive does

  /** Where a scan is: everything before here is consumed. */
  datatype Stage = Stage(here: nat, converted: bool, stored: seq<Stored>)

  /** The objects after a conversion that yields one, unless suppressed. */
  function Stores(a: Stage, spec: Spec, o: Stored): seq<Stored> {
    if spec.noAssign then a.stored else a.stored + [o]
  }

  function NextWord(input: seq<Byte>, here: nat): nat { RunEnd(input, here, |input|, WHITE) }

  /** White space, a sign and a prefix are skipped and the digits read up to the width. It is
      a failure if there are none, or a multiple of 256 of them. */
  predicate IntScanned(input: seq<Byte>, base: nat, spec: Spec, a: Stage, b: Stage, ok: bool) {
    var n := HeaderAt(input, NextWord(input, a.here), base);
    var end := RunEnd(input, n.from, spec.width, DigitOf(n.base));
    && n.from <= end <= |input|
    && (ok <==> (end - n.from) % 256 != 0)
    && b == Stage(end, a.converted || n.signed || n.prefixed || ok,
      if ok then Stores(a, spec, Integer(spec, n.negative, n.base, input[n.from..end])) else a.stored)
  }

  function Integer(spec: Spec, negative: bool, base: nat, digits: seq<Byte>): Stored {
    Number(spec.intBytes + 1, Truncate(Signed(negative, Value(digits, base)), spec.intBytes + 1))
  }

  /** %s: the next word, cut at the width; a failure when there is none. */
  predicate TextScanned(input: seq<Byte>, spec: Spec, a: Stage, b: Stage, ok: bool) {
    var h := NextWord(input, a.here);
    var end := RunEnd(input, h, spec.width, SOLID);
    && (ok <==> h < |input|)
    && if ok then h <= end <= |input| && b == Stage(end, true, Stores(a, spec, Text(input[h..end])))
       else b == Stage(|input|, a.converted, a.stored)
  }

  /** %c: as many characters as the width says, 1 without a width; a failure when the input
      ends before. */
  predicate CharsScanned(input: seq<Byte>, spec: Spec, a: Stage, b: Stage, ok: bool)
    requires a.here <= |input|
  {
    var n := if spec.haveWidth then spec.width else 1;
    && (ok <==> a.here + n <= |input|)
    && b == if ok then Stage(a.here + n, true, Stores(a, spec, Chars(input[a.here..a.here + n])))
            else if a.here == |input| then a
            else Stage(|input|, true, Stores(a, spec, Fragment(input[a.here..])))
  }

  /** %[: the longest run of members of the set; a failure when it is empty. */
  predicate SetScanned(input: seq<Byte>, chars: set<Byte>, spec: Spec, a: Stage, b: Stage, ok: bool) {
    var end := RunEnd(input, a.here, spec.width, OneOf(chars));
    && a.here <= end <= |input|
    && (ok <==> a.here < end)
    && b == if ok then Stage(end, true, Stores(a, spec, Text(input[a.here..end]))) else a
  }

  /** %p: 0x and hexadecimal digits. */
  predicate PointerScanned(input: seq<Byte>, spec: Spec, a: Stage, b: Stage, ok: bool) {
    var h := NextWord(input, a.here);
    var end := RunEnd(input, h + 2, spec.width, DigitOf(16));
    var zero := CharAt(input, h) == '0' as int;
    var x := CharAt(input, h + 1) == 'x' as int || CharAt(input, h + 1) == 'X' as int;
    if zero && x then
      && h + 2 <= end <= |input|
      && (ok <==> (end - h - 2) % 256 != 0)
      && b == Stage(end, true, if ok then Stores(a, spec, Integer(spec, false, 16, input[h + 2..end])) else a.stored)
    else !ok && b == Stage(if zero then h + 1 else h, a.converted || zero, a.stored)
  }

  /** How the walk over the format goes on. */
  datatype Outcome = Done | NoConv | Invalid | NotImplemented

  predicate Ended(out: Outcome, ok: bool) { out == if ok then Done else NoConv }

  /** What a conversion specification makes happen. The position of %n is counted from start. */
  predicate Performed(input: seq<Byte>, format: seq<Byte>, start: nat, spec: Spec, a: Stage, b: Stage, out: Outcome)
    requires start <= a.here <= |input| && 1 <= spec.at <= |format| + 1
    requires FormatAt(format, spec.at - 1) == spec.conversion
  {
    var f, ok := spec.conversion, out == Done;
    if spec.width == 0 then out == Invalid && b == a
    else if IsInt(f) then Ended(out, ok) && IntScanned(input, BaseOf(f), spec, a, b, ok)
    else if f == 's' as int then Ended(out, ok) && TextScanned(input, spec, a, b, ok)
    else if f == 'c' as int then Ended(out, ok) && CharsScanned(input, spec, a, b, ok)
    else if f == '[' as int then Ended(out, ok) && SetScanned(input, SetAt(format, spec.at).chars, spec, a, b, ok)
    else if f == 'p' as int then Ended(out, ok) && PointerScanned(input, spec, a, b, ok)
    else if f == 'n' as int then ok && b == a.(stored := Stores(a, spec, Counter(spec, a.here - start)))
    else out == (if IsMissing(f) then NotImplemented else Invalid) && b == a
  }

  function Counter(spec: Spec, count: nat): Stored {
    Number(spec.intBytes + 1, Truncate(count % 0x1_0000, spec.intBytes + 1))
  }

  /** Where the format goes on after a specification that has been performed. */
  function After(format: seq<Byte>, spec: Spec): (at: nat)
    requires 1 <= spec.at <= |format| + 1 && FormatAt(format, spec.at - 1) == spec.conversion
    ensures at >= spec.at
  {
    if spec.conversion == '[' as int then SetAt(format, spec.at).at else spec.at
  }

  /** What the directive at i makes happen; it ends at next. */
  predicate Directive(input: seq<Byte>, format: seq<Byte>, start: nat, i: nat, a: Stage, next: nat, b: Stage,
          out: Outcome)
    requires start <= a.here <= |input| && i < |format|
  {
    var f := format[i];
    if f != '%' as int && IsSpace(f) then out == Done && next == i + 1 && b == a.(here := NextWord(input, a.here))
    else if f != '%' as int || FormatAt(format, i + 1) == '%' as int then
      && Ended(out, CharAt(input, a.here) == f)
      && (out == Done ==> next == if f == '%' as int then i + 2 else i + 1)
      && b == if out == Done then a.(here := a.here + 1) else a
    else
      var spec := SpecAt(format, i + 1);
      && Performed(input, format, start, spec, a, b, out)
      && (out == Done ==> next == After(format, spec))
  }

  // ----- scanning what has been printed

  function Decimal(n: nat): seq<Byte> {
    (if n < 10 then [] else Decimal(n / 10)) + ['0' as int + n % 10]
  }

  lemma {:induction false} DecimalDigits(n: nat, size: nat)
    requires 0 < size && n < Ten(size)
    ensures 1 <= |Decimal(n)| <= size
    ensures forall i :: 0 <= i < |Decimal(n)| ==> IsDigit(Decimal(n)[i])
  {
    if n >= 10 {
      DecimalDigits(n / 10, size - 1);
    }
  }

  lemma {:induction false} DecimalValue(n: nat)
    ensures Value(Decimal(n), 10) == n
  {
    hide Value;
    if n >= 10 {
      DecimalValue(n / 10);
      ValueAppend(Decimal(n / 10), '0' as int + n % 10);
    } else {
      ValueEmpty([], 0, 10);
      ValueAppend([], '0' as int + n);
      assert Decimal(n) == [] + ['0' as int + n];
    }
  }

  lemma ValueAppend(s: seq<Byte>, c: Byte)
    requires IsDigit(c)
    ensures Value(s + [c], 10) == Value(s, 10) * 10 + (c - '0' as int)
  {
    assert (s + [c])[..|s|] == s;
  }

  function Ten(k: nat): nat { if k == 0 then 1 else 10 * Ten(k - 1) }

  function Printed(negative: bool, n: nat): seq<Byte> {
    if negative then ['-' as int] + Decimal(n) else Decimal(n)
  }

  /** A number in decimal that is followed by no digit scans back to itself under %ld, and
      nothing behind it is consumed. */
  lemma PrintedNumberScans(before: seq<Byte>, negative: bool, n: nat, rest: seq<Byte>, spec: Spec, a: Stage, b: Stage,
          ok: bool)
    requires n < 0x1_0000_0000 && !IsDigit(CharAt(rest, 0))
    requires spec.width >= 10 && spec.intBytes == 3 && a.here == |before|
    requires IntScanned(before + Printed(negative, n) + rest, 10, spec, a, b, ok)
    ensures ok && b.here == |before + Printed(negative, n)|
    ensures b.stored == Stores(a, spec, Number(4, if negative && n > 0 then 0x1_0000_0000 - n else n))
  {
    hide RunEnd, Value, DigitOf, HeaderAt, Decimal, IsDigit, Truncate, Signed;
    var p, d := before + Printed(negative, n), Decimal(n);
    var s := p + rest;
    var from := |p| - |d|;
    PrintedShape(before, negative, n, rest);
    DigitsEnd(s, from, |p|, spec.width);
    assert s[from..|p|] == d;
    DecimalValue(n);
    SmallSigned(negative, n);
  }

  lemma SmallSigned(negative: bool, n: nat)
    requires n < 0x1_0000_0000
    ensures Truncate(Signed(negative, n), 4) == if negative && n > 0 then 0x1_0000_0000 - n else n
  {
  }

  /** A printed number is a sign, if negative, and at most ten digits. */
  lemma PrintedShape(before: seq<Byte>, negative: bool, n: nat, rest: seq<Byte>)
    requires n < 0x1_0000_0000 && !IsDigit(CharAt(rest, 0))
    ensures var p, d := before + Printed(negative, n), Decimal(n);
      var s, from := p + rest, |p| - |d|;
      && NextWord(s, |before|) == |before| && 1 <= |d| <= 10 && |before| <= from
      && HeaderAt(s, |before|, 10) == Header(negative, negative, false, 10, from)
      && (forall i :: from <= i < |p| ==> IsDigit(s[i]))
      && !IsDigit(CharAt(s, |p|))
  {
    hide RunEnd, Decimal;
    var p, d := before + Printed(negative, n), Decimal(n);
    var s := p + rest;
    TenTen();
    DecimalDigits(n, 10);
    assert forall i :: |p| - |d| <= i < |p| ==> s[i] == d[i - (|p| - |d|)];
    WordHere(s, |before|);
  }

  /** The eight-bit count of digits: 256 zeros are no number. */
  lemma ManyZeros(input: seq<Byte>, spec: Spec, a: Stage, b: Stage, ok: bool)
    requires input == seq(256, _ => '0' as int) && spec.width == 0xFFFF && a.here == 0
    requires IntScanned(input, 10, spec, a, b, ok)
    ensures !ok && b.here == 256 && b.stored == a.stored
  {
    hide RunEnd, Value;
    WordHere(input, 0);
    DigitsEnd(input, 0, 256, spec.width);
  }

  lemma TenTen()
    ensures Ten(10) == 10_000_000_000
  {
    assert Ten(5) == 100_000;
    assert Ten(10) == 100_000 * Ten(5);
  }

  lemma WordHere(s: seq<Byte>, i: nat)
    requires i < |s| && !IsSpace(s[i])
    ensures NextWord(s, i) == i
  {
  }

  lemma DigitsEnd(s: seq<Byte>, from: nat, end: nat, limit: nat)
    requires from <= end <= |s| && end - from <= limit && !IsDigit(CharAt(s, end))
    requires forall i :: from <= i < end ==> IsDigit(s[i])
    ensures RunEnd(s, from, limit, DigitOf(10)) == end
  {
    LongestIsRunEnd(s, from, end, limit, DigitOf(10));
  }

  /** The character 127 is white space to the character table: %s skips it. */
  lemma DeleteIsSkipped(input: seq<Byte>, spec: Spec, a: Stage, b: Stage, ok: bool)
    requires input == [127, 'a' as int] && spec.width >= 1 && a.here == 0
    requires TextScanned(input, spec, a, b, ok)
    ensures ok && b == Stage(2, true, Stores(a, spec, Text(['a' as int])))
  {
    LongestIsRunEnd(input, 0, 1, 2, WHITE);
    LongestIsRunEnd(input, 1, 2, spec.width, SOLID);
    assert input[1..2] == ['a' as int];
  }

  /** A width of 65536 makes a specification invalid; nothing is read. */
  lemma Width65536(input: seq<Byte>, format: seq<Byte>, start: nat, a: Stage, next: nat, b: Stage, out: Outcome)
    requires format == ['%' as int, '6' as int, '5' as int, '5' as int, '3' as int, '6' as int, 'd' as int]
    requires start <= a.here <= |input| && Directive(input, format, start, 0, a, next, b, out)
    ensures out == Invalid && b == a
  {
    hide Value;
    assert DigitsFrom(format, 1) == 6 by {
      assert DigitsFrom(format, 6) == 6;
      DigitsFromStep(format, 6, 1);
    }
    assert format[1..6] == ['6' as int, '5' as int, '5' as int, '3' as int, '6' as int];
    FiveDigits(['6' as int, '5' as int, '5' as int, '3' as int, '6' as int]);
    WidthExactly(format, 1);
  }

  lemma FiveDigits(s: seq<Byte>)
    requires |s| == 5 && forall i :: 0 <= i < 5 ==> IsDigit(s[i])
    ensures Value(s, 10) == s[4] + 10 * s[3] + 100 * s[2] + 1000 * s[1] + 10_000 * s[0] - 11_111 * '0' as int
  {
    hide Value;
    ValueEmpty([], 0, 10);
    ValueAppend([], s[0]);
    ValueAppend([s[0]], s[1]);
    ValueAppend([s[0], s[1]], s[2]);
    ValueAppend([s[0], s[1], s[2]], s[3]);
    ValueAppend([s[0], s[1], s[2], s[3]], s[4]);
    assert s == [s[0], s[1], s[2], s[3]] + [s[4]];
    assert [] + [s[0]] == [s[0]] && [s[0]] + [s[1]] == [s[0], s[1]];
    assert [s[0], s[1]] + [s[2]] == [s[0], s[1], s[2]];
    assert [s[0], s[1], s[2]] + [s[3]] == [s[0], s[1], s[2], s[3]];
  }

  /** A point of a run: the position in the format and the stage reached. */
  datatype Point = Point(at: nat, stage: Stage)

  /** From the start of the format, each point comes from the one before by one directive. */
  predicate IsRun(input: seq<Byte>, format: seq<Byte>, start: nat, run: seq<Point>) {
    && |run| > 0 && run[0] == Point(0, Stage(start, false, []))
    && (forall k :: 0 <= k < |run| ==> start <= run[k].stage.here <= |input| && run[k].at <= |format|)
    && (forall k :: 0 <= k < |run| - 1 ==> GoesOn(input, format, start, run[k], run[k + 1]))
  }

  predicate GoesOn(input: seq<Byte>, format: seq<Byte>, start: nat, p: Point, q: Point)
    requires start <= p.stage.here <= |input| && p.at <= |format|
  {
    FormatAt(format, p.at) != 0 && Directive(input, format, start, p.at, p.stage, q.at, q.stage, Done)
  }

  /** A run is over at the end of the format or with the first directive that fails. */
  ghost predicate Finishes(input: seq<Byte>, format: seq<Byte>, start: nat, p: Point, end: Stage, out: Outcome) {
    && start <= p.stage.here <= |input| && p.at <= |format|
    && if FormatAt(format, p.at) == 0 then out == Done && end == p.stage
       else out != Done && exists next :: Directive(input, format, start, p.at, p.stage, next, end, out)
  }

  lemma NothingStored(input: seq<Byte>, start: nat)
    requires start <= |input|
    ensures Faithful([], [], input, start, start) && Tally([], []) == 0
  {
  }

  // ----- the scanner

  datatype Errno = ENONE | EINVAL | ENOSYS

  class Scanner {
    const input: seq<Byte>
    const format: seq<Byte>
    /** How far the stream has been read; an unget takes one back. */
    var pos: nat
    /** Where it was when the scan began. */
    ghost var start: nat
    /** The position in the format, and F, the character before it. */
    var at: nat
    var f: Byte
    var charCount: Word
    var c: int
    var width: Word
    var intVal: nat
    var assignments: int
    var intBytes: nat
    var converted: bool
    var positive: bool
    var noAssign: bool
    var charSet: set<Byte>
    /** What has been written through the pointer arguments, and from where. */
    var stored: seq<Stored>
    ghost var sources: seq<Source>

    /** Characters are conserved: the count is how far the stream has moved. */
    ghost predicate Counted()
      reads this
    {
      start <= pos <= |input| && charCount == (pos - start) % 0x1_0000
    }

    /** C is the character before the stream's position, or the stream has ended. */
    ghost predicate Ahead()
      reads this
    {
      && Counted()
      && if c == EOF then pos == |input| else pos > start && c == input[pos - 1]
    }

    /** Where the scan is: everything before has been consumed. */
    ghost function Here(): nat
      reads this
      requires Ahead()
    {
      if c == EOF then pos else pos - 1
    }

    /** F is the character before the position in the format. */
    ghost predicate InFormat()
      reads this
    {
      1 <= at <= |format| + 1 && f == FormatAt(format, at - 1)
    }

    /** The objects stored so far are read off the input, and their number is right. */
    ghost predicate Honest()
      reads this
    {
      Ahead() && Faithful(stored, sources, input, start, Here()) && assignments == Tally(stored, sources)
    }

    constructor (input: seq<Byte>, format: seq<Byte>)
      ensures this.input == input && this.format == format && pos == 0
    {
      this.input, this.format := input, format;
      pos, start, at, f, charCount, c, width, intVal := 0, 0, 0, 0, 0, EOF, 0, 0;
      assignments, intBytes, converted, positive, noAssign := 0, 1, false, true, false;
      charSet, stored, sources := {}, [], [];
    }

    method ReadChar()
      requires Counted()
      modifies this`pos, this`c, this`charCount
      ensures Ahead() && Here() == old(pos) && c == CharAt(input, old(pos))
    {
      if pos < |input| {
        c := input[pos];
        pos := pos + 1;
        charCount := (charCount + 1) % 0x1_0000;
      } else {
        c := EOF;
      }
    }

    /** Gives the character read ahead back, unless it is EOF. */
    method PushBack()
      requires Ahead()
      modifies this`pos, this`charCount
      ensures Counted() && pos == old(Here())
    {
      if c != EOF {
        pos := pos - 1;
        charCount := (charCount + 0xFFFF) % 0x1_0000;
      }
    }

    method SkipWhite()
      requires Ahead()
      modifies this`pos, this`c, this`charCount
      ensures Ahead() && Here() == RunEnd(input, old(Here()), |input|, WHITE)
    {
      ghost var h := Here();
      while IsSpace(c)
        invariant Ahead() && h <= Here() && forall j :: h <= j < Here() ==> WHITE(input[j])
        decreases |input| - Here()
      {
        ReadChar();
      }
      LongestIsRunEnd(input, h, Here(), |input|, WHITE);
    }

    method ReadSign()
      requires Ahead()
      modifies this`pos, this`c, this`charCount, this`converted, this`positive
      ensures Ahead()
      ensures var h := HeaderAt(input, old(Here()), 10);
        Here() == h.from && positive == !h.negative && converted == (old(converted) || h.signed)
    {
      if c == '-' as int {
        converted := true;
        ReadChar();
        positive := false;
      } else {
        if c == '+' as int {
          converted := true;
          ReadChar();
        }
        positive := true;
      }
    }

    /** One more digit of the number that began at h. */
    method TakeDigit(base: nat, ghost h: nat)
      requires Ahead() && IsXDigit(c) && h <= Here() && base <= 16
      requires intVal == Value(input[h..Here()], base) % 0x1_0000_0000
      modifies this`pos, this`c, this`charCount, this`intVal
      ensures Ahead() && Here() == old(Here()) + 1
      ensures intVal == Value(input[h..Here()], base) % 0x1_0000_0000
    {
      hide Value;
      ValueStep(input, h, Here(), base);
      intVal := (intVal * base + HexVal(c)) % 0x1_0000_0000;
      ReadChar();
    }

    /** The digits up to the field width. Their number is counted in eight bits, so a run
        of 256 digits is taken for none. */
    method ReadInt(base: nat) returns (ok: bool)
      requires Ahead() && 8 <= base <= 16
      modifies this`pos, this`c, this`charCount, this`width, this`intVal, this`converted
      ensures Ahead() && Here() == RunEnd(input, old(Here()), 0xFFFF - old(width), DigitOf(base))
      ensures Here() >= old(Here())
      ensures intVal == Value(input[old(Here())..Here()], base) % 0x1_0000_0000
      ensures ok <==> (Here() - old(Here())) % 256 != 0
      ensures converted == (old(converted) || ok)
    {
      hide Value, RunEnd, DigitOf, LowByte, IsXDigit;
      LowByteIs(0);
      ghost var h, end := Here(), RunEnd(input, Here(), 0xFFFF - width, DigitOf(base));
      ghost var given := converted;
      var count := 0;
      intVal := 0;
      ValueEmpty(input, h, base);
      while true
        invariant Ahead() && h <= Here() && converted == given && count == LowByte(Here() - h)
        invariant end == RunEnd(input, Here(), 0xFFFF - width, DigitOf(base))
        invariant intVal == Value(input[h..Here()], base) % 0x1_0000_0000
        decreases |input| - Here()
      {
        var more := NextDigit(base);
        if !more {
          break;
        }
        LowByteStep(Here() - h);
        count := (count + 1) % 256;
        TakeDigit(base, h);
      }
      assert count == (Here() - h) % 256 by { LowByteIs(Here() - h); }
      ok := count != 0;
      if ok {
        converted := true;
      }
    }

    /** Whether the character ahead is a digit the width has room for, which is then
        used up. */
    method NextDigit(base: nat) returns (more: bool)
      requires Ahead() && 8 <= base <= 16
      modifies this`width
      ensures var end := RunEnd(input, Here(), 0xFFFF - old(width), DigitOf(base));
        if more
        then IsXDigit(c) && Here() < |input| && end == RunEnd(input, Here() + 1, 0xFFFF - width, DigitOf(base))
        else end == Here()
    {
      hide RunEnd, DigitOf;
      RunStep(input, Here(), 0xFFFF - width, base);
      if !IsXDigit(c) {
        return false;
      }
      width := (width + 1) % 0x1_0000;
      if width == 0 {
        return false;
      }
      var val := HexVal(c);
      return val < base;
    }

    /** Stores the low bytes of the integer, unless suppressed. */
    method AssignInt(ghost source: Source, ghost before: nat)
      requires Ahead() && Faithful(stored, sources, input, start, before) && assignments == Tally(stored, sources)
      requires ReadOff(Number(intBytes + 1, Truncate(intVal, intBytes + 1)), source, input, start)
      requires before <= source.from && source.end <= Here() && before <= Here()
      modifies this`stored, this`sources, this`assignments
      ensures Faithful(stored, sources, input, start, Here())
      ensures assignments == old(assignments) + if noAssign then 0 else 1
      ensures Tally(stored, sources) == old(assignments) + if noAssign || source.Position? then 0 else 1
      ensures stored == old(stored) + (if noAssign then [] else [Number(intBytes + 1, Truncate(intVal, intBytes + 1))])
    {
      hide Faithful, ReadOff, Tally, Truncate;
      if noAssign {
        FaithfulLater(stored, sources, input, start, before, Here());
      } else {
        Store(Number(intBytes + 1, Truncate(intVal, intBytes + 1)), source, before);
        assignments := assignments + 1;
      }
    }

    /** Writes one object through the next pointer argument. */
    method Store(o: Stored, ghost source: Source, ghost before: nat)
      requires Ahead() && Faithful(stored, sources, input, start, before)
      requires ReadOff(o, source, input, start) && before <= source.from && source.end <= Here()
      modifies this`stored, this`sources
      ensures stored == old(stored) + [o] && sources == old(sources) + [source]
      ensures Faithful(stored, sources, input, start, Here())
      ensures Tally(stored, sources) == old(Tally(stored, sources)) + if Counts(o, source) then 1 else 0
    {
      hide Faithful, ReadOff, Tally;
      assert |stored| == |sources| by { SameNumber(stored, sources, input, start, before); }
      FaithfulStep(stored, sources, input, start, before, o, source, Here());
      TallyStep(stored, sources, o, source);
      stored := stored + [o];
      sources := sources + [source];
    }

    /** The base of the number, from its prefix if it is not known. */
    method FindBase(base: nat) returns (known: nat)
      requires Ahead() && base <= 16 && (base == 0 || base >= 8)
      modifies this`pos, this`c, this`charCount, this`converted
      ensures Ahead()
      ensures known == PrefixAt(input, old(Here()), base).base && 8 <= known <= 16
      ensures Here() == PrefixAt(input, old(Here()), base).from
      ensures converted == (old(converted) || PrefixAt(input, old(Here()), base).prefixed)
    {
      if base != 0 {
        return base;
      } else if c != '0' as int {
        return 10;
      }
      ReadChar();
      if c == 'x' as int || c == 'X' as int {
        converted := true;
        ReadChar();
        return 16;
      }
      PushBack();
      c := '0' as int;
      return 8;
    }

    /** The position of the digits of the number that comes next. */
    ghost function Coming(base: nat): Header
      reads this
      requires Ahead()
    {
      HeaderAt(input, RunEnd(input, Here(), |input|, WHITE), base)
    }

    /** White space, a sign, a base prefix and digits become an integer. */
    method ReadNumber(base: nat) returns (ok: bool)
      requires Ahead() && base <= 16 && (base == 0 || base >= 8)
      modifies this`pos, this`c, this`charCount, this`width, this`intVal, this`converted, this`positive
      ensures Ahead()
      ensures var n := old(Coming(base));
        && Here() == RunEnd(input, n.from, 0xFFFF - old(width), DigitOf(n.base))
        && n.from <= Here()
        && (ok <==> (Here() - n.from) % 256 != 0)
        && converted == (old(converted) || n.signed || n.prefixed || ok)
        && (ok ==> intVal == Signed(n.negative, Value(input[n.from..Here()], n.base)))
    {
      hide Value, RunEnd, DigitOf, HeaderAt, PrefixAt, Signed;
      ghost var n := Coming(base);
      NumberBounds(input, Here(), base);
      SkipWhite();
      ghost var h := Here();
      ReadSign();
      HeaderSplit(input, h, base);
      var known := FindBase(base);
      ok := ReadInt(known);
      SignedIs(Value(input[n.from..Here()], n.base));
      if ok && !positive {
        intVal := (0x1_0000_0000 - intVal) % 0x1_0000_0000;
      }
    }

    ghost function Now(): Stage
      reads this
      requires Ahead()
    {
      Stage(Here(), converted, stored)
    }

    /** The fields that steer a conversion are those of its specification. */
    ghost predicate Follows(spec: Spec)
      reads this
    {
      noAssign == spec.noAssign && intBytes == spec.intBytes && width == 0xFFFF - spec.width
    }

    /** The integer conversions. */
    method ScanInt(base: nat, ghost spec: Spec) returns (ok: bool)
      requires Honest() && Follows(spec) && base <= 16 && (base == 0 || base >= 8)
      modifies this`pos, this`c, this`charCount, this`width, this`intVal, this`converted, this`positive
      modifies this`stored, this`sources, this`assignments
      ensures Honest() && old(Here()) <= Here()
      ensures IntScanned(input, base, spec, old(Now()), Now(), ok)
    {
      hide Faithful, Tally, ReadOff, Value, RunEnd, Truncate, DigitOf, HeaderAt, PrefixAt, Signed;
      ghost var before, n, limit := Here(), Coming(base), 0xFFFF - width;
      NumberBounds(input, before, base);
      ok := ReadNumber(base);
      if ok {
        DigitsReadOff(input, start, n.negative, n.base, n.from, limit, intBytes + 1);
        AssignInt(Digits(n.negative, n.base, n.from, Here()), before);
      } else {
        FaithfulLater(stored, sources, input, start, before, Here());
      }
    }

    /** Reads characters with property p up to the width, which the caller hands in. */
    method ReadRun(p: int -> bool) returns (text: seq<Byte>)
      requires Ahead() && !p(EOF)
      modifies this`pos, this`c, this`charCount, this`width
      ensures Ahead() && Here() == RunEnd(input, old(Here()), 0xFFFF - old(width), p)
      ensures old(Here()) <= Here() && text == input[old(Here())..Here()]
    {
      hide RunEnd;
      ghost var h, end := Here(), RunEnd(input, Here(), 0xFFFF - width, p);
      text := [];
      while true
        invariant Ahead() && h <= Here() && text == input[h..Here()]
        invariant end == RunEnd(input, Here(), 0xFFFF - width, p)
        decreases |input| - Here()
      {
        RunEndStep(input, Here(), 0xFFFF - width, p);
        if !p(c) {
          break;
        }
        width := (width + 1) % 0x1_0000;
        if width == 0 {
          break;
        }
        text := text + [c];
        ReadChar();
      }
    }

    /** %s */
    method ScanText(ghost spec: Spec) returns (ok: bool)
      requires Honest() && Follows(spec)
      modifies this`pos, this`c, this`charCount, this`width, this`converted
      modifies this`stored, this`sources, this`assignments
      ensures Honest() && old(Here()) <= Here()
      ensures TextScanned(input, spec, old(Now()), Now(), ok)
    {
      hide Faithful, Tally, RunEnd, ReadOff;
      ghost var before := Here();
      NumberBounds(input, before, 10);
      SkipWhite();
      FaithfulLater(stored, sources, input, start, before, Here());
      if c == EOF {
        return false;
      }
      converted := true;
      ghost var h := Here();
      var text := ReadRun(SOLID);
      AssignText(Text(text), h);
      ok := true;
    }

    /** A string read from h up to here goes through the next pointer, unless suppressed. */
    method AssignText(o: Stored, ghost h: nat)
      requires Ahead() && start <= h <= Here() && Faithful(stored, sources, input, start, h)
      requires assignments == Tally(stored, sources)
      requires !o.Number? && o.chars == input[h..Here()]
      modifies this`stored, this`sources, this`assignments
      ensures Honest() && stored == if noAssign then old(stored) else old(stored) + [o]
    {
      hide Faithful, Tally, ReadOff;
      if noAssign {
        FaithfulLater(stored, sources, input, start, h, Here());
      } else {
        LettersReadOff(o, h, Here(), input, start);
        Store(o, Letters(h, Here()), h);
        if !o.Fragment? {
          assignments := assignments + 1;
        }
      }
    }

    /** As many characters as the width says, as far as there are so many. */
    method TakeChars() returns (ok: bool, text: seq<Byte>)
      requires Ahead()
      modifies this`pos, this`c, this`charCount, this`width
      ensures Ahead() && old(Here()) <= Here() && text == input[old(Here())..Here()]
      ensures var n := 0xFFFF - old(width);
        && (ok <==> old(Here()) + n <= |input|)
        && Here() == if ok then old(Here()) + n else |input|
    {
      ghost var h, n := Here(), 0xFFFF - width;
      text := [];
      while true
        invariant Ahead() && h <= Here() <= h + n && width == 0xFFFF - n + (Here() - h)
        invariant text == input[h..Here()]
        decreases h + n - Here()
      {
        width := (width + 1) % 0x1_0000;
        if width == 0 {
          return true, text;
        }
        if c == EOF {
          return false, text;
        }
        text := text + [c];
        ReadChar();
      }
    }

    /** %c */
    method ScanChars(haveWidth: bool, ghost spec: Spec) returns (ok: bool)
      requires Honest() && Follows(spec) && haveWidth == spec.haveWidth && spec.width > 0
      modifies this`pos, this`c, this`charCount, this`width, this`converted
      modifies this`stored, this`sources, this`assignments
      ensures Honest() && old(Here()) <= Here()
      ensures CharsScanned(input, spec, old(Now()), Now(), ok)
    {
      hide Faithful, Tally, ReadOff;
      if !haveWidth {
        width := 0xFFFE;
      }
      if c == EOF {
        return false;
      }
      converted := true;
      ghost var h := Here();
      var text;
      ok, text := TakeChars();
      assert !ok ==> input[h..Here()] == input[h..];
      AssignText(if ok then Chars(text) else Fragment(text), h);
    }

    method GetFormat()
      requires at <= |format|
      modifies this`at, this`f
      ensures InFormat() && at == old(at) + 1
    {
      f := FormatAt(format, at);
      at := at + 1;
    }

    /** Adds first, first + 1, .. to the set until F has been added. */
    method AddRange(first: Byte)
      modifies this`charSet
      ensures charSet == old(charSet) + Range(first, f)
    {
      var next: Byte := first;
      while true
        invariant InRange(next, first, f)
        invariant charSet == old(charSet) + set b: Byte | InRange(b, first, f) && b != next && !InRange(b, next, f)
        decreases (f - next) % 256
      {
        charSet := charSet + {next};
        if next == f {
          break;
        }
        next := (next as int + 1) % 256;
      }
    }

    /** One character or range of a scan set. */
    method ReadMember()
      requires InFormat() && f != 0 && f != ']' as int
      modifies this`at, this`f, this`charSet
      ensures InFormat() && old(at) < at
      ensures SetRest(format, old(at), old(charSet)) == SetRest(format, at, charSet)
    {
      if FormatAt(format, at) == '-' as int {
        var first := f;
        at := at + 1;
        GetFormat();
        if f == 0 || f == ']' as int {
          charSet := charSet + {first, '-' as int};
        } else {
          AddRange(first);
          GetFormat();
        }
      } else {
        charSet := charSet + {f};
        GetFormat();
      }
    }

    method ReadMembers()
      requires InFormat()
      modifies this`at, this`f, this`charSet
      ensures InFormat() && (f == 0 || f == ']' as int)
      ensures SetRest(format, old(at), old(charSet)) == SetParse(charSet, at)
    {
      ghost var parse := SetRest(format, at, charSet);
      while f != 0 && f != ']' as int
        invariant InFormat() && parse == SetRest(format, at, charSet)
        decreases |format| + 1 - at
      {
        ReadMember();
      }
    }

    /** The members of a set up to the closing bracket, which may come first as a member. */
    method ReadPlainSet()
      requires InFormat()
      modifies this`at, this`f, this`charSet
      ensures InFormat() && SetFrom(format, old(at)) == SetParse(charSet, at)
    {
      hide SetRest;
      charSet := {};
      if f == ']' as int {
        charSet := charSet + {f};
        assert charSet == {']' as int};
        GetFormat();
      }
      ReadMembers();
    }

    /** The set of a [ conversion. */
    method ReadSet()
      requires InFormat() && f != 0
      modifies this`at, this`f, this`charSet
      ensures at == SetAt(format, old(at)).at && charSet == SetAt(format, old(at)).chars
    {
      hide SetFrom;
      GetFormat();
      var invert := f == '^' as int;
      if invert {
        GetFormat();
      }
      ReadPlainSet();
      if f == 0 {
        at := at - 1;
      }
      if invert {
        charSet := set b: Byte | b !in charSet;
      }
    }

    /** %[ */
    method ScanSet(ghost spec: Spec) returns (ok: bool)
      requires Honest() && Follows(spec) && InFormat() && f != 0
      modifies this`at, this`f, this`charSet
      modifies this`pos, this`c, this`charCount, this`width, this`converted
      modifies this`stored, this`sources, this`assignments
      ensures Honest() && old(Here()) <= Here() && at == SetAt(format, old(at)).at
      ensures SetScanned(input, SetAt(format, old(at)).chars, spec, old(Now()), Now(), ok)
    {
      hide Faithful, Tally, RunEnd, SetAt, ReadOff;
      ghost var h := Here();
      ReadSet();
      var text := ReadRun(OneOf(charSet));
      ok := text != [];
      if ok {
        converted := true;
        AssignText(Text(text), h);
      }
    }

    /** %p */
    method ScanPointer(ghost spec: Spec) returns (ok: bool)
      requires Honest() && Follows(spec)
      modifies this`pos, this`c, this`charCount, this`width, this`intVal, this`converted
      modifies this`stored, this`sources, this`assignments
      ensures Honest() && old(Here()) <= Here()
      ensures PointerScanned(input, spec, old(Now()), Now(), ok)
    {
      hide Faithful, Tally, RunEnd, DigitOf, Integer;
      ghost var before := Here();
      NumberBounds(input, before, 16);
      SkipWhite();
      ghost var h := Here();
      FaithfulLater(stored, sources, input, start, before, Here());
      if c != '0' as int {
        return false;
      }
      converted := true;
      ReadChar();
      FaithfulLater(stored, sources, input, start, h, Here());
      if c != 'x' as int && c != 'X' as int {
        return false;
      }
      ReadChar();
      ok := ScanHex(h, spec);
    }

    method ScanHex(ghost before: nat, ghost spec: Spec) returns (ok: bool)
      requires Ahead() && Follows(spec) && start <= before <= Here()
      requires Faithful(stored, sources, input, start, before) && assignments == Tally(stored, sources)
      modifies this`pos, this`c, this`charCount, this`width, this`intVal, this`converted
      modifies this`stored, this`sources, this`assignments
      ensures Honest() && old(Here()) <= Here()
      ensures Here() == RunEnd(input, old(Here()), spec.width, DigitOf(16))
      ensures ok <==> (Here() - old(Here())) % 256 != 0
      ensures converted == (old(converted) || ok)
      ensures stored ==
        if ok then Stores(old(Now()), spec, Integer(spec, false, 16, input[old(Here())..Here()])) else old(stored)
    {
      hide Faithful, Tally, RunEnd, ReadOff, Value, Truncate, DigitOf, Signed;
      ghost var from, limit := Here(), 0xFFFF - width;
      ok := ReadInt(16);
      if ok {
        PositiveIs(input, from, Here());
        DigitsReadOff(input, start, false, 16, from, limit, intBytes + 1);
        AssignInt(Digits(false, 16, from, Here()), before);
      } else {
        FaithfulLater(stored, sources, input, start, before, Here());
      }
    }

    /** %n */
    method StoreCount(ghost spec: Spec)
      requires Honest() && Follows(spec)
      modifies this`intVal, this`stored, this`sources, this`assignments
      ensures Honest()
      ensures Now() == old(Now()).(stored := Stores(old(Now()), spec, Counter(spec, Here() - start)))
    {
      hide Faithful, Tally, Truncate;
      intVal := (charCount + if c == EOF then 0 else 0xFFFF) % 0x1_0000;
      assert intVal == (Here() - start) % 0x1_0000 by { OneLess(pos - start, if c == EOF then 0 else 1); }
      AssignInt(Position(Here(), Here()), Here());
      if !noAssign {
        assignments := assignments - 1;
      }
    }

    /** The suppression mark, the field width and the length modifier. */
    method ReadSpec() returns (haveWidth: bool)
      requires InFormat()
      modifies this`at, this`f, this`noAssign, this`width, this`intBytes
      ensures InFormat() && old(at) <= at
      ensures Spec(noAssign, haveWidth, width, intBytes, f, at) == SpecAt(format, old(at) - 1)
    {
      hide Value, DigitsFrom, ModifierAt, SpecAt;
      SpecParts(format, at - 1);
      noAssign := f == '*' as int;
      if noAssign {
        GetFormat();
      }
      haveWidth := ReadWidth();
      ReadModifier();
    }

    /** The field width, in 16 bits; the largest if there is none. */
    method ReadWidth() returns (haveWidth: bool)
      requires InFormat()
      modifies this`at, this`f, this`width
      ensures InFormat() && at == DigitsFrom(format, old(at) - 1) + 1
      ensures haveWidth <==> old(at) < at
      ensures width == if haveWidth then Value(format[old(at) - 1..at - 1], 10) % 0x1_0000 else 0xFFFF
    {
      hide Value, HexVal;
      ghost var j := at - 1;
      width := 0xFFFF;
      haveWidth := IsDigit(f);
      if haveWidth {
        width := 0;
        ValueEmpty(format, j, 10);
        while IsDigit(f)
          invariant InFormat() && j <= at - 1 && (at - 1 == j ==> IsDigit(f))
          invariant width == Value(format[j..at - 1], 10) % 0x1_0000
          invariant DigitsFrom(format, j) == DigitsFrom(format, at - 1)
          decreases |format| + 1 - at
        {
          WidthStep(format, j, at - 1);
          width := (width * 10 + (f - '0' as int)) % 0x1_0000;
          GetFormat();
        }
      }
    }

    method ReadModifier()
      requires InFormat()
      modifies this`at, this`f, this`intBytes
      ensures InFormat() && old(at) <= at
      ensures var m := ModifierAt(format, old(at) - 1); intBytes == m.0 && at == m.1 + 1
    {
      intBytes := 1;
      if f == 'h' as int {
        if FormatAt(format, at) == 'h' as int {
          intBytes := 0;
          at := at + 1;
        }
        GetFormat();
      } else if f == 'l' as int || f == 'j' as int || f == 'z' as int || f == 't' as int || f == 'L' as int {
        if f == 'l' as int && FormatAt(format, at) == 'l' as int {
          at := at + 1;
        }
        if f == 'l' as int || f == 'j' as int {
          intBytes := 3;
        }
        GetFormat();
      }
    }

    /** A conversion specification, from the character after the percent sign on. */
    method Convert() returns (out: Outcome)
      requires Honest() && InFormat()
      modifies this`at, this`f, this`noAssign, this`width, this`intBytes, this`charSet
      modifies this`pos, this`c, this`charCount, this`intVal, this`converted, this`positive
      modifies this`stored, this`sources, this`assignments
      ensures Honest() && old(Here()) <= Here()
      ensures Performed(input, format, start, SpecAt(format, old(at) - 1), old(Now()), Now(), out)
      ensures out == Done ==> at == After(format, SpecAt(format, old(at) - 1)) <= |format|
    {
      hide Faithful, Tally, SpecAt, SetAt, IntScanned, TextScanned, CharsScanned, SetScanned, PointerScanned;
      ghost var spec := SpecAt(format, at - 1);
      var haveWidth := ReadSpec();
      if width == 0 {
        return Invalid;
      }
      width := 0xFFFF - width;
      var ok := true;
      if IsInt(f) {
        ok := ScanInt(BaseOf(f), spec);
      } else if f == 's' as int {
        ok := ScanText(spec);
      } else if f == 'c' as int {
        ok := ScanChars(haveWidth, spec);
      } else if f == '[' as int {
        ok := ScanSet(spec);
      } else if f == 'p' as int {
        ok := ScanPointer(spec);
      } else if f == 'n' as int {
        StoreCount(spec);
      } else {
        return if IsMissing(f) then NotImplemented else Invalid;
      }
      out := if ok then Done else NoConv;
    }

    /** The character ahead must be F. */
    method Match() returns (ok: bool)
      requires Honest() && f != 0
      modifies this`pos, this`c, this`charCount
      ensures Honest() && (ok <==> CharAt(input, old(Here())) == f)
      ensures Here() == if ok then old(Here()) + 1 else old(Here())
    {
      hide Faithful, Tally;
      ghost var h := Here();
      ok := c == f;
      if ok {
        ReadChar();
        FaithfulLater(stored, sources, input, start, h, Here());
      }
    }

    /** One directive of the format. */
    method Step() returns (out: Outcome)
      requires Honest() && InFormat() && f != 0
      modifies this`at, this`f, this`noAssign, this`width, this`intBytes, this`charSet
      modifies this`pos, this`c, this`charCount, this`intVal, this`converted, this`positive
      modifies this`stored, this`sources, this`assignments
      ensures Honest() && old(Here()) <= Here()
      ensures Directive(input, format, start, old(at) - 1, old(Now()), at, Now(), out)
      ensures out == Done ==> old(at) <= at <= |format|
    {
      hide Faithful, Tally, Performed, RunEnd, SpecAt, After;
      ghost var h := Here();
      if f != '%' as int {
        if IsSpace(f) {
          NumberBounds(input, h, 10);
          SkipWhite();
          FaithfulLater(stored, sources, input, start, h, Here());
          return Done;
        }
      } else {
        GetFormat();
        if f != '%' as int {
          out := Convert();
          return;
        }
      }
      var ok := Match();
      out := if ok then Done else NoConv;
    }

    /** The walk over the format: a run of directives, each from where the last one ended. */
    method Walk() returns (out: Outcome, ghost run: seq<Point>)
      requires Counted() && pos == start && stored == [] && sources == [] && assignments == 0 && !converted && at == 0
      modifies this`at, this`f, this`noAssign, this`width, this`intBytes, this`charSet
      modifies this`pos, this`c, this`charCount, this`intVal, this`converted, this`positive
      modifies this`stored, this`sources, this`assignments
      ensures Honest()
      ensures IsRun(input, format, start, run) && Finishes(input, format, start, run[|run| - 1], Now(), out)
    {
      hide Faithful, Tally, Directive;
      ReadChar();
      NothingStored(input, start);
      run := [Point(0, Now())];
      GetFormat();
      while f != 0
        invariant Honest() && InFormat()
        invariant IsRun(input, format, start, run) && run[|run| - 1] == Point(at - 1, Now())
        decreases |format| + 1 - at
      {
        out := Step();
        if out != Done {
          return;
        }
        run := run + [Point(at, Now())];
        GetFormat();
      }
      out := Done;
    }

    /** The whole scan. However it ends, the stream has moved by the characters counted and
        consumed, no more: the one read ahead is given back. What has been stored is read off
        the input, part after part, as the directives of the format say. */
    method Scanf() returns (result: int, errno: Errno, ghost run: seq<Point>, ghost end: Stage, out: Outcome)
      requires pos <= |input|
      modifies this
      ensures start == old(pos) && Counted() && pos == end.here && stored == end.stored && converted == end.converted
      ensures IsRun(input, format, start, run) && Finishes(input, format, start, run[|run| - 1], end, out)
      ensures Faithful(stored, sources, input, start, pos)
      ensures errno == if out == Invalid then EINVAL else if out == NotImplemented then ENOSYS else ENONE
      ensures result ==
        if out == Invalid || out == NotImplemented || (out == NoConv && pos == |input| && !converted)
        then EOF
        else Tally(stored, sources)
    {
      hide Faithful, Tally, IsRun, Finishes;
      at := 0;
      converted := false;
      assignments := 0;
      charCount := 0;
      start := pos;
      stored, sources := [], [];
      out, run := Walk();
      end := Now();
      errno := ENONE;
      if out == Invalid || out == NotImplemented {
        errno := if out == Invalid then EINVAL else ENOSYS;
        assignments := EOF;
      } else if out == NoConv && c == EOF && !converted {
        assignments := EOF;
      }
      PushBack();
      result := assignments;
    }
  }
}
