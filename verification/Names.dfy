/** File names: a path segment is parsed to the 11 bytes of a directory entry, and those
    are printed as text (tff.c, lines 382-409 and 426-480). */
module Names {
  import opened Bytes

  const DOT: Byte := '.' as int
  const SPACE: Byte := ' ' as int
  const SLASH: Byte := '/' as int

  // ----- which segments are names, and what they mean

  /** The characters of names. Bytes from 0x80 on are taken as they are. */
  predicate Allowed(c: Byte) {
    && c > SPACE && c != 0x7F && c != DOT && c != SLASH && c != '"' as int
    && !('*' as int <= c <= ',' as int) && !(':' as int <= c <= '?' as int)
    && !('[' as int <= c <= ']' as int) && c != '|' as int
  }

  predicate AllAllowed(s: seq<Byte>) {
    forall i :: 0 <= i < |s| ==> Allowed(s[i])
  }

  function Upper(c: Byte): Byte {
    if 'a' as int <= c <= 'z' as int then c - 0x20 else c
  }

  function Uppers(s: seq<Byte>): (u: seq<Byte>)
    ensures |u| == |s|
  {
    seq(|s|, i requires 0 <= i < |s| => Upper(s[i]))
  }

  /** The first dot of s, or its length. */
  function FirstDot(s: seq<Byte>, i: nat := 0): (k: nat)
    requires i <= |s|
    ensures i <= k <= |s| && (k < |s| ==> s[k] == DOT)
    ensures forall j :: i <= j < k ==> s[j] != DOT
    decreases |s| - i
  {
    if i == |s| || s[i] == DOT then i else FirstDot(s, i + 1)
  }

  /** Where the dots from i on end. */
  function DotsEnd(s: seq<Byte>, i: nat): (k: nat)
    requires i <= |s|
    ensures i <= k <= |s| && (k < |s| ==> s[k] != DOT)
    ensures forall j :: i <= j < k ==> s[j] == DOT
    decreases |s| - i
  {
    if i == |s| || s[i] != DOT then i else DotsEnd(s, i + 1)
  }

  function Body(s: seq<Byte>): seq<Byte> { s[..FirstDot(s)] }

  function Extension(s: seq<Byte>): seq<Byte> { s[DotsEnd(s, FirstDot(s))..] }

  /** One to eight characters, and up to three more after a dot, or after several dots. */
  predicate IsName(s: seq<Byte>) {
    1 <= |Body(s)| <= 8 && |Extension(s)| <= 3 && AllAllowed(Body(s)) && AllAllowed(Extension(s))
  }

  function Padded(s: seq<Byte>, n: nat): (p: seq<Byte>)
    requires |s| <= n
    ensures |p| == n
  {
    s + seq(n - |s|, _ => SPACE)
  }

  /** The name as it stands in a directory entry. */
  function NameOf(s: seq<Byte>): (d: seq<Byte>)
    requires IsName(s)
    ensures |d| == 11
  {
    Padded(Uppers(Body(s)), 8) + Padded(Uppers(Extension(s)), 3)
  }

  // ----- printing

  /** The bytes before the first space. */
  function UpToSpace(s: seq<Byte>): (t: seq<Byte>)
    ensures |t| <= |s|
  {
    if s == [] || s[0] == SPACE then [] else [s[0]] + UpToSpace(s[1..])
  }

  /** 0x05 stands for 0xE5, which would mark a deleted entry. */
  function Shown(s: seq<Byte>): (t: seq<Byte>)
    ensures |t| == |s|
  {
    seq(|s|, i requires 0 <= i < |s| => if s[i] == 0x05 then 0xE5 else s[i])
  }

  /** The text of an entry's name. */
  function Text(d: seq<Byte>): (t: seq<Byte>)
    requires |d| >= 11
    ensures |t| <= 12
  {
    Shown(UpToSpace(d[..8])) + if d[8] == SPACE then [] else [DOT] + UpToSpace(d[8..11])
  }

  // ----- the round trip

  lemma {:induction false} UpToSpaceOfPadded(s: seq<Byte>, n: nat)
    requires |s| <= n && SPACE !in s
    ensures UpToSpace(Padded(s, n)) == s
  {
    if s != [] {
      UpToSpaceOfPadded(s[1..], n - 1);
      assert Padded(s, n)[1..] == Padded(s[1..], n - 1);
    }
  }

  lemma UppersAllowed(s: seq<Byte>)
    requires AllAllowed(s)
    ensures AllAllowed(Uppers(s)) && SPACE !in Uppers(s) && 0x05 !in Uppers(s) && Uppers(Uppers(s)) == Uppers(s)
  {
  }

  /** A decomposition into allowed characters and dots is the one the parser finds. */
  lemma Parts(s: seq<Byte>, body: seq<Byte>, dots: nat, ext: seq<Byte>)
    requires s == body + seq(dots, _ => DOT) + ext && DOT !in body && (ext == [] || ext[0] != DOT)
    requires dots == 0 ==> ext == []
    ensures Body(s) == body && Extension(s) == ext && FirstDot(s) == |body|
  {
    var d, e := FirstDot(s), DotsEnd(s, FirstDot(s));
    assert forall i :: 0 <= i < |body| ==> s[i] == body[i];
    assert d == |body| by {
      assert dots > 0 ==> s[|body|] == DOT;
    }
    assert forall i :: |body| <= i < |body| + dots ==> s[i] == DOT;
    assert ext != [] ==> s[|body| + dots] == ext[0];
    assert e == |body| + dots;
  }

  /** What is printed for a parsed name: its parts in upper case, with one dot if there
      is an extension. */
  lemma TextOfName(s: seq<Byte>)
    requires IsName(s)
    ensures Text(NameOf(s)) == Uppers(Body(s)) + if Extension(s) == [] then [] else [DOT] + Uppers(Extension(s))
  {
    hide Allowed, FirstDot, DotsEnd, UpToSpace;
    var b, e := Uppers(Body(s)), Uppers(Extension(s));
    UppersAllowed(Body(s));
    UppersAllowed(Extension(s));
    UpToSpaceOfPadded(b, 8);
    UpToSpaceOfPadded(e, 3);
    assert NameOf(s)[..8] == Padded(b, 8) && NameOf(s)[8..11] == Padded(e, 3);
    assert NameOf(s)[8] == Padded(e, 3)[0];
    assert Shown(b) == b;
    assert e != [] ==> e[0] != SPACE;
  }

  /** Printing a parsed name and parsing the text gives the same 11 bytes. */
  lemma NameRoundTrip(s: seq<Byte>)
    requires IsName(s)
    ensures IsName(Text(NameOf(s))) && NameOf(Text(NameOf(s))) == NameOf(s)
  {
    hide Allowed, FirstDot, DotsEnd, Text, Uppers;
    var b, e := Uppers(Body(s)), Uppers(Extension(s));
    var t := Text(NameOf(s));
    TextOfName(s);
    UppersAllowed(Body(s));
    UppersAllowed(Extension(s));
    NoDots(b);
    NoDots(e);
    var dots := if e == [] then 0 else 1;
    assert t == b + seq(dots, _ => DOT) + e;
    Parts(t, b, dots, e);
  }

  lemma NoDots(s: seq<Byte>)
    requires AllAllowed(s)
    ensures DOT !in s
  {
  }

  /** The text of a name gives back the segment exactly when the segment is canonical: no
      lower case letters, and a single dot, with an extension after it, or none. */
  lemma CanonicalNames(s: seq<Byte>)
    requires IsName(s)
    ensures Text(NameOf(s)) == s <==>
      && (forall i :: 0 <= i < |s| ==> !('a' as int <= s[i] <= 'z' as int))
      && |s| == |Body(s)| + if Extension(s) == [] then 0 else 1 + |Extension(s)|
  {
    hide Allowed, Text, UpToSpace, Upper, IsName;
    var t := Text(NameOf(s));
    if |t| == |s| {
      SameLengthText(s);
      forall i | 0 <= i < |s|
        ensures t[i] == s[i] <==> !('a' as int <= s[i] <= 'z' as int)
      {
        UpperIsSame(s[i]);
      }
    }
    TextOfName(s);
  }

  lemma UpperIsSame(c: Byte)
    ensures Upper(c) == c <==> !('a' as int <= c <= 'z' as int)
  {
  }

  lemma SameLengthText(s: seq<Byte>)
    requires IsName(s) && |Text(NameOf(s))| == |s|
    ensures Text(NameOf(s)) == Uppers(s)
  {
    hide Allowed, Text, UpToSpace, Upper;
    TextOfName(s);
    var f, e := FirstDot(s), DotsEnd(s, FirstDot(s));
    var t := Text(NameOf(s));
    forall i | 0 <= i < |s|
      ensures t[i] == Upper(s[i])
    {
      if i < f {
        assert t[i] == Upper(Body(s)[i]);
      } else if Extension(s) != [] {
        assert e == f + 1;
        if i == f {
          DotIsUpper();
        } else {
          assert t[i] == Upper(Extension(s)[i - e]);
        }
      }
    }
  }

  lemma DotIsUpper()
    ensures Upper(DOT) == DOT
  {
  }

  /** Two dots are as good as one. */
  lemma TwoDots(s: seq<Byte>, t: seq<Byte>)
    requires s == ['A' as int, DOT, DOT, 'B' as int] && t == ['A' as int, DOT, 'B' as int]
    ensures IsName(s) && IsName(t) && NameOf(s) == NameOf(t)
  {
    Parts(s, ['A' as int], 2, ['B' as int]);
    Parts(t, ['A' as int], 1, ['B' as int]);
  }

  /** A name is stored under the mark of a deleted entry exactly when it begins with that
      byte: the parser does not replace it by 0x05. */
  lemma StoredAsDeleted(s: seq<Byte>)
    requires IsName(s)
    ensures NameOf(s)[0] == 0xE5 <==> s[0] == 0xE5
  {
    assert NameOf(s)[0] == Uppers(Body(s))[0] == Upper(s[0]);
  }

  /** Such a name: the single character 0xE5. */
  lemma LostName(s: seq<Byte>)
    requires s == [0xE5]
    ensures IsName(s) && NameOf(s)[0] == 0xE5
  {
    Parts(s, s, 0, []);
    assert s == s + seq(0, _ => DOT) + [];
    StoredAsDeleted(s);
  }

  // ----- parsing

  /** The character of a path at i; a zero ends it. */
  function PathAt(path: seq<Byte>, i: nat): Byte { if i < |path| then path[i] else 0 }

  predicate Separates(c: Byte) { c == 0 || c == SLASH }

  /** The end of the segment that contains i. */
  function SegmentEnd(path: seq<Byte>, i: nat): (k: nat)
    requires i <= |path|
    ensures i <= k <= |path| && Separates(PathAt(path, k))
    ensures forall j :: i <= j < k ==> !Separates(path[j])
    decreases |path| - i
  {
    if Separates(PathAt(path, i)) then i else SegmentEnd(path, i + 1)
  }

  /** The segment of a path at i. */
  function Segment(path: seq<Byte>, i: nat): seq<Byte>
    requires i <= |path|
  {
    path[i..SegmentEnd(path, i)]
  }

  /** What has been parsed so far: the body, or the body, dots and extension. */
  datatype Parsed = InBody(body: seq<Byte>) | InExtension(body: seq<Byte>, dots: nat, ext: seq<Byte>) {
    predicate Valid() {
      && |body| <= 8 && AllAllowed(body)
      && (InExtension? ==> 1 <= |body| && 1 <= dots && |ext| <= 3 && AllAllowed(ext))
    }

    function Whole(): seq<Byte> {
      if InBody? then body else body + seq(dots, _ => DOT) + ext
    }

    /** How far the name buffer is filled, and with what. */
    function Filled(): nat { if InBody? then |body| else 8 + |ext| }

    function Limit(): nat { if InBody? then 8 else 11 }

    function Buffer(): (d: seq<Byte>)
      requires Valid()
      ensures |d| == 11
    {
      Padded(Uppers(body), 8) + Padded(if InBody? then [] else Uppers(ext), 3)
    }

    /** The next character makes no name any more, whatever follows. */
    predicate Rejects(c: Byte) {
      if c == DOT then Filled() < 1 || Filled() > 8
      else !Allowed(c) || Filled() >= Limit()
    }

    function Next(c: Byte): Parsed
      requires Valid() && !Rejects(c)
    {
      if c == DOT then InExtension(body, if InBody? then 1 else dots + 1, [])
      else if InBody? then InBody(body + [c])
      else InExtension(body, dots, ext + [c])
    }
  }

  lemma WholeParts(p: Parsed)
    requires p.Valid()
    ensures Body(p.Whole()) == p.body && Extension(p.Whole()) == (if p.InBody? then [] else p.ext)
    ensures IsName(p.Whole()) <==> |p.body| >= 1
    ensures |p.body| >= 1 ==> NameOf(p.Whole()) == p.Buffer()
  {
    hide FirstDot, DotsEnd, Allowed, Uppers;
    NoDots(p.body);
    if p.InBody? {
      assert p.Whole() == p.body + seq(0, _ => DOT) + [];
      Parts(p.Whole(), p.body, 0, []);
    } else {
      NoDots(p.ext);
      Parts(p.Whole(), p.body, p.dots, p.ext);
    }
  }

  lemma NextWhole(p: Parsed, c: Byte)
    requires p.Valid() && !p.Rejects(c)
    ensures p.Next(c).Valid() && p.Next(c).Whole() == p.Whole() + [c]
  {
    if c == DOT {
      assert p.InExtension? ==> seq(p.dots + 1, _ => DOT) == seq(p.dots, _ => DOT) + [DOT];
      assert p.InBody? ==> seq(1, _ => DOT) == [DOT];
    }
  }

  /** A rejected character means that the segment is no name. */
  lemma RejectedForGood(p: Parsed, c: Byte, rest: seq<Byte>)
    requires p.Valid() && p.Rejects(c)
    ensures !IsName(p.Whole() + [c] + rest)
  {
    hide Allowed;
    var s := p.Whole() + [c] + rest;
    var n := |p.Whole()|;
    assert s[n] == c;
    assert forall i :: 0 <= i < |p.body| ==> s[i] == p.body[i];
    NoDots(p.body);
    var d, e := FirstDot(s), DotsEnd(s, FirstDot(s));
    if p.InBody? {
      if c != DOT {
        assert d > n && Body(s)[n] == c;
      }
    } else {
      NoDots(p.ext);
      assert s[|p.body|] == DOT;
      assert d == |p.body|;
      assert forall i :: d <= i < d + p.dots ==> s[i] == DOT;
      assert forall i :: 0 <= i < |p.ext| ==> s[d + p.dots + i] == p.ext[i];
      assert d + p.dots <= e;
      if p.ext != [] {
        assert s[d + p.dots] == p.ext[0];
        assert e == d + p.dots;
        assert Extension(s)[|p.ext|] == c;
        if c == DOT {
          DotNotAllowed(Extension(s), |p.ext|);
        }
      } else {
        assert Extension(s)[0] == c;
      }
    }
  }

  lemma DotNotAllowed(s: seq<Byte>, i: nat)
    requires i < |s| && s[i] == DOT
    ensures !AllAllowed(s)
  {
    assert !Allowed(DOT);
  }

  /** make_dirfile: 1 for a segment that is no name, otherwise the character that ended it,
      with the 11 bytes of the name in the buffer. */
  method MakeDirFile(path: seq<Byte>, start: nat, dirname: array<Byte>) returns (code: Byte, pos: nat)
    requires start <= |path| && dirname.Length >= 12
    modifies dirname
    ensures var s, end := Segment(path, start), SegmentEnd(path, start);
      && (code != 1 <==> IsName(s))
      && (code != 1 ==> code == PathAt(path, end) && pos == end + 1 && dirname[..11] == NameOf(s) && dirname[11] == 0)
    ensures dirname[12..] == old(dirname[12..])
  {
    hide IsName, NameOf, Parsed.Whole, Parsed.Valid, Parsed.Buffer, Allowed, Upper, SegmentEnd;
    forall i | 0 <= i < 11 {
      dirname[i] := SPACE;
    }
    var n, t := 0, 8;
    pos := start;
    ghost var p, end := InBody([]), SegmentEnd(path, start);
    EmptyParsed();
    assert dirname[..11] == p.Buffer();
    while true
      invariant p.Valid() && start <= pos <= end && p.Whole() == path[start..pos]
      invariant n == p.Filled() && t == p.Limit() && dirname[..11] == p.Buffer()
      invariant dirname[12..] == old(dirname[12..])
      decreases end - pos
    {
      var c := PathAt(path, pos);
      pos := pos + 1;
      if Separates(c) {
        assert Segment(path, start) == p.Whole();
        WholeParts(p);
        FilledBody(p);
        if n == 0 {
          return 1, pos;
        }
        dirname[11] := 0;
        return c, pos;
      }
      assert path[start..pos] == path[start..pos - 1] + [c];
      assert p.Rejects(c) ==> !IsName(Segment(path, start)) by {
        if p.Rejects(c) {
          RejectedForGood(p, c, path[pos..end]);
          assert Segment(path, start) == p.Whole() + [c] + path[pos..end];
        }
      }
      if c != DOT && !Allowed(c) {
        return 1, pos;
      }
      if c == DOT {
        if n >= 1 && n <= 8 {
          NextWhole(p, c);
          NextBuffer(p, c);
          p := p.Next(c);
          n, t := 8, 11;
          continue;
        }
        return 1, pos;
      }
      if n >= t {
        return 1, pos;
      }
      NextWhole(p, c);
      NextBuffer(p, c);
      p := p.Next(c);
      dirname[n] := Upper(c);
      n := n + 1;
    }
  }

  lemma EmptyParsed()
    ensures InBody([]).Valid() && InBody([]).Whole() == [] && InBody([]).Buffer() == seq(11, _ => SPACE)
  {
  }

  lemma FilledBody(p: Parsed)
    requires p.Valid()
    ensures p.Filled() == 0 <==> |p.body| == 0
  {
  }

  lemma NextBuffer(p: Parsed, c: Byte)
    requires p.Valid() && !p.Rejects(c) && p.Next(c).Valid()
    ensures p.Next(c).Buffer() == if c == DOT then p.Buffer() else p.Buffer()[p.Filled() := Upper(c)]
    ensures p.Next(c).Filled() == if c == DOT then 8 else p.Filled() + 1
    ensures p.Next(c).Limit() == if c == DOT then 11 else p.Limit()
  {
    hide Allowed, Upper;
  }
}
