/** qsort and bsearch of the C library (qsort.c, bsearch.c), on arrays of elements
    instead of byte buffers: element k stands for the bytes at k * size. */
module QuickSort {

  /** What ISO C asks of a comparison function: its sign is a total preorder. */
  ghost predicate TotalPreorder<T(!new)>(cmp: (T, T) -> int) {
    && (forall x, y :: cmp(x, y) < 0 <==> cmp(y, x) > 0)
    && (forall x, y, z :: cmp(x, y) <= 0 && cmp(y, z) <= 0 ==> cmp(x, z) <= 0)
  }

  ghost predicate Sorted<T>(s: seq<T>, lo: int, hi: int, cmp: (T, T) -> int)
    requires 0 <= lo && hi <= |s|
  {
    forall i, j :: lo <= i < j < hi ==> cmp(s[i], s[j]) <= 0
  }

  ghost predicate AtMost<T>(s: seq<T>, lo: int, hi: int, x: T, cmp: (T, T) -> int)
    requires 0 <= lo && hi <= |s|
  {
    forall i :: lo <= i < hi ==> cmp(s[i], x) <= 0
  }

  ghost predicate AtLeast<T>(s: seq<T>, lo: int, hi: int, x: T, cmp: (T, T) -> int)
    requires 0 <= lo && hi <= |s|
  {
    forall i :: lo <= i < hi ==> cmp(x, s[i]) <= 0
  }

  /** The elements from lo to hi have been rearranged, the others are in place. */
  ghost predicate Rearranged<T>(s: seq<T>, t: seq<T>, lo: int, hi: int)
  {
    && 0 <= lo <= hi <= |s| == |t|
    && multiset(t[lo..hi]) == multiset(s[lo..hi])
    && t[..lo] == s[..lo] && t[hi..] == s[hi..]
  }

  lemma RearrangedTrans<T>(s: seq<T>, t: seq<T>, u: seq<T>, lo: int, hi: int)
    requires Rearranged(s, t, lo, hi) && Rearranged(t, u, lo, hi)
    ensures Rearranged(s, u, lo, hi)
  {
  }

  lemma RearrangedWider<T>(s: seq<T>, t: seq<T>, lo: int, hi: int, lo': int, hi': int)
    requires Rearranged(s, t, lo, hi) && 0 <= lo' <= lo && hi <= hi' <= |s|
    ensures Rearranged(s, t, lo', hi')
  {
    assert t[lo'..hi'] == t[..lo][lo'..] + t[lo..hi] + t[hi..][..hi' - hi];
    assert s[lo'..hi'] == s[..lo][lo'..] + s[lo..hi] + s[hi..][..hi' - hi];
    assert t[..lo'] == t[..lo][..lo'] && s[..lo'] == s[..lo][..lo'];
    assert t[hi'..] == t[hi..][hi' - hi..] && s[hi'..] == s[hi..][hi' - hi..];
  }

  lemma SwapRearranges<T>(s: seq<T>, i: int, j: int, lo: int, hi: int)
    requires 0 <= lo <= i < hi <= |s| && lo <= j < hi
    ensures Rearranged(s, s[i := s[j]][j := s[i]], lo, hi)
  {
    var t := s[i := s[j]][j := s[i]];
    var m := s[lo..hi];
    assert t[lo..hi] == m[i - lo := m[j - lo]][j - lo := m[i - lo]];
  }

  /** An element after the rearrangement is an element before it. */
  lemma WasThere<T>(s: seq<T>, t: seq<T>, lo: int, hi: int, i: int) returns (k: int)
    requires Rearranged(s, t, lo, hi) && lo <= i < hi
    ensures lo <= k < hi && s[k] == t[i]
  {
    assert t[lo..hi][i - lo] in multiset(t[lo..hi]);
    assert t[i] in s[lo..hi];
    var d :| 0 <= d < hi - lo && s[lo..hi][d] == t[i];
    k := lo + d;
  }

  lemma BoundsKept<T>(s: seq<T>, t: seq<T>, lo: int, hi: int, x: T, cmp: (T, T) -> int)
    requires Rearranged(s, t, lo, hi)
    ensures AtMost(s, lo, hi, x, cmp) ==> AtMost(t, lo, hi, x, cmp)
    ensures AtLeast(s, lo, hi, x, cmp) ==> AtLeast(t, lo, hi, x, cmp)
  {
    forall i | lo <= i < hi
      ensures exists k :: lo <= k < hi && s[k] == t[i]
    {
      var k := WasThere(s, t, lo, hi, i);
    }
  }

  /** _swap */
  method Swap<T>(a: array<T>, i: int, j: int, ghost lo: int, ghost hi: int)
    requires 0 <= lo <= i < hi <= a.Length && lo <= j < hi
    modifies a
    ensures a[..] == old(a[..])[i := old(a[j])][j := old(a[i])]
    ensures Rearranged(old(a[..]), a[..], lo, hi)
  {
    SwapRearranges(a[..], i, j, lo, hi);
    a[i], a[j] := a[j], a[i];
  }

  /** Between lo and i nothing exceeds the pivot at lo; behind j everything does. */
  ghost predicate Split<T>(s: seq<T>, lo: int, i: int, j: int, hi: int, cmp: (T, T) -> int)
    requires 0 <= lo < i <= j + 1 <= hi + 1 <= |s|
  {
    && (forall k :: lo < k < i ==> cmp(s[lo], s[k]) >= 0)
    && (forall k :: j < k <= hi ==> cmp(s[lo], s[k]) < 0)
  }

  lemma SplitMore<T>(s: seq<T>, lo: int, i: int, j: int, hi: int, cmp: (T, T) -> int)
    requires 0 <= lo < i <= j <= hi < |s| && Split(s, lo, i, j, hi, cmp)
    ensures if cmp(s[lo], s[i]) >= 0 then Split(s, lo, i + 1, j, hi, cmp) else true
    ensures if cmp(s[lo], s[j]) < 0 then Split(s, lo, i, j - 1, hi, cmp) else true
  {
  }

  lemma SplitSwapped<T>(s: seq<T>, lo: int, i: int, j: int, hi: int, cmp: (T, T) -> int)
    requires 0 <= lo < i <= j <= hi < |s| && Split(s, lo, i, j, hi, cmp)
    requires cmp(s[lo], s[i]) < 0 <= cmp(s[lo], s[j])
    ensures i < j && Split(s[i := s[j]][j := s[i]], lo, i + 1, j - 1, hi, cmp)
  {
  }

  /** The first inner loop: past the elements that are at most the pivot. */
  method ScanUp<T>(a: array<T>, lo: int, from: int, j: int, hi: int, cmp: (T, T) -> int) returns (i: int)
    requires 0 <= lo < from <= j <= hi < a.Length && Split(a[..], lo, from, j, hi, cmp)
    ensures from <= i <= j + 1 && Split(a[..], lo, i, j, hi, cmp)
    ensures i <= j ==> cmp(a[lo], a[i]) < 0
  {
    hide Split;
    i := from;
    while i <= j && cmp(a[lo], a[i]) >= 0
      invariant from <= i <= j + 1 && Split(a[..], lo, i, j, hi, cmp)
    {
      SplitMore(a[..], lo, i, j, hi, cmp);
      i := i + 1;
    }
  }

  /** The second inner loop: back over the elements greater than the pivot. */
  method ScanDown<T>(a: array<T>, lo: int, i: int, from: int, hi: int, cmp: (T, T) -> int) returns (j: int)
    requires 0 <= lo < i <= from + 1 <= hi + 1 <= a.Length && Split(a[..], lo, i, from, hi, cmp)
    ensures i - 1 <= j <= from && Split(a[..], lo, i, j, hi, cmp)
    ensures i <= j ==> cmp(a[lo], a[j]) >= 0
  {
    hide Split;
    j := from;
    while i <= j && cmp(a[lo], a[j]) < 0
      invariant i - 1 <= j <= from && Split(a[..], lo, i, j, hi, cmp)
    {
      SplitMore(a[..], lo, i, j, hi, cmp);
      j := j - 1;
    }
  }

  /** One turn of the partition loop. */
  method Narrow<T>(a: array<T>, lo: int, i0: int, j0: int, hi: int, cmp: (T, T) -> int) returns (i: int, j: int)
    requires 0 <= lo < i0 <= j0 <= hi < a.Length && Split(a[..], lo, i0, j0, hi, cmp)
    modifies a
    ensures lo < i <= j + 1 <= hi + 1 && j - i < j0 - i0
    ensures Rearranged(old(a[..]), a[..], lo, hi + 1)
    ensures Split(a[..], lo, i, j, hi, cmp)
  {
    hide Rearranged, Split;
    RearrangedSelf(a[..], lo, hi + 1);
    i := ScanUp(a, lo, i0, j0, hi, cmp);
    j := ScanDown(a, lo, i, j0, hi, cmp);
    if i <= j {
      SplitSwapped(a[..], lo, i, j, hi, cmp);
      Swap(a, i, j, lo, hi + 1);
      i := i + 1;
      j := j - 1;
    }
  }

  /** The nested scans and the swaps of one round: everything before j is at most the
      element at j, everything after it at least. */
  method Partition<T(!new)>(a: array<T>, lo: int, hi: int, cmp: (T, T) -> int) returns (j: int)
    requires 0 <= lo < hi < a.Length && TotalPreorder(cmp)
    modifies a
    ensures lo <= j <= hi
    ensures Rearranged(old(a[..]), a[..], lo, hi + 1)
    ensures AtMost(a[..], lo, j, a[j], cmp)
    ensures AtLeast(a[..], j + 1, hi + 1, a[j], cmp)
  {
    hide Rearranged, TotalPreorder, AtMost, AtLeast, Split;
    ghost var s0 := a[..];
    SplitStart(s0, lo, hi, cmp);
    RearrangedSelf(s0, lo, hi + 1);
    var i := lo + 1;
    j := hi;
    while i <= j
      invariant lo < i <= j + 1 <= hi + 1
      invariant Rearranged(s0, a[..], lo, hi + 1) && Split(a[..], lo, i, j, hi, cmp)
      decreases j - i
    {
      ghost var s1 := a[..];
      i, j := Narrow(a, lo, i, j, hi, cmp);
      RearrangedTrans(s0, s1, a[..], lo, hi + 1);
    }
    ghost var s1 := a[..];
    PlacePivot(a, lo, j, hi, cmp);
    RearrangedTrans(s0, s1, a[..], lo, hi + 1);
  }

  /** The pivot goes between the two parts. */
  method PlacePivot<T(!new)>(a: array<T>, lo: int, j: int, hi: int, cmp: (T, T) -> int)
    requires 0 <= lo <= j <= hi < a.Length && TotalPreorder(cmp) && Split(a[..], lo, j + 1, j, hi, cmp)
    modifies a
    ensures Rearranged(old(a[..]), a[..], lo, hi + 1)
    ensures AtMost(a[..], lo, j, a[j], cmp)
    ensures AtLeast(a[..], j + 1, hi + 1, a[j], cmp)
  {
    hide Rearranged, TotalPreorder, AtMost, AtLeast, Split;
    ghost var s := a[..];
    RearrangedSelf(s, lo, hi + 1);
    if j != lo {
      Swap(a, j, lo, lo, hi + 1);
    }
    PivotPlaced(s, a[..], lo, j, hi, s[lo], cmp);
  }

  lemma SplitStart<T>(s: seq<T>, lo: int, hi: int, cmp: (T, T) -> int)
    requires 0 <= lo < hi < |s|
    ensures Split(s, lo, lo + 1, hi, hi, cmp)
  {
  }

  lemma RearrangedSelf<T>(s: seq<T>, lo: int, hi: int)
    requires 0 <= lo <= hi <= |s|
    ensures Rearranged(s, s, lo, hi)
  {
  }

  lemma PivotPlaced<T(!new)>(s: seq<T>, t: seq<T>, lo: int, j: int, hi: int, pivot: T, cmp: (T, T) -> int)
    requires 0 <= lo <= j <= hi < |s| && TotalPreorder(cmp) && s[lo] == pivot
    requires t == if j == lo then s else s[j := s[lo]][lo := s[j]]
    requires Split(s, lo, j + 1, j, hi, cmp)
    ensures t[j] == pivot && AtMost(t, lo, j, pivot, cmp) && AtLeast(t, j + 1, hi + 1, pivot, cmp)
  {
    forall k | lo <= k < j
      ensures cmp(t[k], pivot) <= 0
    {
      var m := if k == lo then j else k;
      assert t[k] == s[m] && cmp(pivot, s[m]) >= 0;
    }
  }

  /** The part of the array already sorted on either side of lo..hi, and how it compares
      with what is left. */
  ghost predicate Fenced<T>(s: seq<T>, lo0: int, lo: int, hi: int, hi0: int, cmp: (T, T) -> int)
  {
    && 0 <= lo0 <= lo <= hi <= hi0 <= |s|
    && (forall i, j :: lo0 <= i < j < hi0 && (i < lo || j >= hi) ==> cmp(s[i], s[j]) <= 0)
  }

  /** Sorting one side of the pivot leaves the other side to do. */
  lemma FencedAfter<T(!new)>(s: seq<T>, t: seq<T>, u: seq<T>, lo0: int, lo: int, j: int, hi: int, hi0: int, right: bool,
          cmp: (T, T) -> int)
    requires TotalPreorder(cmp) && Fenced(s, lo0, lo, hi, hi0, cmp) && lo <= j < hi
    requires Rearranged(s, t, lo, hi) && AtMost(t, lo, j, t[j], cmp) && AtLeast(t, j + 1, hi, t[j], cmp)
    requires if right
      then Rearranged(t, u, j + 1, hi) && Sorted(u, j + 1, hi, cmp)
      else Rearranged(t, u, lo, j) && Sorted(u, lo, j, cmp)
    ensures if right then Fenced(u, lo0, lo, j, hi0, cmp) else Fenced(u, lo0, j + 1, hi, hi0, cmp)
  {
    hide TotalPreorder, Rearranged;
    FramedStill(s, t, lo0, lo, hi, hi0, cmp);
    if right {
      RearrangedWider(t, u, j + 1, hi, lo, hi);
      FramedStill(t, u, lo0, lo, hi, hi0, cmp);
      BoundsKept(t, u, j + 1, hi, t[j], cmp);
      RearrangedKeeps(t, u, j + 1, hi);
      forall i, k | lo <= i < k < hi && k >= j
        ensures cmp(u[i], u[k]) <= 0
      {
        if i <= j {
          AcrossPivot(u, lo, j, hi, t[j], cmp, i, k);
        }
      }
    } else {
      RearrangedWider(t, u, lo, j, lo, hi);
      FramedStill(t, u, lo0, lo, hi, hi0, cmp);
      BoundsKept(t, u, lo, j, t[j], cmp);
      RearrangedKeeps(t, u, lo, j);
      forall i, k | lo <= i < k < hi && i < j + 1
        ensures cmp(u[i], u[k]) <= 0
      {
        if k >= j {
          AcrossPivot(u, lo, j, hi, t[j], cmp, i, k);
        }
      }
    }
  }

  /** Elements on different sides of the pivot, or the pivot and another. */
  lemma AcrossPivot<T(!new)>(u: seq<T>, lo: int, j: int, hi: int, pivot: T, cmp: (T, T) -> int, i: int, k: int)
    requires TotalPreorder(cmp) && 0 <= lo <= i <= j <= k < hi <= |u| && i < k && u[j] == pivot
    requires AtMost(u, lo, j, pivot, cmp) && AtLeast(u, j + 1, hi, pivot, cmp)
    ensures cmp(u[i], u[k]) <= 0
  {
    assert i < j ==> cmp(u[i], pivot) <= 0;
    assert k > j ==> cmp(pivot, u[k]) <= 0;
  }

  lemma RearrangedKeeps<T>(s: seq<T>, t: seq<T>, lo: int, hi: int)
    requires Rearranged(s, t, lo, hi)
    ensures |t| == |s| && forall i :: 0 <= i < |s| && !(lo <= i < hi) ==> t[i] == s[i]
  {
    SamePrefix(s, t, lo);
    SameSuffix(s, t, hi);
  }

  lemma SamePrefix<T>(s: seq<T>, t: seq<T>, n: int)
    requires 0 <= n <= |s| == |t| && s[..n] == t[..n]
    ensures forall i :: 0 <= i < n ==> t[i] == s[i]
  {
    forall i | 0 <= i < n
      ensures t[i] == s[i]
    {
      assert t[..n][i] == s[..n][i];
    }
  }

  lemma SameSuffix<T>(s: seq<T>, t: seq<T>, n: int)
    requires 0 <= n <= |s| == |t| && s[n..] == t[n..]
    ensures forall i :: n <= i < |s| ==> t[i] == s[i]
  {
    forall i | n <= i < |s|
      ensures t[i] == s[i]
    {
      assert t[n..][i - n] == s[n..][i - n];
    }
  }

  /** Rearranging the middle keeps the frame. */
  lemma FramedStill<T(!new)>(s: seq<T>, t: seq<T>, lo0: int, lo: int, hi: int, hi0: int, cmp: (T, T) -> int)
    requires Fenced(s, lo0, lo, hi, hi0, cmp) && Rearranged(s, t, lo, hi)
    ensures Fenced(t, lo0, lo, hi, hi0, cmp)
  {
    SamePrefix(s, t, lo);
    SameSuffix(s, t, hi);
    forall i, j | lo0 <= i < j < hi0 && (i < lo || j >= hi)
      ensures cmp(t[i], t[j]) <= 0
    {
      var i', j' := i, j;
      if lo <= i < hi {
        i' := WasThere(s, t, lo, hi, i);
      }
      if lo <= j < hi {
        j' := WasThere(s, t, lo, hi, j);
      }
    }
  }

  lemma FramedWhole<T>(s: seq<T>, lo0: int, lo: int, hi: int, hi0: int, cmp: (T, T) -> int)
    requires Fenced(s, lo0, lo, hi, hi0, cmp) && hi <= lo + 1
    ensures Sorted(s, lo0, hi0, cmp)
  {
  }

  function Pow2(n: nat): nat { if n == 0 then 1 else 2 * Pow2(n - 1) }

  /** QuickSort sorts a[lo..hi], both ends included. It calls itself on the smaller part
      only, so the calls nest at most log2 of the number of elements deep. */
  method Sort<T(!new)>(a: array<T>, lo0: int, hi0: int, cmp: (T, T) -> int) returns (ghost depth: nat)
    requires 0 <= lo0 <= hi0 + 1 <= a.Length && TotalPreorder(cmp)
    modifies a
    ensures Rearranged(old(a[..]), a[..], lo0, hi0 + 1)
    ensures Sorted(a[..], lo0, hi0 + 1, cmp)
    ensures depth >= 1 && (lo0 <= hi0 ==> Pow2(depth - 1) <= hi0 - lo0 + 1) && (lo0 > hi0 ==> depth == 1)
    decreases hi0 - lo0 + 1
  {
    hide Rearranged, Sorted, Fenced, AtMost, AtLeast, TotalPreorder;
    var lo, hi := lo0, hi0;
    ghost var s0 := a[..];
    depth := 1;
    RearrangedSelf(s0, lo0, hi0 + 1);
    FramedStart(s0, lo0, hi0 + 1, cmp);
    while hi > lo
      invariant lo0 <= lo <= hi + 1 <= hi0 + 1
      invariant Rearranged(s0, a[..], lo0, hi0 + 1)
      invariant Fenced(a[..], lo0, lo, hi + 1, hi0 + 1, cmp)
      invariant depth >= 1 && (lo0 <= hi0 ==> Pow2(depth - 1) <= hi0 - lo0 + 1) && (lo0 > hi0 ==> depth == 1)
      decreases hi - lo
    {
      ghost var s1 := a[..];
      ghost var inner;
      lo, hi, inner := Round(a, lo0, lo, hi, hi0, cmp);
      RearrangedTrans(s0, s1, a[..], lo0, hi0 + 1);
      if inner + 1 > depth {
        depth := inner + 1;
      }
    }
    FramedWhole(a[..], lo0, lo, hi + 1, hi0 + 1, cmp);
  }

  /** One turn of QuickSort's outer loop: partition, recursion on the smaller part, and
      on with the larger part lo'..hi'. */
  method Round<T(!new)>(a: array<T>, ghost lo0: int, lo: int, hi: int, ghost hi0: int, cmp: (T, T) -> int)
    returns (lo': int, hi': int, ghost inner: nat)
    requires 0 <= lo0 <= lo < hi <= hi0 < a.Length && TotalPreorder(cmp)
    requires Fenced(a[..], lo0, lo, hi + 1, hi0 + 1, cmp)
    modifies a
    ensures lo <= lo' <= hi' + 1 <= hi + 1 && hi' - lo' < hi - lo
    ensures Rearranged(old(a[..]), a[..], lo0, hi0 + 1)
    ensures Fenced(a[..], lo0, lo', hi' + 1, hi0 + 1, cmp)
    ensures Pow2(inner) <= hi - lo + 1
    decreases hi - lo + 1, 0
  {
    hide Rearranged, Sorted, Fenced, AtMost, AtLeast, TotalPreorder;
    ghost var s1 := a[..];
    var j := Partition(a, lo, hi, cmp);
    ghost var s2 := a[..];
    if j * 2 > hi + lo {
      inner := Sort(a, j + 1, hi, cmp);
      RoundDone(s1, s2, a[..], lo0, lo, j, hi + 1, hi0 + 1, true, cmp);
      lo', hi' := lo, j - 1;
    } else {
      inner := Sort(a, lo, j - 1, cmp);
      RoundDone(s1, s2, a[..], lo0, lo, j, hi + 1, hi0 + 1, false, cmp);
      lo', hi' := j + 1, hi;
    }
  }

  lemma RoundDone<T(!new)>(s: seq<T>, t: seq<T>, u: seq<T>, lo0: int, lo: int, j: int, hi: int, hi0: int, right: bool,
          cmp: (T, T) -> int)
    requires TotalPreorder(cmp) && Fenced(s, lo0, lo, hi, hi0, cmp)
    requires 0 <= lo0 <= lo <= j < hi <= hi0 <= |s| == |t| == |u|
    requires Rearranged(s, t, lo, hi) && AtMost(t, lo, j, t[j], cmp) && AtLeast(t, j + 1, hi, t[j], cmp)
    requires if right
      then Rearranged(t, u, j + 1, hi) && Sorted(u, j + 1, hi, cmp)
      else Rearranged(t, u, lo, j) && Sorted(u, lo, j, cmp)
    ensures if right then Fenced(u, lo0, lo, j, hi0, cmp) else Fenced(u, lo0, j + 1, hi, hi0, cmp)
    ensures Rearranged(s, u, lo0, hi0)
  {
    hide Sorted, Fenced, AtMost, AtLeast, TotalPreorder, Rearranged;
    FencedAfter(s, t, u, lo0, lo, j, hi, hi0, right, cmp);
    RearrangedWider(s, t, lo, hi, lo0, hi0);
    if right {
      RearrangedWider(t, u, j + 1, hi, lo0, hi0);
    } else {
      RearrangedWider(t, u, lo, j, lo0, hi0);
    }
    RearrangedTrans(s, t, u, lo0, hi0);
  }

  lemma FramedStart<T>(s: seq<T>, lo: int, hi: int, cmp: (T, T) -> int)
    requires 0 <= lo <= hi <= |s|
    ensures Fenced(s, lo, lo, hi, hi, cmp)
  {
  }

  /** qsort */
  method QSort<T(!new)>(a: array<T>, cmp: (T, T) -> int) returns (ghost depth: nat)
    requires TotalPreorder(cmp)
    modifies a
    ensures multiset(a[..]) == multiset(old(a[..]))
    ensures Sorted(a[..], 0, a.Length, cmp)
    ensures a.Length > 0 ==> depth == 0 || Pow2(depth - 1) <= a.Length
  {
    depth := 0;
    if a.Length > 1 {
      ghost var s := a[..];
      depth := Sort(a, 0, a.Length - 1, cmp);
      assert a[..][0..a.Length] == a[..] && s[0..a.Length] == s;
    }
  }

  datatype Option<T> = None | Some(value: T)

  /** bsearch: the first of the elements equal to the key, if there is one. */
  method BSearch<T(!new)>(a: array<T>, key: T, cmp: (T, T) -> int) returns (r: Option<nat>)
    requires TotalPreorder(cmp) && Sorted(a[..], 0, a.Length, cmp)
    ensures r.Some? ==>
      r.value < a.Length && cmp(a[r.value], key) == 0 && forall k :: 0 <= k < r.value ==> cmp(a[k], key) < 0
    ensures r.None? ==> forall k :: 0 <= k < a.Length ==> cmp(a[k], key) != 0
  {
    hide TotalPreorder, Sorted;
    var found, first, last := false, 0, a.Length - 1;
    while first <= last
      invariant 0 <= first <= last + 1 <= a.Length
      invariant forall k :: 0 <= k < first ==> cmp(a[k], key) < 0
      invariant forall k :: last < k < a.Length ==> cmp(a[k], key) >= 0
      invariant found ==> last + 1 < a.Length && cmp(a[last + 1], key) == 0
      invariant !found ==> forall k :: last < k < a.Length ==> cmp(a[k], key) > 0
    {
      var current := (last + first) / 2;
      var result := cmp(a[current], key);
      OrderedWith(a[..], current, key, cmp);
      if result < 0 {
        first := current + 1;
      } else {
        last := current - 1;
        if result == 0 {
          found := true;
        }
      }
    }
    r := if found then Some(first) else None;
  }

  lemma OrderedWith<T(!new)>(s: seq<T>, m: int, key: T, cmp: (T, T) -> int)
    requires TotalPreorder(cmp) && Sorted(s, 0, |s|, cmp) && 0 <= m < |s|
    ensures cmp(s[m], key) < 0 ==> forall k :: 0 <= k <= m ==> cmp(s[k], key) < 0
    ensures cmp(s[m], key) >= 0 ==> forall k :: m <= k < |s| ==> cmp(s[k], key) >= 0
    ensures cmp(s[m], key) > 0 ==> forall k :: m <= k < |s| ==> cmp(s[k], key) > 0
  {
  }

  /** Sorting an array and then searching it finds a key exactly when an element equal
      to it was there before. */
  method SortThenSearch<T(!new)>(a: array<T>, key: T, cmp: (T, T) -> int) returns (r: Option<nat>)
    requires TotalPreorder(cmp)
    modifies a
    ensures r.Some? <==> exists x :: x in old(a[..]) && cmp(x, key) == 0
    ensures r.Some? ==> r.value < a.Length && cmp(a[r.value], key) == 0
  {
    ghost var s := a[..];
    ghost var depth := QSort(a, cmp);
    r := BSearch(a, key, cmp);
    if r.Some? {
      assert a[r.value] in multiset(a[..]);
      assert a[r.value] in s;
    } else {
      forall x | x in s
        ensures cmp(x, key) != 0
      {
        assert x in multiset(s);
        assert x in a[..];
      }
    }
  }
}
