// qsort and bsearch, over the elements of an array instead of blocks of size bytes.
module Stdlib {
  // A comparison function as ISO C asks for it: a total preorder.
  ghost predicate Preorder<T(!new)>(cmp: (T, T) -> int) {
    && (forall x, y :: cmp(x, y) < 0 <==> cmp(y, x) > 0)
    && (forall x, y, z :: cmp(x, y) <= 0 && cmp(y, z) <= 0 ==> cmp(x, z) <= 0)
  }

  // The elements of s from lo up to hi are in order.
  ghost predicate Sorted<T>(s: seq<T>, lo: nat, hi: nat, cmp: (T, T) -> int)
    requires hi <= |s|
  {
    forall x, y :: lo <= x < y < hi ==> cmp(s[x], s[y]) <= 0
  }

  ghost predicate Below<T>(s: seq<T>, lo: nat, hi: nat, p: T, cmp: (T, T) -> int)
    requires hi <= |s|
  {
    forall x :: lo <= x < hi ==> cmp(s[x], p) <= 0
  }

  ghost predicate Above<T>(s: seq<T>, lo: nat, hi: nat, p: T, cmp: (T, T) -> int)
    requires hi <= |s|
  {
    forall x :: lo <= x < hi ==> cmp(p, s[x]) <= 0
  }

  // The elements of was from lo up to hi in another order, the others where they were.
  ghost predicate Rearranged<T>(now: seq<T>, was: seq<T>, lo: nat, hi: nat) {
    && |now| == |was| && lo <= hi <= |was|
    && multiset(now[lo..hi]) == multiset(was[lo..hi])
    && now[..lo] == was[..lo] && now[hi..] == was[hi..]
  }

  function Exchanged<T>(s: seq<T>, i: nat, j: nat): (t: seq<T>)
    requires i < |s| && j < |s|
    ensures |t| == |s| && t[i] == s[j] && t[j] == s[i]
    ensures forall x :: 0 <= x < |s| && x != i && x != j ==> t[x] == s[x]
  {
    s[i := s[j]][j := s[i]]
  }

  lemma SwapRearranges<T>(s: seq<T>, lo: nat, hi: nat, i: nat, j: nat)
    requires lo <= i < hi <= |s| && lo <= j < hi
    ensures Rearranged(Exchanged(s, i, j), s, lo, hi)
  {
    hide Exchanged;
    var t, u := Exchanged(s, i, j), s[lo..hi];
    assert t[lo..hi] == Exchanged(u, i - lo, j - lo);
    SameBag(u, i - lo, j - lo);
    assert t[..lo] == s[..lo] && t[hi..] == s[hi..];
  }

  lemma SameBag<T>(u: seq<T>, i: nat, j: nat)
    requires i < |u| && j < |u|
    ensures multiset(Exchanged(u, i, j)) == multiset(u)
  {}

  lemma RearrangedTwice<T>(a: seq<T>, b: seq<T>, c: seq<T>, lo: nat, hi: nat)
    ensures Rearranged(b, a, lo, hi) && Rearranged(c, b, lo, hi) ==> Rearranged(c, a, lo, hi)
  {}

  lemma RearrangedWithin<T>(now: seq<T>, was: seq<T>, lo: nat, hi: nat, lo': nat, hi': nat)
    requires lo <= lo' <= hi' <= hi <= |was| && Rearranged(now, was, lo', hi')
    ensures Rearranged(now, was, lo, hi)
  {
    assert now[lo..hi] == now[lo..lo'] + now[lo'..hi'] + now[hi'..hi];
    assert was[lo..hi] == was[lo..lo'] + was[lo'..hi'] + was[hi'..hi];
    assert now[lo..lo'] == now[..lo'][lo..] == was[..lo'][lo..] == was[lo..lo'];
    assert now[hi'..hi] == now[hi'..][..hi - hi'] == was[hi'..][..hi - hi'] == was[hi'..hi];
    assert now[..lo] == now[..lo'][..lo] == was[..lo'][..lo] == was[..lo];
    assert now[hi..] == now[hi'..][hi - hi'..] == was[hi'..][hi - hi'..] == was[hi..];
  }

  lemma SameLength<T>(now: seq<T>, was: seq<T>, lo: nat, hi: nat)
    requires Rearranged(now, was, lo, hi)
    ensures |now| == |was|
  {}

  // An element in the rearranged part was already there.
  lemma WasThere<T>(now: seq<T>, was: seq<T>, lo: nat, hi: nat, x: nat) returns (y: nat)
    requires Rearranged(now, was, lo, hi) && lo <= x < hi
    ensures lo <= y < hi && was[y] == now[x]
  {
    assert now[x] == now[lo..hi][x - lo];
    assert now[x] in multiset(now[lo..hi]);
    assert now[x] in was[lo..hi];
    var k: nat :| k < hi - lo && was[lo..hi][k] == now[x];
    y := lo + k;
  }

  lemma Untouched<T>(now: seq<T>, was: seq<T>, lo: nat, hi: nat, x: nat)
    requires Rearranged(now, was, lo, hi) && x < |was| && (x < lo || hi <= x)
    ensures now[x] == was[x]
  {
    if x < lo {
      assert now[x] == now[..lo][x] && was[x] == was[..lo][x];
    } else {
      assert now[x] == now[hi..][x - hi] && was[x] == was[hi..][x - hi];
    }
  }

  method Swap<T>(a: array<T>, i: nat, j: nat, ghost lo: nat, ghost hi: nat)
    requires lo <= i < hi <= a.Length && lo <= j < hi
    modifies a
    ensures a[..] == Exchanged(old(a[..]), i, j)
    ensures Rearranged(a[..], old(a[..]), lo, hi)
  {
    SwapRearranges(a[..], lo, hi, i, j);
    a[i], a[j] := a[j], a[i];
  }

  lemma Either<T(!new)>(cmp: (T, T) -> int, x: T, y: T)
    requires Preorder(cmp)
    ensures if cmp(x, y) < 0 then cmp(y, x) > 0 else cmp(y, x) <= 0
  {}

  lemma Through<T(!new)>(cmp: (T, T) -> int, x: T, y: T, z: T)
    requires Preorder(cmp)
    ensures cmp(x, y) <= 0 && cmp(y, z) <= 0 ==> cmp(x, z) <= 0
  {}

  lemma Reflexive<T(!new)>(cmp: (T, T) -> int, x: T)
    requires Preorder(cmp)
    ensures cmp(x, x) == 0
  {}

  // In order but for the element at j, which is not above any later one.
  ghost predicate SortedBut<T>(s: seq<T>, lo: nat, hi: nat, j: nat, cmp: (T, T) -> int)
    requires hi <= |s|
  {
    forall x, y :: lo <= x < y < hi && y != j ==> cmp(s[x], s[y]) <= 0
  }

  lemma SortedShort<T>(s: seq<T>, lo: nat, n: nat, cmp: (T, T) -> int)
    requires n < 2 && lo + n <= |s|
    ensures Sorted(s, lo, lo + n, cmp)
  {}

  lemma SiftStart<T(!new)>(s: seq<T>, lo: nat, j: nat, cmp: (T, T) -> int)
    requires lo <= j < |s| && Sorted(s, lo, j, cmp)
    ensures SortedBut(s, lo, j + 1, j, cmp)
  {}

  lemma SiftStep<T(!new)>(s: seq<T>, lo: nat, hi: nat, j: nat, cmp: (T, T) -> int)
    requires lo < j < hi <= |s| && Preorder(cmp) && SortedBut(s, lo, hi, j, cmp)
    requires cmp(s[j], s[j - 1]) < 0
    ensures SortedBut(Exchanged(s, j, j - 1), lo, hi, j - 1, cmp)
  {}

  lemma SiftDone<T(!new)>(s: seq<T>, lo: nat, hi: nat, j: nat, cmp: (T, T) -> int)
    requires lo <= j < hi <= |s| && Preorder(cmp) && SortedBut(s, lo, hi, j, cmp)
    requires j == lo || cmp(s[j], s[j - 1]) >= 0
    ensures Sorted(s, lo, hi, cmp)
  {
    forall x, y | lo <= x < y < hi
      ensures cmp(s[x], s[y]) <= 0
    {
      if y == j {
        assert cmp(s[j - 1], s[j]) <= 0;
        assert x == j - 1 || cmp(s[x], s[j - 1]) <= 0;
      }
    }
  }

  lemma NotMoved<T>(s: seq<T>, lo: nat, hi: nat)
    requires lo <= hi <= |s|
    ensures Rearranged(s, s, lo, hi)
  {}

  method SiftOnce<T(!new)>(a: array<T>, ghost lo: nat, ghost n: nat, ghost hi: nat, j: nat, cmp: (T, T) -> int, ghost was: seq<T>)
    requires lo < j < hi <= lo + n <= a.Length && Preorder(cmp) && cmp(a[j], a[j - 1]) < 0
    requires Rearranged(a[..], was, lo, lo + n) && SortedBut(a[..], lo, hi, j, cmp)
    modifies a
    ensures Rearranged(a[..], was, lo, lo + n) && SortedBut(a[..], lo, hi, j - 1, cmp)
  {
    hide *;
    ghost var mid := a[..];
    SiftStep(mid, lo, hi, j, cmp);
    Swap(a, j, j - 1, lo, lo + n);
    RearrangedTwice(was, mid, a[..], lo, lo + n);
  }

  // The inner loop: the element at lo + i goes down past the greater ones before it.
  method SiftDown<T(!new)>(a: array<T>, lo: nat, n: nat, i: nat, cmp: (T, T) -> int)
    requires lo + n <= a.Length && i < n && Preorder(cmp) && Sorted(a[..], lo, lo + i, cmp)
    modifies a
    ensures Rearranged(a[..], old(a[..]), lo, lo + n)
    ensures Sorted(a[..], lo, lo + i + 1, cmp)
  {
    hide *;
    var j: nat := i;
    NotMoved(a[..], lo, lo + n);
    SiftStart(a[..], lo, lo + i, cmp);
    while j > 0 && cmp(a[lo + j], a[lo + j - 1]) < 0
      invariant j <= i && Rearranged(a[..], old(a[..]), lo, lo + n)
      invariant SortedBut(a[..], lo, lo + i + 1, lo + j, cmp)
    {
      SiftOnce(a, lo, n, lo + i + 1, lo + j, cmp, old(a[..]));
      j := j - 1;
    }
    SiftDone(a[..], lo, lo + i + 1, lo + j, cmp);
  }

  // Runs of up to twelve elements.
  method InsertionSort<T(!new)>(a: array<T>, lo: nat, n: nat, cmp: (T, T) -> int)
    requires 1 <= n && lo + n <= a.Length && Preorder(cmp)
    modifies a
    ensures Rearranged(a[..], old(a[..]), lo, lo + n)
    ensures Sorted(a[..], lo, lo + n, cmp)
  {
    hide *;
    var i: nat := 1;
    NotMoved(a[..], lo, lo + n);
    SortedShort(a[..], lo, 1, cmp);
    while i < n
      invariant 1 <= i <= n
      invariant Rearranged(a[..], old(a[..]), lo, lo + n) && Sorted(a[..], lo, lo + i, cmp)
    {
      ghost var was := a[..];
      SiftDown(a, lo, n, i, cmp);
      RearrangedTwice(old(a[..]), was, a[..], lo, lo + n);
      i := i + 1;
    }
  }

  lemma EitherWay<T(!new)>(cmp: (T, T) -> int, x: T, y: T)
    requires Preorder(cmp)
    ensures cmp(x, y) <= 0 || cmp(y, x) <= 0
  {}

  // Two elements change places when the second comes before the first.
  method PutInOrder<T(!new)>(a: array<T>, i: nat, j: nat, ghost lo: nat, ghost n: nat, cmp: (T, T) -> int) returns (turned: bool)
    requires lo <= i < j < lo + n <= a.Length && Preorder(cmp)
    modifies a
    ensures Rearranged(a[..], old(a[..]), lo, lo + n) && cmp(a[i], a[j]) <= 0
    ensures a[..] == if turned then Exchanged(old(a[..]), i, j) else old(a[..])
    ensures turned ==> cmp(old(a[j]), old(a[i])) < 0
  {
    hide *;
    NotMoved(a[..], lo, lo + n);
    Either(cmp, a[j], a[i]);
    turned := cmp(a[j], a[i]) < 0;
    if turned {
      Swap(a, i, j, lo, lo + n);
    }
  }

  // The first, middle and last element put in order.
  method SortThree<T(!new)>(a: array<T>, lo: nat, mid: nat, hi: nat, ghost n: nat, cmp: (T, T) -> int)
    requires lo < mid < hi < lo + n <= a.Length && Preorder(cmp)
    modifies a
    ensures Rearranged(a[..], old(a[..]), lo, lo + n)
    ensures cmp(a[lo], a[mid]) <= 0 && cmp(a[mid], a[hi]) <= 0
  {
    hide *;
    ghost var s0 := a[..];
    var turned := PutInOrder(a, lo, mid, lo, n, cmp);
    ghost var s1 := a[..];
    turned := PutInOrder(a, mid, hi, lo, n, cmp);
    ghost var s2 := a[..];
    RearrangedTwice(s0, s1, s2, lo, lo + n);
    if turned {
      Through(cmp, s1[lo], s1[mid], s1[hi]);
      EitherWay(cmp, s1[mid], s1[hi]);
      turned := PutInOrder(a, lo, mid, lo, n, cmp);
      RearrangedTwice(s0, s2, a[..], lo, lo + n);
    }
  }

  // What the partition keeps: nothing above the pivot up to i, nothing below it from j on,
  // and the pivot itself parked beside the last element.
  ghost predicate Split<T>(s: seq<T>, lo: nat, i: int, j: int, hi: nat, p: T, cmp: (T, T) -> int) {
    && lo < hi < |s| && lo <= i < hi && lo <= j < hi && s[hi - 1] == p
    && Below(s, lo, i + 1, p, cmp) && Above(s, j, hi + 1, p, cmp)
  }

  // Where the two scans leave it.
  ghost predicate Scanned<T>(s: seq<T>, lo: nat, i: nat, j: int, hi: nat, p: T, cmp: (T, T) -> int) {
    && lo < i < hi < |s| && lo <= j < hi - 1 && s[hi - 1] == p
    && Below(s, lo, i, p, cmp) && Above(s, j + 1, hi + 1, p, cmp)
    && cmp(p, s[i]) <= 0 && cmp(s[j], p) <= 0
  }

  lemma SplitStart<T>(s: seq<T>, lo: nat, hi: nat, cmp: (T, T) -> int)
    requires lo + 1 < hi < |s| && cmp(s[hi - 1], s[hi - 1]) == 0
    requires cmp(s[lo], s[hi - 1]) <= 0 && cmp(s[hi - 1], s[hi]) <= 0
    ensures Split(s, lo, lo, hi - 1, hi, s[hi - 1], cmp)
  {}

  lemma SplitStep<T>(s: seq<T>, lo: nat, i: nat, j: nat, hi: nat, p: T, cmp: (T, T) -> int)
    requires Scanned(s, lo, i, j, hi, p, cmp) && i < j
    ensures Split(Exchanged(s, i, j), lo, i, j, hi, p, cmp)
  {}

  lemma SplitDone<T>(s: seq<T>, lo: nat, i: nat, j: nat, hi: nat, p: T, cmp: (T, T) -> int)
    requires Scanned(s, lo, i, j, hi, p, cmp) && i >= j
    ensures var t := Exchanged(s, i, hi - 1); t[i] == p && Below(t, lo, i, p, cmp) && Above(t, i + 1, hi + 1, p, cmp)
  {}

  // The two inner loops. Neither tests for the end of the array: the scan from below stops
  // at j or at the parked pivot at the latest, the one from above at i.
  method Scan<T(!new)>(a: array<T>, lo: nat, i0: nat, j0: nat, hi: nat, ghost p: T, cmp: (T, T) -> int)
      returns (i: nat, j: nat)
    requires hi < a.Length && i0 < j0 && Preorder(cmp)
    requires Split(a[..], lo, i0, j0, hi, p, cmp)
    ensures i0 < i <= j0 && i0 <= j < j0 && Scanned(a[..], lo, i, j, hi, p, cmp)
  {
    hide Preorder, Exchanged;
    i, j := i0 + 1, j0 - 1;
    while cmp(a[i], a[hi - 1]) < 0
      invariant i0 < i <= j0 && Below(a[..], lo, i, p, cmp)
      decreases j0 - i
    {
      Either(cmp, a[..][j0], p);
      i := i + 1;
    }
    Either(cmp, a[i], p);
    while cmp(a[hi - 1], a[j]) < 0
      invariant i0 <= j < j0 && Above(a[..], j + 1, hi + 1, p, cmp)
      decreases j
    {
      Either(cmp, p, a[..][j]);
      assert cmp(a[..][i0], p) <= 0;
      j := j - 1;
    }
    Either(cmp, p, a[j]);
  }

  // The pivot ends at the returned place, nothing above it before, nothing below it after.
  method Partition<T(!new)>(a: array<T>, lo: nat, n: nat, cmp: (T, T) -> int) returns (i: nat)
    requires 12 < n && lo + n <= a.Length && Preorder(cmp)
    modifies a
    ensures Rearranged(a[..], old(a[..]), lo, lo + n)
    ensures lo < i < lo + n
    ensures Below(a[..], lo, i, a[i], cmp) && Above(a[..], i + 1, lo + n, a[i], cmp)
  {
    hide *;
    var hi: nat, mid: nat := lo + n - 1, lo + n / 2;
    SortThree(a, lo, mid, hi, n, cmp);
    ghost var sorted := a[..];
    Swap(a, mid, hi - 1, lo, lo + n);
    RearrangedTwice(old(a[..]), sorted, a[..], lo, lo + n);
    ghost var p := a[hi - 1];
    var j: nat := hi - 1;
    i := lo;
    Reflexive(cmp, p);
    SplitStart(a[..], lo, hi, cmp);
    while true
      invariant lo <= i < j < hi && Split(a[..], lo, i, j, hi, p, cmp)
      invariant Rearranged(a[..], old(a[..]), lo, lo + n)
      decreases j - i
    {
      ghost var was := a[..];
      var crossed;
      i, j, crossed := Exchange(a, lo, i, j, hi, n, p, cmp);
      RearrangedTwice(old(a[..]), was, a[..], lo, lo + n);
      if crossed {
        return;
      }
    }
  }

  // One trip: both scans, then the exchange that keeps the split, or, once they have crossed,
  // the one that brings the pivot home.
  method Exchange<T(!new)>(a: array<T>, lo: nat, i0: nat, j0: nat, hi: nat, ghost n: nat, ghost p: T, cmp: (T, T) -> int)
      returns (i: nat, j: nat, crossed: bool)
    requires lo <= i0 < j0 < hi < lo + n <= a.Length && hi == lo + n - 1 && Preorder(cmp)
    requires Split(a[..], lo, i0, j0, hi, p, cmp)
    modifies a
    ensures Rearranged(a[..], old(a[..]), lo, lo + n)
    ensures !crossed ==> i0 < i < j < j0 && Split(a[..], lo, i, j, hi, p, cmp)
    ensures crossed ==> lo < i < hi && Below(a[..], lo, i, a[i], cmp) && Above(a[..], i + 1, lo + n, a[i], cmp)
  {
    hide *;
    i, j := Scan(a, lo, i0, j0, hi, p, cmp);
    crossed := i >= j;
    if crossed {
      SplitDone(a[..], lo, i, j, hi, p, cmp);
      Swap(a, i, hi - 1, lo, lo + n);
    } else {
      SplitStep(a[..], lo, i, j, hi, p, cmp);
      Swap(a, i, j, lo, lo + n);
    }
  }

  lemma Pivoted<T(!new)>(s: seq<T>, t: seq<T>, lo: nat, i: nat, hi: nat, cmp: (T, T) -> int)
    requires lo <= i < hi <= |s| && Preorder(cmp) && Rearranged(t, s, lo, i)
    requires Below(s, lo, i, s[i], cmp) && Above(s, i + 1, hi, s[i], cmp) && Sorted(t, lo, i, cmp)
    ensures Below(t, lo, i, t[i], cmp) && Above(t, i + 1, hi, t[i], cmp)
  {
    forall x | i <= x < hi
      ensures t[x] == s[x]
    {
      Untouched(t, s, lo, i, x);
    }
    forall x | lo <= x < i
      ensures cmp(t[x], t[i]) <= 0
    {
      var y := WasThere(t, s, lo, i, x);
    }
  }

  // Both sides sorted, around a pivot: all of it sorted.
  lemma Joined<T(!new)>(s: seq<T>, t: seq<T>, lo: nat, i: nat, hi: nat, cmp: (T, T) -> int)
    requires lo <= i < hi <= |s| && Preorder(cmp) && Rearranged(t, s, i + 1, hi)
    requires Below(s, lo, i, s[i], cmp) && Above(s, i + 1, hi, s[i], cmp)
    requires Sorted(s, lo, i, cmp) && Sorted(t, i + 1, hi, cmp)
    ensures Sorted(t, lo, hi, cmp)
  {
    hide Rearranged, Preorder;
    SameLength(t, s, i + 1, hi);
    forall x | lo <= x <= i
      ensures t[x] == s[x]
    {
      Untouched(t, s, i + 1, hi, x);
    }
    forall x | i + 1 <= x < hi
      ensures cmp(t[i], t[x]) <= 0
    {
      var y := WasThere(t, s, i + 1, hi, x);
    }
    AroundPivot(t, lo, i, hi, cmp);
  }

  lemma AroundPivot<T(!new)>(t: seq<T>, lo: nat, i: nat, hi: nat, cmp: (T, T) -> int)
    requires lo <= i < hi <= |t| && Preorder(cmp)
    requires Below(t, lo, i, t[i], cmp) && Above(t, i + 1, hi, t[i], cmp)
    requires Sorted(t, lo, i, cmp) && Sorted(t, i + 1, hi, cmp)
    ensures Sorted(t, lo, hi, cmp)
  {
    hide Preorder;
    forall x, y | lo <= x < y < hi
      ensures cmp(t[x], t[y]) <= 0
    {
      if x < i < y {
        Through(cmp, t[x], t[i], t[y]);
      }
    }
  }

  // From s0 by the partition to s1, by the sort of the left side to s2, of the right to s3.
  lemma SidesSorted<T(!new)>(s0: seq<T>, s1: seq<T>, s2: seq<T>, s3: seq<T>, lo: nat, i: nat, hi: nat,
                             cmp: (T, T) -> int)
    requires lo <= i < hi <= |s1| && Preorder(cmp) && Rearranged(s1, s0, lo, hi)
    requires Below(s1, lo, i, s1[i], cmp) && Above(s1, i + 1, hi, s1[i], cmp)
    requires Rearranged(s2, s1, lo, i) && Sorted(s2, lo, i, cmp)
    requires Rearranged(s3, s2, i + 1, hi) && Sorted(s3, i + 1, hi, cmp)
    ensures Rearranged(s3, s0, lo, hi) && Sorted(s3, lo, hi, cmp)
  {
    hide *;
    RearrangedWithin(s2, s1, lo, hi, lo, i);
    RearrangedWithin(s3, s2, lo, hi, i + 1, hi);
    RearrangedTwice(s0, s1, s2, lo, hi);
    RearrangedTwice(s0, s2, s3, lo, hi);
    Pivoted(s1, s2, lo, i, hi, cmp);
    Joined(s2, s3, lo, i, hi, cmp);
  }

  // The n elements from lo on: the same elements, in order.
  method Qsort<T(!new)>(a: array<T>, lo: nat, n: nat, cmp: (T, T) -> int)
    requires lo + n <= a.Length && Preorder(cmp)
    modifies a
    ensures Rearranged(a[..], old(a[..]), lo, lo + n)
    ensures Sorted(a[..], lo, lo + n, cmp) && forall x, y :: lo <= x < y < lo + n ==> cmp(a[x], a[y]) <= 0
    decreases n
  {
    hide *;
    if n < 2 {
      NotMoved(a[..], lo, lo + n);
      SortedShort(a[..], lo, n, cmp);
      return;
    }
    if n <= 12 {
      InsertionSort(a, lo, n, cmp);
      InOrder(a[..], lo, lo + n, cmp);
      return;
    }
    var i := Partition(a, lo, n, cmp);
    var left: nat := i - lo;
    ghost var s1 := a[..];
    Qsort(a, lo, left, cmp);
    ghost var s2 := a[..];
    Qsort(a, i + 1, n - left - 1, cmp);
    SidesSorted(old(a[..]), s1, s2, a[..], lo, i, lo + n, cmp);
    InOrder(a[..], lo, lo + n, cmp);
  }

  lemma InOrder<T>(s: seq<T>, lo: nat, hi: nat, cmp: (T, T) -> int)
    requires hi <= |s| && Sorted(s, lo, hi, cmp)
    ensures forall x, y :: lo <= x < y < hi ==> cmp(s[x], s[y]) <= 0
  {}

  // What bsearch asks of its array: first the elements the key is above, then those it
  // matches, then those it is below.
  ghost predicate Partitioned<S, T>(key: S, s: seq<T>, cmp: (S, T) -> int) {
    forall x, y :: 0 <= x < y < |s| ==>
      && (cmp(key, s[x]) < 0 ==> cmp(key, s[y]) < 0)
      && (cmp(key, s[y]) > 0 ==> cmp(key, s[x]) > 0)
  }

  lemma SortedPartitioned<T(!new)>(key: T, s: seq<T>, cmp: (T, T) -> int)
    requires Preorder(cmp) && Sorted(s, 0, |s|, cmp)
    ensures Partitioned(key, s, cmp)
  {
    forall x, y | 0 <= x < y < |s|
      ensures cmp(key, s[x]) < 0 ==> cmp(key, s[y]) < 0
      ensures cmp(key, s[y]) > 0 ==> cmp(key, s[x]) > 0
    {
      Through(cmp, s[x], s[y], key);
      Through(cmp, key, s[x], s[y]);
      Either(cmp, key, s[x]);
      Either(cmp, key, s[y]);
      Either(cmp, s[x], key);
      Either(cmp, s[y], key);
    }
  }

  // A match when there is one, and the place past the end for the null pointer.
  method Bsearch<S, T>(key: S, a: array<T>, cmp: (S, T) -> int) returns (m: nat)
    requires Partitioned(key, a[..], cmp)
    ensures m < a.Length ==> cmp(key, a[m]) == 0
    ensures m >= a.Length ==> forall x :: 0 <= x < a.Length ==> cmp(key, a[x]) != 0
  {
    var lo: nat, hi: nat := 0, a.Length;
    while lo < hi
      invariant lo <= hi <= a.Length
      invariant forall x :: 0 <= x < lo ==> cmp(key, a[x]) > 0
      invariant forall x :: hi <= x < a.Length ==> cmp(key, a[x]) < 0
    {
      m := lo + (hi - lo) / 2;
      var r := cmp(key, a[m]);
      if r == 0 {
        return;
      }
      assert forall x :: 0 <= x < a.Length ==> a[x] == a[..][x];
      if r < 0 {
        hi := m;
      } else {
        lo := m + 1;
      }
    }
    m := a.Length;
  }

  // Sorting, then searching: a match is found exactly when the unsorted array held one.
  method SortThenSearch<T(!new)>(a: array<T>, key: T, cmp: (T, T) -> int) returns (m: nat)
    requires Preorder(cmp)
    modifies a
    ensures m < a.Length <==> exists x :: 0 <= x < a.Length && cmp(key, old(a[..])[x]) == 0
    ensures m < a.Length ==> cmp(key, a[m]) == 0
  {
    ghost var was := a[..];
    Qsort(a, 0, a.Length, cmp);
    SortedPartitioned(key, a[..], cmp);
    m := Bsearch(key, a, cmp);
    SameMatches(key, a[..], was, cmp);
  }

  lemma SameMatches<T>(key: T, now: seq<T>, was: seq<T>, cmp: (T, T) -> int)
    requires Rearranged(now, was, 0, |was|)
    ensures (exists x :: 0 <= x < |now| && cmp(key, now[x]) == 0)
        <==> (exists x :: 0 <= x < |was| && cmp(key, was[x]) == 0)
  {
    if x :| 0 <= x < |now| && cmp(key, now[x]) == 0 {
      var y := WasThere(now, was, 0, |was|, x);
    }
    if x :| 0 <= x < |was| && cmp(key, was[x]) == 0 {
      var y := WasThere(was, now, 0, |was|, x);
    }
  }
}
