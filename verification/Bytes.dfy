// Byte sequences, and the two file operations everything above them must refine.
module Bytes {
  newtype byte = x: int | 0 <= x < 256

  const TWO_32: int := 0x1_0000_0000

  function Min(a: int, b: int): int {
    if a < b then a else b
  }

  // A file that is not there has no bytes.
  function FileIn(files: map<string, seq<byte>>, path: string): seq<byte> {
    if path in files then files[path] else []
  }

  // The bytes of f in [off, off + n), cut at the end of the file.
  function Slice(f: seq<byte>, off: nat, n: nat): seq<byte> {
    if off >= |f| then [] else f[off..Min(off + n, |f|)]
  }

  // f with d written at off, growing it when d reaches past the end.
  function Splice(f: seq<byte>, off: nat, d: seq<byte>): seq<byte>
    requires off <= |f|
  {
    f[..off] + d + if off + |d| < |f| then f[off + |d|..] else []
  }

  lemma SliceSplit(f: seq<byte>, off: nat, n: nat, done: nat)
    requires done <= |Slice(f, off, n)|
    ensures done <= n && Slice(f, off, n) == Slice(f, off, n)[..done] + Slice(f, off + done, n - done)
  {}

  lemma SpliceTwice(f: seq<byte>, off: nat, d: seq<byte>, e: seq<byte>)
    requires off <= |f|
    ensures off + |d| <= |Splice(f, off, d)|
    ensures Splice(Splice(f, off, d), off + |d|, e) == Splice(f, off, d + e)
  {
    var g := Splice(f, off, d);
    assert g[..off + |d|] == f[..off] + d;
  }

  lemma SpliceNothing(f: seq<byte>, off: nat)
    requires off <= |f|
    ensures Splice(f, off, []) == f
  {}

  lemma SpliceAtEnd(f: seq<byte>, d: seq<byte>)
    ensures Splice(f, |f|, d) == f + d
  {}

  // The bytes t stand in m at p.
  ghost predicate Has(m: seq<byte>, p: nat, t: seq<byte>) {
    p + |t| <= |m| && m[p..p + |t|] == t
  }

  lemma HasBoth(m: seq<byte>, p: nat, t: seq<byte>, u: seq<byte>)
    requires Has(m, p, t + u)
    ensures Has(m, p, t) && Has(m, p + |t|, u)
  {
    var w := m[p..p + |t + u|];
    var a, b := m[p..p + |t|], m[p + |t|..p + |t| + |u|];
    assert forall k :: 0 <= k < |t| ==> a[k] == w[k];
    assert forall k :: 0 <= k < |u| ==> b[k] == w[|t| + k];
  }

  lemma SubSlice(m: seq<byte>, a: nat, b: nat, x: nat, y: nat)
    requires a <= b <= |m| && x <= y <= b - a
    ensures m[a..b][x..y] == m[a + x..a + y]
  {
    var s, t := m[a..b][x..y], m[a + x..a + y];
    assert |s| == |t| && forall k :: 0 <= k < |s| ==> s[k] == t[k];
  }

  // The first c in s from i on, or the end.
  function IndexOf(s: seq<byte>, c: byte, i: nat): (e: nat)
    requires i <= |s|
    ensures i <= e <= |s| && c !in s[i..e] && (e < |s| ==> s[e] == c)
    decreases |s| - i
  {
    if i == |s| || s[i] == c then i
    else
      var e := IndexOf(s, c, i + 1);
      assert s[i..e] == [s[i]] + s[i + 1..e];
      e
  }

  lemma {:induction false} IndexOfIs(s: seq<byte>, c: byte, i: nat, e: nat)
    requires i <= e <= |s| && (forall x :: i <= x < e ==> s[x] != c) && (e == |s| || s[e] == c)
    ensures IndexOf(s, c, i) == e
    decreases e - i
  {
    if i < e {
      IndexOfIs(s, c, i + 1, e);
    }
  }
}
