// rc_normalize and __rc_abspath.
module RcPath {
  import opened Bytes

  const SLASH: byte := 47
  const DOT: byte := 46
  const PATH_MAX: nat := 127   // a path and its NUL fill the 128-byte buffers

  // The segments between slashes, empty ones included.
  function Split(p: seq<byte>): (v: seq<seq<byte>>)
    ensures v != []
  {
    var k := IndexOf(p, SLASH, 0);
    if k < |p| then [p[..k]] + Split(p[k + 1..]) else [p]
  }

  // One segment walked from a directory, given as the names down to it from the root.
  function Step(at: seq<seq<byte>>, name: seq<byte>): seq<seq<byte>> {
    if name == [] || name == [DOT] then at
    else if name == [DOT, DOT] then if at == [] then at else at[..|at| - 1]
    else at + [name]
  }

  function Walk(at: seq<seq<byte>>, names: seq<seq<byte>>): seq<seq<byte>>
    decreases |names|
  {
    if names == [] then at else Walk(Step(at, names[0]), names[1..])
  }

  const NOTHING: seq<seq<byte>> := [[]]

  // A directory's path.
  function Tail(at: seq<seq<byte>>): seq<byte> {
    if at == [] then [] else Tail(at[..|at| - 1]) + [SLASH] + at[|at| - 1]
  }

  function PathOf(at: seq<seq<byte>>): (p: seq<byte>)
    ensures p != []
  {
    if at == [] then [SLASH] else Tail(at)
  }

  // What a path means.
  function Normal(p: seq<byte>): seq<byte> {
    PathOf(Walk([], Split(p)))
  }

  ghost predicate IsName(name: seq<byte>) {
    name != [] && name != [DOT] && name != [DOT, DOT] && SLASH !in name
  }

  ghost predicate Clean(at: seq<seq<byte>>) {
    forall i :: 0 <= i < |at| ==> IsName(at[i])
  }

  lemma {:induction false} SplitJoined(a: seq<byte>, b: seq<byte>)
    ensures Split(a + [SLASH] + b) == Split(a) + Split(b)
    decreases |a|
  {
    hide *;
    var k := IndexOf(a, SLASH, 0);
    var p := a + [SLASH] + b;
    FirstSegment(a, b);
    SplitUnfold(a);
    SplitUnfold(p);
    if k < |a| {
      SplitJoined(a[k + 1..], b);
      assert p[k + 1..] == a[k + 1..] + [SLASH] + b;
      assert p[..k] == a[..k];
      assert [a[..k]] + (Split(a[k + 1..]) + Split(b)) == [a[..k]] + Split(a[k + 1..]) + Split(b);
    } else {
      assert p[..k] == a && p[k + 1..] == b;
    }
  }

  lemma SplitUnfold(p: seq<byte>)
    ensures var k := IndexOf(p, SLASH, 0); Split(p) == if k < |p| then [p[..k]] + Split(p[k + 1..]) else [p]
  {}

  lemma FirstSegment(a: seq<byte>, b: seq<byte>)
    ensures IndexOf(a + [SLASH] + b, SLASH, 0) == IndexOf(a, SLASH, 0)
  {
    var k := IndexOf(a, SLASH, 0);
    assert forall x :: 0 <= x < k ==> a[x] == a[0..k][x];
    IndexOfIs(a + [SLASH] + b, SLASH, 0, k);
  }

  lemma {:induction false} WalkTwice(at: seq<seq<byte>>, v: seq<seq<byte>>, w: seq<seq<byte>>)
    ensures Walk(at, v + w) == Walk(Walk(at, v), w)
    decreases |v|
  {
    if v != [] {
      WalkTwice(Step(at, v[0]), v[1..], w);
      assert (v + w)[1..] == v[1..] + w;
    } else {
      assert v + w == w;
    }
  }

  lemma {:induction false} WalkClean(at: seq<seq<byte>>, names: seq<seq<byte>>)
    requires Clean(at) && forall i :: 0 <= i < |names| ==> SLASH !in names[i]
    ensures Clean(Walk(at, names))
    decreases |names|
  {
    if names != [] {
      WalkClean(Step(at, names[0]), names[1..]);
    }
  }

  lemma {:induction false} SegmentsHaveNoSlash(p: seq<byte>)
    ensures forall i :: 0 <= i < |Split(p)| ==> SLASH !in Split(p)[i]
    decreases |p|
  {
    var k := IndexOf(p, SLASH, 0);
    assert p[..k] == p[0..k];
    if k < |p| {
      SegmentsHaveNoSlash(p[k + 1..]);
    }
  }

  // Walking down a clean path from the root arrives where it says.
  lemma {:induction false} WalkDown(at: seq<seq<byte>>)
    requires Clean(at)
    ensures Walk([], Split(Tail(at))) == at
    decreases |at|
  {
    hide *;
    TailUnfold(at);
    if at != [] {
      var up, name := at[..|at| - 1], at[|at| - 1];
      WalkDown(up);
      SplitJoined(Tail(up), name);
      WalkTwice([], Split(Tail(up)), Split(name));
      WalkName(up, name);
      assert up + [name] == at;
    } else {
      AtEnd([], []);
      assert Tail(at) == [] && Tail(at)[0..] == [];
    }
  }

  lemma TailUnfold(at: seq<seq<byte>>)
    ensures at == [] ==> Tail(at) == []
    ensures Clean(at) && at != [] ==>
              var up, name := at[..|at| - 1], at[|at| - 1]; Tail(at) == Tail(up) + [SLASH] + name && Clean(up) && IsName(name)
  {}

  lemma WalkName(up: seq<seq<byte>>, name: seq<byte>)
    requires IsName(name)
    ensures Walk(up, Split(name)) == up + [name]
  {
    IndexOfIs(name, SLASH, 0, |name|);
    assert Split(name) == [name] && [name][1..] == [];
  }

  lemma NormalIdempotent(p: seq<byte>)
    ensures Normal(Normal(p)) == Normal(p)
  {
    var at := Walk([], Split(p));
    SegmentsHaveNoSlash(p);
    WalkClean([], Split(p));
    if at == [] {
      RootWalk();
    } else {
      WalkDown(at);
    }
  }

  lemma RootWalk()
    ensures Walk([], Split([SLASH])) == []
  {
    assert [] + [SLASH] + [] == [SLASH];
    SplitJoined([], []);
    assert Split([]) == NOTHING;
    WalkTwice([], NOTHING, NOTHING);
    assert NOTHING[1..] == [];
  }

  // A relative path is walked from where the directory's own path leads.
  lemma RelativeWalk(cwd: seq<byte>, rel: seq<byte>)
    ensures Normal(cwd + [SLASH] + rel) == PathOf(Walk(Walk([], Split(cwd)), Split(rel)))
  {
    SplitJoined(cwd, rel);
    WalkTwice([], Split(cwd), Split(rel));
  }

  // What normalizing makes of a path, its last segment at a time: a name goes behind the path of
  // what is before it, ".." takes such a name away again and stops at the root, and "." and an
  // empty segment change nothing.
  lemma NormalLaws(p: seq<byte>, name: seq<byte>)
    requires name != [] && 47 !in name && name != [46] && name != [46, 46]
    ensures Normal(p + [47] + name) == (if Normal(p) == [47] then [47] + name else Normal(p) + [47] + name)
    ensures Normal(p + [47] + name + [47] + [46, 46]) == Normal(p)
    ensures Normal(p + [47] + [46]) == Normal(p + [47] + []) == Normal(p)
    ensures Normal([]) == Normal([47] + [46, 46]) == [47]
  {
    hide Split, Walk, PathOf, Normal, Step;
    var at := Walk([], Split(p));
    NormalIs(p, at);
    RelativeWalk(p, name);
    WalkName(at, name);
    SegmentsHaveNoSlash(p);
    WalkClean([], Split(p));
    NamedPath(at, name);
    RelativeWalk(p + [47] + name, [46, 46]);
    SplitJoined(p, name);
    WalkTwice([], Split(p), Split(name));
    DotSegments(at);
    DotSegments(at + [name]);
    DotSegments([]);
    assert (at + [name])[..|at|] == at;
    RelativeWalk(p, [46]);
    RelativeWalk(p, []);
    NormalIs([], []);
    RelativeWalk([], [46, 46]);
    assert [] + [47] + [46, 46] == [47] + [46, 46];
    RootPath();
  }

  lemma RootPath()
    ensures PathOf([]) == [47]
  {}

  lemma DotSegments(at: seq<seq<byte>>)
    ensures Walk(at, Split([46])) == at && Walk(at, Split([])) == at
    ensures Walk(at, Split([46, 46])) == if at == [] then at else at[..|at| - 1]
  {
    var none: seq<byte> := [];
    assert Split([46]) == [[46]] && Split([46, 46]) == [[46, 46]] && none[0..] == none;
    assert [[46]][1..] == [] && [[46, 46]][1..] == [];
    AtEnd(none, at);
  }

  lemma NamedPath(at: seq<seq<byte>>, name: seq<byte>)
    requires Clean(at)
    ensures PathOf(at + [name]) == if PathOf(at) == [47] then [47] + name else PathOf(at) + [47] + name
  {
    assert (at + [name])[..|at|] == at;
    if at != [] {
      assert IsName(at[|at| - 1]);
      assert |Tail(at)| >= 2;
    }
  }

  // The text built so far: the path of `at`, with or without a slash after it.
  ghost predicate Built(text: seq<byte>, at: seq<seq<byte>>) {
    text == PathOf(at) || (at != [] && text == Tail(at) + [SLASH])
  }

  // What is left to walk at p[i..], a slash or the end.
  lemma AtSlash(p: seq<byte>, i: nat, at: seq<seq<byte>>)
    requires i < |p| && p[i] == SLASH
    ensures Walk(at, Split(p[i..])) == Walk(at, Split(p[i + 1..]))
  {
    var q := p[i..];
    assert IndexOf(q, SLASH, 0) == 0 && q[..0] == [] && q[1..] == p[i + 1..];
  }

  lemma AtEnd(p: seq<byte>, at: seq<seq<byte>>)
    ensures Walk(at, Split(p[|p|..])) == at
  {
    assert p[|p|..] == [] && Split([]) == NOTHING;
    assert Walk(at, NOTHING) == Walk(at, NOTHING[1..]) && NOTHING[1..] == [];
  }

  lemma AtName(p: seq<byte>, s: nat, e: nat, at: seq<seq<byte>>)
    requires s < e <= |p| && SLASH !in p[s..e] && (e == |p| || p[e] == SLASH)
    ensures Walk(at, Split(p[s..])) == Walk(Step(at, p[s..e]), Split(p[e..]))
  {
    var q, n := p[s..], e - s;
    assert forall x :: 0 <= x < n ==> q[x] == p[s..e][x];
    IndexOfIs(q, SLASH, 0, n);
    assert q[..n] == p[s..e];
    if e < |p| {
      assert q[n + 1..] == p[e + 1..];
      Unsplit(q, n, at);
      AtSlash(p, e, Step(at, p[s..e]));
    } else {
      assert q == p[s..e];
      Unsplit(q, n, at);
      AtEnd(p, Step(at, p[s..e]));
    }
  }

  lemma Unsplit(q: seq<byte>, n: nat, at: seq<seq<byte>>)
    requires n == IndexOf(q, SLASH, 0)
    ensures n < |q| ==> Walk(at, Split(q)) == Walk(Step(at, q[..n]), Split(q[n + 1..]))
    ensures n == |q| ==> Walk(at, Split(q)) == Step(at, q)
  {
    if n < |q| {
      assert Split(q)[1..] == Split(q[n + 1..]);
    } else {
      assert Split(q)[1..] == [];
    }
  }

  // `..`: back to the slash before the last name, or to the root.
  lemma Popped(text: seq<byte>, at: seq<seq<byte>>, o: nat)
    requires Built(text, at) && Clean(at) && |text| > 1
    requires 1 <= o < |text| && (o == 1 || text[o - 1] == SLASH) && (forall x :: o <= x < |text| - 1 ==> text[x] != SLASH)
    ensures at != [] && Built(text[..o], at[..|at| - 1])
  {
    hide Tail, Clean;
    LastName(text, at);
    var up, name := at[..|at| - 1], at[|at| - 1];
    var n := |Tail(up)|;
    assert forall x :: 0 <= x < |name| ==> name[x] == text[n + 1..n + 1 + |name|][x] == text[n + 1 + x];
    assert o == n + 1;
    assert text[..o] == Tail(up) + [SLASH];
  }

  // The text ends in a slash and the last name, and perhaps one more slash.
  lemma LastName(text: seq<byte>, at: seq<seq<byte>>)
    requires Built(text, at) && Clean(at) && |text| > 1
    ensures at != []
    ensures var up, name := Tail(at[..|at| - 1]), at[|at| - 1];
            var n := |up|;
            && name != [] && SLASH !in name && n + 1 + |name| <= |text| <= n + 2 + |name| && (n == 0 <==> |at| == 1)
            && text[..n] == up && text[n] == SLASH && text[n + 1..n + 1 + |name|] == name
  {
    assert IsName(at[|at| - 1]);
  }

  lemma Pushed(text: seq<byte>, at: seq<seq<byte>>, name: seq<byte>)
    requires Built(text, at) && IsName(name) && Clean(at)
    ensures Built((if |text| > 1 && text[|text| - 1] != SLASH then text + [SLASH] else text) + name, at + [name])
  {
    assert (at + [name])[..|at|] == at;
    if at != [] {
      var last := at[|at| - 1];
      assert IsName(last);
      if text == PathOf(at) {
        assert text[|text| - 1] == last[|last| - 1];
      }
    }
  }

  lemma NameRead(name: seq<byte>, at: seq<seq<byte>>)
    requires name != [] && SLASH !in name && Clean(at)
    ensures name == [DOT] <==> |name| == 1 && name[0] == DOT
    ensures name == [DOT, DOT] <==> |name| == 2 && name[0] == DOT && name[1] == DOT
    ensures name == [DOT] ==> Step(at, name) == at
    ensures name == [DOT, DOT] ==> Step(at, name) == if at == [] then [] else at[..|at| - 1]
    ensures name != [DOT] && name != [DOT, DOT] ==> IsName(name) && Step(at, name) == at + [name]
    ensures Clean(Step(at, name))
  {}

  lemma RootBuilt(text: seq<byte>, at: seq<seq<byte>>)
    requires Built(text, at) && Clean(at)
    ensures text != [] && text[0] == SLASH && (|text| == 1 <==> at == [])
    ensures at == [] ==> text == [SLASH]
  {
    if at != [] {
      assert IsName(at[|at| - 1]);
      TailStarts(at);
    }
  }

  lemma {:induction false} TailStarts(at: seq<seq<byte>>)
    requires at != []
    ensures Tail(at) != [] && Tail(at)[0] == SLASH
    decreases |at|
  {
    if |at| > 1 {
      TailStarts(at[..|at| - 1]);
    }
  }

  // `..`: drop the trailing slash or a byte, then back to the last slash.
  method Pop(tmp: array<byte>, o0: nat, ghost at: seq<seq<byte>>) returns (o: nat)
    requires o0 <= tmp.Length && Built(tmp[..o0], at) && Clean(at)
    ensures 1 <= o <= o0 && Built(tmp[..o], if at == [] then [] else at[..|at| - 1])
  {
    hide Built, Clean;
    o := o0;
    RootBuilt(tmp[..o0], at);
    if o > 1 {
      o := o - 1;
      while o > 1 && tmp[o - 1] != SLASH
        invariant 1 <= o < o0 && forall x :: o <= x < o0 - 1 ==> tmp[x] != SLASH
      {
        o := o - 1;
      }
      Popped(tmp[..o0], at, o);
      assert tmp[..o0][..o] == tmp[..o];
    }
  }

  // A name behind a slash; within 127 bytes the bound of the copy never cuts it.
  method Push(tmp: array<byte>, o0: nat, p: array<byte>, s: nat, e: nat, ghost at: seq<seq<byte>>) returns (o: nat)
    requires tmp.Length == PATH_MAX + 1 && tmp != p && 1 <= o0 <= s <= e <= PATH_MAX && e <= p.Length
    requires o0 > 1 ==> o0 < s
    requires Built(tmp[..o0], at) && Clean(at) && IsName(p[s..e])
    modifies tmp
    ensures 1 <= o <= e && Built(tmp[..o], at + [p[s..e]])
  {
    hide Built, Clean, IsName;
    Pushed(tmp[..o0], at, p[s..e]);
    o := o0;
    if o > 1 && tmp[o - 1] != SLASH {
      tmp[o] := SLASH;
      o := o + 1;
    }
    ghost var head := tmp[..o];
    assert head == if o0 > 1 && old(tmp[o0 - 1]) != SLASH then old(tmp[..o0]) + [SLASH] else old(tmp[..o0]);
    var n, k := e - s, 0;
    ghost var o1 := o;
    while k < n && o < PATH_MAX
      invariant k <= n && o == o1 + k <= s + k && tmp[..o] == head + p[s..s + k]
    {
      tmp[o] := p[s + k];
      o := o + 1;
      k := k + 1;
    }
    assert k == n;
  }

  lemma Started(text: seq<byte>)
    requires text == [SLASH]
    ensures Built(text, []) && Clean([])
  {}

  lemma PartOf(all: seq<byte>, path: seq<byte>, s: nat, i: nat)
    requires path <= all && s <= i <= |path|
    ensures all[s..i] == path[s..i]
  {
    var a, b := all[s..i], path[s..i];
    assert |a| == |b| && forall k :: 0 <= k < |a| ==> a[k] == b[k];
  }

  lemma NormalIs(path: seq<byte>, at: seq<seq<byte>>)
    requires at == Walk([], Split(path))
    ensures Normal(path) == PathOf(at)
  {}

  method SkipSlashes(p: array<byte>, ghost path: seq<byte>, i0: nat, ghost at: seq<seq<byte>>) returns (i: nat)
    requires i0 < |path| < p.Length && p[..|path|] == path && p[|path|] == 0 && path[i0] == SLASH
    ensures i0 < i <= |path| && (i < |path| ==> path[i] != SLASH)
    ensures Walk(at, Split(path[i..])) == Walk(at, Split(path[i0..]))
  {
    hide Walk, Split;
    i := i0;
    while p[i] == SLASH
      invariant i0 <= i <= |path| && (i == i0 ==> p[i] == SLASH) && Walk(at, Split(path[i..])) == Walk(at, Split(path[i0..]))
      decreases |path| - i
    {
      assert path[i] == p[..|path|][i];
      AtSlash(path, i, at);
      i := i + 1;
    }
    if i < |path| {
      assert path[i] == p[..|path|][i];
    }
  }

  method SkipName(p: array<byte>, ghost path: seq<byte>, s: nat) returns (i: nat)
    requires s < |path| < p.Length && p[..|path|] == path && p[|path|] == 0 && path[s] != SLASH && 0 !in path
    ensures s < i <= |path| && SLASH !in path[s..i] && (i < |path| ==> path[i] == SLASH)
  {
    i := s;
    assert forall x :: 0 <= x < |path| ==> path[x] == p[x] && path[x] != 0;
    while p[i] != 0 && p[i] != SLASH
      invariant s <= i <= |path| && SLASH !in path[s..i]
      decreases |path| - i
    {
      assert path[s..i + 1] == path[s..i] + [path[i]];
      i := i + 1;
    }
  }

  method TrimSlash(tmp: array<byte>, o0: nat, ghost at: seq<seq<byte>>) returns (o: nat)
    requires 1 <= o0 <= tmp.Length && Built(tmp[..o0], at) && Clean(at)
    ensures o <= o0 && tmp[..o] == PathOf(at) && o > 0
  {
    o := o0;
    if at != [] {
      assert IsName(at[|at| - 1]);
      assert Tail(at)[|Tail(at)| - 1] == at[|at| - 1][|at[|at| - 1]| - 1];
    }
    if o > 1 && tmp[o - 1] == SLASH {
      o := o - 1;
      assert tmp[..o] == tmp[..o0][..o];
    }
  }

  // One pass: the path evaluated name by name, in a buffer of its own, then copied back over
  // itself. It never gets longer.
  method Normalize(p: array<byte>, ghost path: seq<byte>)
    requires 0 < |path| <= PATH_MAX && |path| < p.Length && p[..|path|] == path && p[|path|] == 0
    requires path[0] == SLASH && 0 !in path
    modifies p
    ensures var n := Normal(path);
            && |n| <= |path| && p[..|n|] == n && p[|n|] == 0 && p[|n| + 1..] == old(p[|n| + 1..])
  {
    hide Built, Clean, Walk, Split, Step, PathOf;
    var tmp := new byte[PATH_MAX + 1];
    var o: nat, i: nat := 1, 0;
    tmp[0] := SLASH;
    ghost var at: seq<seq<byte>> := [];
    Started(tmp[..1]);
    assert path[0..] == path;
    while p[i] != 0
      invariant forall x :: 0 <= x < p.Length ==> p[x] == old(p[x])
      invariant i <= |path| && 1 <= o <= tmp.Length && (o == 1 || o <= i) && (i < |path| ==> path[i] == SLASH)
      invariant Built(tmp[..o], at) && Clean(at) && Walk(at, Split(path[i..])) == Walk([], Split(path))
      decreases |path| - i
    {
      assert p[..|path|] == path;
      i := SkipSlashes(p, path, i, at);
      if p[i] == 0 {
        break;
      }
      var s := i;
      i := SkipName(p, path, i);
      AtName(path, s, i, at);
      ghost var name := path[s..i];
      PartOf(p[..], path, s, i);
      assert p[..][s..i] == p[s..i];
      NameRead(name, at);
      var n := i - s;
      ghost var was := at;
      at := Step(at, name);
      if n == 1 && p[s] == DOT {
        continue;
      }
      if n == 2 && p[s] == DOT && p[s + 1] == DOT {
        o := Pop(tmp, o, was);
        continue;
      }
      o := Push(tmp, o, p, s, i, was);
    }
    assert i == |path|;
    AtEnd(path, at);
    NormalIs(path, at);
    o := TrimSlash(tmp, o, at);
    tmp[o] := 0;
    assert p[..] == old(p[..]) && tmp[..o + 1] == Normal(path) + [0];
    CopyBack(p, tmp, o + 1);
    Ended(p[..], Normal(path), o);
  }

  lemma Ended(all: seq<byte>, n: seq<byte>, o: nat)
    requires |n| == o && n + [0] <= all
    ensures all[..o] == n && all[o] == 0
  {
    assert all[..o] == (n + [0])[..o];
  }

  method CopyBack(p: array<byte>, tmp: array<byte>, n: nat)
    requires n <= p.Length && n <= tmp.Length && p != tmp
    modifies p
    ensures p[..n] == tmp[..n] && p[n..] == old(p[n..])
  {
    forall k | 0 <= k < n {
      p[k] := tmp[k];
    }
  }

  // The current directory, the root when none is set.
  function Cwd(cwd: seq<byte>): seq<byte> {
    if cwd == [] then [SLASH] else cwd
  }

  // A path as the caller meant it, before it is cut to the buffer and normalized.
  function Meant(rel: seq<byte>, cwd: seq<byte>): seq<byte> {
    var c := Cwd(cwd);
    if rel == [] then c
    else if rel[0] == SLASH then rel
    else if c[|c| - 1] == SLASH then c + rel
    else c + [SLASH] + rel
  }

  function Cut(p: seq<byte>): seq<byte> {
    p[..Min(|p|, PATH_MAX)]
  }

  // Bytes of s appended to out, up to the limit.
  method Append(out: array<byte>, o0: nat, s: seq<byte>) returns (o: nat)
    requires out.Length == PATH_MAX + 1 && o0 <= PATH_MAX
    modifies out
    ensures o == Min(o0 + |s|, PATH_MAX) && out[..o] == Cut(old(out[..o0]) + s)
  {
    o := o0;
    var i := 0;
    while i < |s| && o < PATH_MAX
      invariant i <= |s| && o == o0 + i <= PATH_MAX && out[..o] == old(out[..o0]) + s[..i]
    {
      out[o] := s[i];
      o := o + 1;
      i := i + 1;
    }
    assert out[..o] == Cut(old(out[..o0]) + s);
  }

  lemma CutTwice(a: seq<byte>, b: seq<byte>)
    ensures Cut(Cut(a) + b) == Cut(a + b) && Cut([] + a) == Cut(a)
  {
    assert [] + a == a;
  }

  // The text, one piece after another, as far as the buffer goes.
  method Assemble(rel: seq<byte>, cwd: seq<byte>, out: array<byte>) returns (o: nat)
    requires out.Length == PATH_MAX + 1
    modifies out
    ensures o <= PATH_MAX && out[..o] == Cut(Meant(rel, cwd))
  {
    hide Cut;
    var c := if cwd == [] then [SLASH] else cwd;
    assert out[..0] == [];
    if rel != [] && rel[0] == SLASH {
      CutTwice(rel, []);
      o := Append(out, 0, rel);
      return;
    }
    CutTwice(c, rel);
    o := Append(out, 0, c);
    if rel == [] {
      return;
    }
    CutTwice(c, [SLASH]);
    CutTwice(c + [SLASH], rel);
    LastKept(c);
    if o < PATH_MAX && out[o - 1] != SLASH {
      assert out[o - 1] == out[..o][o - 1];
      o := Append(out, o, [SLASH]);
    } else if o < PATH_MAX {
      assert out[o - 1] == out[..o][o - 1];
    } else {
      FullAlready(c, rel);
    }
    o := Append(out, o, rel);
  }

  lemma LastKept(c: seq<byte>)
    requires c != []
    ensures Cut(c) != [] && |Cut(c)| == Min(|c|, PATH_MAX)
    ensures |Cut(c)| < PATH_MAX ==> Cut(c)[|Cut(c)| - 1] == c[|c| - 1]
  {}

  lemma FullAlready(c: seq<byte>, rel: seq<byte>)
    requires |Cut(c)| == PATH_MAX
    ensures Cut(c + rel) == Cut(c) == Cut(c + [SLASH] + rel)
  {}

  // How long the text is before it is normalized: a relative path behind the current directory
  // and a slash, which one that ends in a slash already has.
  function Length(rel: seq<byte>, cwd: seq<byte>): nat {
    if rel != [] && rel[0] == SLASH then |rel|
    else if cwd == [] then 1 + |rel|
    else |cwd| + |rel| + if rel == [] || cwd[|cwd| - 1] == SLASH then 0 else 1
  }

  // Where the walk begins: at the root for an absolute path, else at the current directory, the
  // root if none is set.
  function Start(rel: seq<byte>, cwd: seq<byte>): seq<seq<byte>> {
    if (rel != [] && rel[0] == SLASH) || cwd == [] then [] else Walk([], Split(cwd))
  }

  // __rc_abspath, the system's answer about the current directory given.
  method Abspath(rel: seq<byte>, cwd: seq<byte>, out: array<byte>)
    requires out.Length == 128 && 0 !in rel && 0 !in cwd && |cwd| <= 127
    requires cwd == [] || cwd[0] == SLASH
    modifies out
    ensures var n := Normal(Cut(Meant(rel, cwd)));
            |n| <= 127 && out[..|n|] == n && out[|n|] == 0
    ensures Length(rel, cwd) <= 127 ==>
              var n := PathOf(Walk(Start(rel, cwd), Split(rel)));
              |n| <= 127 && out[..|n|] == n && out[|n|] == 0
  {
    hide Normal, Length, Start, Walk, Split, PathOf;
    if Length(rel, cwd) <= PATH_MAX {
      StartsAtCwd(rel, cwd);
    }
    var o := Assemble(rel, cwd, out);
    ghost var path := out[..o];
    assert 0 !in path && path != [] && path[0] == SLASH;
    out[o] := 0;
    Normalize(out, path);
  }

  // A path that fits, from the current directory itself.
  lemma StartsAtCwd(rel: seq<byte>, cwd: seq<byte>)
    requires Length(rel, cwd) <= PATH_MAX
    ensures Normal(Cut(Meant(rel, cwd))) == PathOf(Walk(Start(rel, cwd), Split(rel)))
  {
    hide Split, Walk, PathOf, Normal;
    assert |Meant(rel, cwd)| == Length(rel, cwd);
    AbspathMeans(rel, cwd);
    RootWalk();
  }

  // A slash already there is not doubled, and nothing changes.
  lemma BehindSlash(c: seq<byte>, rel: seq<byte>)
    requires c != [] && c[|c| - 1] == SLASH
    ensures Normal(c + rel) == PathOf(Walk(Walk([], Split(c)), Split(rel)))
  {
    hide Split, Walk, PathOf;
    var b := c[..|c| - 1];
    assert c == b + [SLASH] + [] && c + rel == b + [SLASH] + rel;
    RelativeWalk(b, rel);
    SplitJoined(b, []);
    WalkTwice([], Split(b), Split([]));
    assert rel[|rel|..] == [];
    AtEnd(rel, Walk([], Split(b)));
  }

  // A path that fits means: walk from the current directory, or from the root.
  lemma AbspathMeans(rel: seq<byte>, cwd: seq<byte>)
    requires |Meant(rel, cwd)| <= PATH_MAX
    ensures Normal(Cut(Meant(rel, cwd)))
            == PathOf(Walk(if rel != [] && rel[0] == SLASH then [] else Walk([], Split(Cwd(cwd))), Split(rel)))
  {
    hide Split, Walk, PathOf;
    var c := Cwd(cwd);
    assert Cut(Meant(rel, cwd)) == Meant(rel, cwd);
    if rel == [] {
      assert rel[|rel|..] == [];
      AtEnd(rel, Walk([], Split(c)));
    } else if rel[0] != SLASH {
      if c[|c| - 1] == SLASH {
        BehindSlash(c, rel);
      } else {
        RelativeWalk(c, rel);
      }
    }
  }
}
