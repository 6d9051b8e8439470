// The two packers and the two parsers of the exec blob.
module Exec {
  import opened Bytes
  import opened Numerals
  import opened ExecBlob

  // blob_put: s and its NUL at buf[at + off], inside the cap; nothing is written past it.
  method BlobPut(buf: array<byte>, at: nat, off: nat, cap: nat, s: seq<byte>) returns (ok: bool, next: nat)
    requires off <= cap && at + cap <= buf.Length && 0 !in s
    modifies buf
    ensures ok <==> off + |s| + 1 <= cap
    ensures ok ==> next == off + |s| + 1 && buf[at..at + next] == old(buf[at..at + off]) + s + [0]
    ensures buf[..at] == old(buf[..at]) && buf[at + cap..] == old(buf[at + cap..])
  {
    next := off;
    var i := 0;
    while i < |s|
      invariant i <= |s| && next == off + i <= cap
      invariant buf[at..at + next] == old(buf[at..at + off]) + s[..i]
      invariant buf[..at] == old(buf[..at]) && buf[at + cap..] == old(buf[at + cap..])
    {
      if next >= cap {
        return false, off;
      }
      buf[at + next] := s[i];
      next := next + 1;
      i := i + 1;
    }
    if next >= cap {
      return false, off;
    }
    buf[at + next] := 0;
    return true, next + 1;
  }

  // The loop over argv, and the one over envp.
  method PutAll(buf: array<byte>, at: nat, off: nat, cap: nat, v: seq<seq<byte>>) returns (ok: bool, next: nat)
    requires off <= cap && at + cap <= buf.Length && NulFree(v)
    modifies buf
    ensures ok <==> off + |Joined(v)| <= cap
    ensures ok ==> next == off + |Joined(v)| && buf[at..at + next] == old(buf[at..at + off]) + Joined(v)
    ensures buf[..at] == old(buf[..at]) && buf[at + cap..] == old(buf[at + cap..])
  {
    next := off;
    var i := 0;
    assert v[..0] == [];
    while i < |v|
      invariant i <= |v| && next == off + |Joined(v[..i])| <= cap
      invariant buf[at..at + next] == old(buf[at..at + off]) + Joined(v[..i])
      invariant buf[..at] == old(buf[..at]) && buf[at + cap..] == old(buf[at + cap..])
    {
      assert v[..i + 1][..i] == v[..i];
      JoinedSplit(v, i + 1);
      ok, next := BlobPut(buf, at, next, cap, v[i]);
      if !ok {
        return false, off;
      }
      i := i + 1;
    }
    assert v[..|v|] == v;
    return true, next;
  }

  // The environment behind its mark, and an empty string.
  method PutEnviron(buf: array<byte>, at: nat, off: nat, envp: seq<seq<byte>>) returns (ok: bool, next: nat)
    requires off <= BLOB_MAX && at + BLOB_MAX <= buf.Length && NulFree(envp)
    modifies buf
    ensures ok <==> off + 2 + |Joined(envp)| <= BLOB_MAX
    ensures ok ==> next == off + 2 + |Joined(envp)|
    ensures ok ==> buf[at..at + next] == old(buf[at..at + off]) + ([ENV_MARK] + Joined(envp) + [0])
    ensures buf[..at] == old(buf[..at]) && buf[at + BLOB_MAX..] == old(buf[at + BLOB_MAX..])
  {
    hide Joined, NulFree;
    ghost var head := buf[at..at + off];
    next := off;
    if next >= BLOB_MAX {
      return false, 0;
    }
    buf[at + next] := ENV_MARK;
    next := next + 1;
    assert buf[at..at + next] == head + [ENV_MARK];
    ok, next := PutAll(buf, at, next, BLOB_MAX, envp);
    if !ok {
      return false, 0;
    }
    if next >= BLOB_MAX {
      return false, 0;
    }
    ghost var said := buf[at..at + next];
    buf[at + next] := 0;
    next := next + 1;
    assert buf[at..at + next] == said + [0];
    assert said + [0] == head + ([ENV_MARK] + Joined(envp) + [0]);
  }

  // execve's packing behind the image: the marked form, refused exactly when it is longer
  // than the cap. The image and what lies past the cap are untouched.
  method PackExec(buf: array<byte>, image: nat, argv: seq<seq<byte>>, envp: seq<seq<byte>>) returns (ok: bool, bo: nat)
    requires image + 16384 <= buf.Length && NulFree(argv) && NulFree(envp)
    modifies buf
    ensures ok <==> |Encoded(argv, envp)| <= 16384
    ensures ok ==> bo == |Encoded(argv, envp)| && buf[image..image + bo] == Encoded(argv, envp) && buf[image] == 1
    ensures ok && envp != [] ==> 1 + |Joined(argv)| < bo && buf[image + 1 + |Joined(argv)|] == 2
    ensures buf[..image] == old(buf[..image]) && buf[image + 16384..] == old(buf[image + 16384..])
  {
    hide Joined, NulFree, Encoded;
    ghost var head := [ARGV0_MARK] + Joined(argv);
    EncodedLength(argv, envp);
    buf[image] := ARGV0_MARK;
    bo := 1;
    assert buf[image..image + 1] == [ARGV0_MARK];
    ok, bo := PutAll(buf, image, bo, BLOB_MAX, argv);
    if !ok {
      return false, 0;
    }
    if envp != [] {
      ok, bo := PutEnviron(buf, image, bo, envp);
      if !ok {
        return false, 0;
      }
    }
    assert head + ([ENV_MARK] + Joined(envp) + [0]) == head + [ENV_MARK] + Joined(envp) + [0];
    EncodedIs(argv, envp, buf[image..image + bo]);
    Within(buf[..], image, bo, 0);
    if envp != [] {
      Within(buf[..], image, bo, 1 + |Joined(argv)|);
    }
    ok := true;
  }

  lemma Within(s: seq<byte>, at: nat, n: nat, k: nat)
    requires at + n <= |s| && k < n
    ensures s[at..at + n][k] == s[at + k]
  {}

  lemma EncodedLength(argv: seq<seq<byte>>, envp: seq<seq<byte>>)
    ensures |Encoded(argv, envp)| == 1 + |Joined(argv)| + if envp == [] then 0 else 2 + |Joined(envp)|
  {
    hide Joined;
  }

  lemma EncodedIs(argv: seq<seq<byte>>, envp: seq<seq<byte>>, e: seq<byte>)
    requires e == [ARGV0_MARK] + Joined(argv) + if envp == [] then [] else [ENV_MARK] + Joined(envp) + [0]
    ensures e == Encoded(argv, envp) && e[0] == 1 && (envp != [] ==> 1 + |Joined(argv)| < |e| && e[1 + |Joined(argv)|] == 2)
  {
    hide Joined;
  }

  // Past the string at p and its NUL.
  method SkipString(m: seq<byte>, p: nat) returns (q: nat)
    ensures q == StringEnd(m, p) + 1
  {
    q := p;
    while At(m, q) != 0
      invariant p <= q && StringEnd(m, q) == StringEnd(m, p)
      decreases |m| - q
    {
      q := q + 1;
    }
    q := q + 1;
  }

  // A pointer in one of the tables: null, to the name kept for a start without a blob, or into it.
  datatype Pointer = Null | Name | Into(p: nat)

  // The strings a table of pointers stands for.
  function Pointed(m: seq<byte>, ptrs: seq<Pointer>): (v: seq<seq<byte>>)
    ensures |v| == |ptrs|
  {
    seq(|ptrs|, i requires 0 <= i < |ptrs| =>
      match ptrs[i]
      case Null => []
      case Name => SYNTHETIC
      case Into(p) => StringAt(m, p))
  }

  // n strings from p0 on, into libc_argv[..n].
  method FillArgv(m: seq<byte>, p0: nat, n: nat, table: array<Pointer>) returns (p: nat)
    requires n <= table.Length
    modifies table
    ensures p == After(m, p0, n) && Pointed(m, table[..n]) == Strings(m, p0, n) && Null !in table[..n]
  {
    p := p0;
    var i := 0;
    while i < n
      invariant i <= n && After(m, p, n - i) == After(m, p0, n) && Null !in table[..i]
      invariant Strings(m, p0, n) == Pointed(m, table[..i]) + Strings(m, p, n - i)
    {
      ghost var ptrs := table[..i];
      table[i] := Into(p);
      assert table[..i + 1] == ptrs + [Into(p)];
      PointedAppend(m, ptrs, p);
      p := SkipString(m, p);
      i := i + 1;
    }
  }

  lemma NoneNull(ptrs: seq<Pointer>, p: nat)
    requires Null !in ptrs
    ensures Null !in ptrs + [Into(p)]
  {}

  // The environment, up to its empty string or as far as the table reaches.
  method FillEnvp(m: seq<byte>, p0: nat, table: array<Pointer>) returns (e: nat)
    requires ENV_MAX <= table.Length
    modifies table
    ensures e <= ENV_MAX && Pointed(m, table[..e]) == UpToEmpty(m, p0, ENV_MAX) && Null !in table[..e]
  {
    hide *;
    var p := p0;
    e := 0;
    NoneYet(m, table[..0]);
    while At(m, p) != 0 && e < ENV_MAX
      invariant e <= ENV_MAX && Null !in table[..e]
      invariant UpToEmpty(m, p0, ENV_MAX) == Pointed(m, table[..e]) + UpToEmpty(m, p, ENV_MAX - e)
      decreases ENV_MAX - e
    {
      ghost var ptrs := table[..e];
      EmptyOrNext(m, p, ENV_MAX - e);
      PointedAppend(m, ptrs, p);
      table[e] := Into(p);
      assert table[..e + 1] == ptrs + [Into(p)];
      NoneNull(ptrs, p);
      p := SkipString(m, p);
      e := e + 1;
    }
    EmptyOrNext(m, p, ENV_MAX - e);
  }

  lemma PointedAppend(m: seq<byte>, ptrs: seq<Pointer>, p: nat)
    ensures Pointed(m, ptrs + [Into(p)]) == Pointed(m, ptrs) + [StringAt(m, p)]
  {}

  lemma PointedName(m: seq<byte>)
    ensures Pointed(m, [Name]) == [SYNTHETIC] && Spells(SYNTHETIC, "racccoon-prog")
  {}

  // __libc_start, up to the call of main: its two tables, each with a null pointer behind the n
  // and the e pointers to strings, the static one of the environment null at first. Without a blob
  // there is one argument, the name kept for that.
  method LibcStart(argc: int, m: seq<byte>, argvTable: array<Pointer>, envpTable: array<Pointer>) returns (n: nat, e: nat)
    requires argvTable.Length == 66 && envpTable.Length == 64 && argvTable != envpTable && envpTable[0] == Null
    modifies argvTable, envpTable
    ensures 0 < n <= 64 && Null !in argvTable[..n] && argvTable[n] == Null
    ensures e <= 62 && Null !in envpTable[..e] && envpTable[e] == Null
    ensures CStart(argc, m) == Started(Pointed(m, argvTable[..n]), Pointed(m, envpTable[..e]))
    ensures argc <= 0 ==> n == 1 && e == 0 && Spells(Pointed(m, argvTable[..n])[0], "racccoon-prog")
  {
    hide StringEnd, StringAt, Strings, After, UpToEmpty, Pointed;
    e := 0;
    NoneYet(m, envpTable[..0]);
    var k := argc;
    if k < 0 {
      k := 0;
    }
    if k > ARGV_MAX {
      k := ARGV_MAX;
    }
    n := k;
    if argc > 0 && At(m, 0) == ARGV0_MARK {
      var p := FillArgv(m, 1, n, argvTable);
      argvTable[n] := Null;
      if At(m, p) == ENV_MARK {
        e := FillEnvp(m, p + 1, envpTable);
        envpTable[e] := Null;
      }
      return;
    }
    if n == 0 {
      argvTable[0], argvTable[1] := Name, Null;
      assert argvTable[..1] == [Name];
      PointedName(m);
      return 1, 0;
    }
    var p := FillArgv(m, 0, n, argvTable);
    argvTable[n] := Null;
  }

  lemma NoneYet(m: seq<byte>, ptrs: seq<Pointer>)
    requires ptrs == []
    ensures Pointed(m, ptrs) == []
  {}

  // Spawn's packing behind the image: the plain form, filling the buffer to its last byte. Go
  // passes the resolved path when there are no arguments at all.
  method PackSpawn(image: seq<byte>, argv: seq<seq<byte>>, path: seq<byte>) returns (buf: array<byte>, argc: nat)
    ensures var blob := if argv == [] then [path] else argv;
            fresh(buf) && argc == |blob| && buf[..] == image + Joined(blob)
  {
    var blob := if argv == [] then [path] else argv;
    argc := |blob|;
    var argvLen := 0;
    hide Joined;
    NothingJoined();
    for i := 0 to |blob|
      invariant argvLen == |Joined(blob[..i])|
    {
      JoinedNext(blob, i);
      argvLen := argvLen + |blob[i]| + 1;
    }
    assert blob[..|blob|] == blob;
    buf := new byte[|image| + argvLen];
    CopyAt(buf, 0, image);
    var off := |image|;
    for i := 0 to |blob|
      invariant off == |image| + |Joined(blob[..i])| <= buf.Length && buf[..off] == image + Joined(blob[..i])
    {
      JoinedNext(blob, i);
      CopyAt(buf, off, blob[i] + [0]);
      off := off + |blob[i]| + 1;
    }
    assert buf[..] == buf[..off];
  }

  lemma JoinedNext(v: seq<seq<byte>>, i: nat)
    requires i < |v|
    ensures Joined(v[..i + 1]) == Joined(v[..i]) + (v[i] + [0])
    ensures |Joined(v[..i + 1])| <= |Joined(v)|
  {
    hide Joined;
    JoinedLast(v[..i + 1]);
    JoinedSplit(v, i + 1);
    assert v[..i + 1][..i] == v[..i];
  }

  // copy(buf[off:], s)
  method CopyAt(buf: array<byte>, off: nat, s: seq<byte>)
    requires off + |s| <= buf.Length
    modifies buf
    ensures buf[..off + |s|] == old(buf[..off]) + s
  {
    forall k | 0 <= k < |s| {
      buf[off + k] := s[k];
    }
    assert buf[..off] == old(buf[..off]) && buf[off..off + |s|] == s;
  }

  lemma GoName()
    ensures Spells(GO_SYNTHETIC, "go")
  {}

  const GO_SYNTHETIC: seq<byte> := [103, 111]  // "go"

  // The Go runtime's os.Args.
  method GoArgs(argc: int, m: seq<byte>) returns (args: seq<seq<byte>>)
    ensures args == if argc <= 0 then [GO_SYNTHETIC] else Strings(m, 0, argc)
    ensures argc <= 0 ==> Spells(args[0], "go")
  {
    hide Spells, Strings;
    if argc <= 0 {
      GoName();
      return [GO_SYNTHETIC];
    }
    args := [];
    var p := 0;
    var i := 0;
    assert args + Strings(m, 0, argc) == Strings(m, 0, argc);
    while i < argc
      invariant i <= argc && Strings(m, 0, argc) == args + Strings(m, p, argc - i)
    {
      var n := 0;
      while At(m, p + n) != 0
        invariant StringEnd(m, p + n) == StringEnd(m, p)
        decreases |m| - (p + n)
      {
        n := n + 1;
      }
      OneMore(m, p, argc - i, args);
      args := args + [if p <= |m| then m[p..p + n] else []];
      p := p + n + 1;
      i := i + 1;
    }
    NoneLeft(m, p, args);
  }

  lemma OneMore(m: seq<byte>, p: nat, n: nat, args: seq<seq<byte>>)
    requires n > 0
    ensures args + Strings(m, p, n) == (args + [StringAt(m, p)]) + Strings(m, StringEnd(m, p) + 1, n - 1)
  {}

  lemma NoneLeft(m: seq<byte>, p: nat, args: seq<seq<byte>>)
    ensures args + Strings(m, p, 0) == args
  {}
}
