// The block of strings that SYS_EXEC puts behind a program's image, and its two forms.
module ExecBlob {
  import opened Bytes
  import opened Numerals

  const ARGV0_MARK: byte := 1
  const ENV_MARK: byte := 2
  const ARGV_MAX: nat := 64
  const ENV_MAX: nat := 62
  const BLOB_MAX: nat := 16384

  // Each string with its NUL.
  function Joined(v: seq<seq<byte>>): seq<byte> {
    if v == [] then [] else Joined(v[..|v| - 1]) + v[|v| - 1] + [0]
  }

  // The marked form: arguments, then the environment if there is one.
  function Encoded(argv: seq<seq<byte>>, envp: seq<seq<byte>>): seq<byte> {
    [ARGV0_MARK] + Joined(argv) + if envp == [] then [] else [ENV_MARK] + Joined(envp) + [0]
  }

  ghost predicate NulFree(v: seq<seq<byte>>) {
    forall i :: 0 <= i < |v| ==> 0 !in v[i]
  }

  // The string at p, in memory that reads as zeros after m.
  function StringEnd(m: seq<byte>, p: nat): (e: nat)
    ensures p <= e && (p <= |m| ==> e <= |m|)
    decreases |m| - p
  {
    if At(m, p) == 0 then p else StringEnd(m, p + 1)
  }

  function StringAt(m: seq<byte>, p: nat): seq<byte> {
    if p <= |m| then m[p..StringEnd(m, p)] else []
  }

  function Strings(m: seq<byte>, p: nat, n: nat): (v: seq<seq<byte>>)
    ensures |v| == n
    decreases n
  {
    if n == 0 then [] else [StringAt(m, p)] + Strings(m, StringEnd(m, p) + 1, n - 1)
  }

  function After(m: seq<byte>, p: nat, n: nat): nat
    decreases n
  {
    if n == 0 then p else After(m, StringEnd(m, p) + 1, n - 1)
  }

  // Strings up to an empty one, at most max.
  function UpToEmpty(m: seq<byte>, p: nat, max: nat): (v: seq<seq<byte>>)
    ensures |v| <= max
    decreases max
  {
    if max == 0 || At(m, p) == 0 then [] else [StringAt(m, p)] + UpToEmpty(m, StringEnd(m, p) + 1, max - 1)
  }

  function Clamp(argc: int): nat {
    if argc < 0 then 0 else Min(argc, ARGV_MAX)
  }

  datatype Started = Started(argv: seq<seq<byte>>, envp: seq<seq<byte>>)

  const SYNTHETIC: seq<byte> := [114, 97, 99, 99, 99, 111, 111, 110, 45, 112, 114, 111, 103]  // "racccoon-prog"

  predicate Spells(b: seq<byte>, text: string) {
    |b| == |text| && forall i :: 0 <= i < |b| ==> b[i] as int == text[i] as int
  }

  // What a C program's main is given.
  function CStart(argc: int, m: seq<byte>): Started {
    var n := Clamp(argc);
    if argc > 0 && At(m, 0) == ARGV0_MARK then
      var q := After(m, 1, n);
      Started(Strings(m, 1, n), if At(m, q) == ENV_MARK then UpToEmpty(m, q + 1, ENV_MAX) else [])
    else if n == 0 then Started([SYNTHETIC], [])
    else Started(Strings(m, 0, n), [])
  }

  // What of an environment survives: up to its first empty string, at most max.
  function Surviving(v: seq<seq<byte>>, max: nat): seq<seq<byte>>
    decreases max
  {
    if v == [] || max == 0 || v[0] == [] then [] else [v[0]] + Surviving(v[1..], max - 1)
  }

  lemma {:induction false} JoinedFirst(v: seq<seq<byte>>)
    requires v != []
    ensures Joined(v) == v[0] + [0] + Joined(v[1..])
  {
    hide Joined;
    JoinedLast(v);
    if |v| > 1 {
      JoinedFirst(v[..|v| - 1]);
      JoinedLast(v[1..]);
      assert v[..|v| - 1][1..] == v[1..][..|v| - 2];
      assert v[1..][|v| - 2] == v[|v| - 1];
    } else {
      JoinedLast([]);
      assert v[..0] == [] && v[1..] == [];
    }
  }

  lemma JoinedLast(v: seq<seq<byte>>)
    ensures Joined(v) == if v == [] then [] else Joined(v[..|v| - 1]) + v[|v| - 1] + [0]
  {}

  lemma {:induction false} JoinedSplit(v: seq<seq<byte>>, n: nat)
    requires n <= |v|
    ensures Joined(v) == Joined(v[..n]) + Joined(v[n..])
    decreases |v| - n
  {
    if n < |v| {
      JoinedSplit(v, n + 1);
      JoinedFirst(v[n..]);
      assert v[..n + 1][..n] == v[..n] && v[n..][1..] == v[n + 1..];
    } else {
      assert v[..n] == v;
    }
  }

  lemma {:induction false} StringEndIs(m: seq<byte>, p: nat, s: seq<byte>)
    requires Has(m, p, s) && At(m, p + |s|) == 0 && 0 !in s
    ensures StringEnd(m, p) == p + |s| && StringAt(m, p) == s
    decreases |s|
  {
    if s != [] {
      assert m[p] == m[p..p + |s|][0] == s[0];
      assert s[0] in s && forall b :: b in s[1..] ==> b in s;
      assert m[p + 1..p + |s|] == m[p..p + |s|][1..];
      StringEndIs(m, p + 1, s[1..]);
    }
  }

  lemma StringHeld(m: seq<byte>, p: nat, v: seq<seq<byte>>)
    requires v != [] && NulFree(v) && Has(m, p, Joined(v))
    ensures StringAt(m, p) == v[0] && StringEnd(m, p) == p + |v[0]| && NulFree(v[1..])
    ensures Has(m, p + |v[0]| + 1, Joined(v[1..])) && |Joined(v)| == |v[0]| + 1 + |Joined(v[1..])|
    ensures At(m, p) == if v[0] == [] then 0 else v[0][0]
  {
    hide Joined, StringAt, StringEnd;
    JoinedFirst(v);
    var rest := [0] + Joined(v[1..]);
    assert Joined(v) == v[0] + rest;
    HasBoth(m, p, v[0], rest);
    HasBoth(m, p + |v[0]|, [0], Joined(v[1..]));
    HeldFirst(m, p + |v[0]|, 0);
    StringEndIs(m, p, v[0]);
    if v[0] != [] {
      HeldFirst(m, p, v[0][0]);
    }
  }

  lemma HeldFirst(m: seq<byte>, p: nat, b: byte)
    ensures forall t :: Has(m, p, t) && t != [] && t[0] == b ==> p < |m| && m[p] == b
  {
    forall t | Has(m, p, t) && t != [] && t[0] == b
      ensures p < |m| && m[p] == b
    {
      assert m[p..p + |t|][0] == m[p];
    }
  }

  lemma {:induction false} StringsHeld(m: seq<byte>, p: nat, v: seq<seq<byte>>)
    requires NulFree(v) && Has(m, p, Joined(v))
    ensures Strings(m, p, |v|) == v && After(m, p, |v|) == p + |Joined(v)|
    decreases |v|
  {
    if v != [] {
      StringHeld(m, p, v);
      StringsHeld(m, p + |v[0]| + 1, v[1..]);
    }
  }

  lemma EmptyOrNext(m: seq<byte>, p: nat, max: nat)
    ensures UpToEmpty(m, p, max) == if max == 0 || At(m, p) == 0 then [] else [StringAt(m, p)] + UpToEmpty(m, StringEnd(m, p) + 1, max - 1)
  {}

  lemma SurvivingUnfold(v: seq<seq<byte>>, max: nat)
    ensures Surviving(v, max) == if v == [] || max == 0 || v[0] == [] then [] else [v[0]] + Surviving(v[1..], max - 1)
  {}

  lemma NothingJoined()
    ensures Joined([]) == []
  {}

  lemma FirstNotNul(v: seq<seq<byte>>)
    requires NulFree(v) && v != [] && v[0] != []
    ensures v[0][0] != 0
  {
    assert v[0][0] in v[0];
  }

  lemma {:induction false} EnvironHeld(m: seq<byte>, p: nat, v: seq<seq<byte>>, max: nat)
    requires NulFree(v) && Has(m, p, Joined(v)) && At(m, p + |Joined(v)|) == 0
    ensures UpToEmpty(m, p, max) == Surviving(v, max)
    decreases max
  {
    hide *;
    EmptyOrNext(m, p, max);
    SurvivingUnfold(v, max);
    if v != [] {
      StringHeld(m, p, v);
      if max > 0 && v[0] != [] {
        FirstNotNul(v);
        EnvironHeld(m, p + |v[0]| + 1, v[1..], max - 1);
      }
    } else {
      NothingJoined();
    }
  }

  lemma {:induction false} SurvivesWhole(v: seq<seq<byte>>, max: nat)
    ensures Surviving(v, max) == v <==> |v| <= max && forall i :: 0 <= i < |v| ==> v[i] != []
    ensures |Surviving(v, max)| <= |v|
    decreases max
  {
    if v != [] && max > 0 && v[0] != [] {
      SurvivesWhole(v[1..], max - 1);
      assert v == [v[0]] + v[1..];
      assert forall i :: 0 <= i < |v[1..]| ==> v[1..][i] == v[i + 1];
    }
  }

  // The marked form read back: the arguments, and of the environment what survives.
  lemma MarkedRead(argv: seq<seq<byte>>, envp: seq<seq<byte>>)
    requires NulFree(argv) && NulFree(envp) && 1 <= |argv| <= ARGV_MAX
    ensures CStart(|argv|, Encoded(argv, envp)) == Started(argv, Surviving(envp, ENV_MAX))
  {
    hide Joined, Strings, After, UpToEmpty, Surviving, NulFree, Encoded, Has;
    var m := Encoded(argv, envp);
    var q := 1 + |Joined(argv)|;
    EncodedLayout(argv, envp);
    StringsHeld(m, 1, argv);
    if envp != [] {
      EnvironHeld(m, q + 1, envp, ENV_MAX);
    } else {
      NoneSurvive(ENV_MAX);
    }
  }

  lemma NoneSurvive(max: nat)
    ensures Surviving([], max) == []
  {}

  lemma EncodedLayout(argv: seq<seq<byte>>, envp: seq<seq<byte>>)
    ensures var m, q := Encoded(argv, envp), 1 + |Joined(argv)|;
            && At(m, 0) == ARGV0_MARK && Has(m, 1, Joined(argv))
            && (envp == [] ==> At(m, q) == 0)
            && (envp != [] ==> At(m, q) == ENV_MARK && Has(m, q + 1, Joined(envp)) && At(m, q + 1 + |Joined(envp)|) == 0)
  {
    hide Joined;
    var m, q := Encoded(argv, envp), 1 + |Joined(argv)|;
    assert m[1..q] == Joined(argv);
    if envp != [] {
      assert m[q + 1..q + 1 + |Joined(envp)|] == Joined(envp);
    }
  }

  // execve and __libc_start undo each other exactly for 1 to 64 arguments and up to 62
  // environment strings, none of these empty.
  lemma ExecRoundTrip(argv: seq<seq<byte>>, envp: seq<seq<byte>>)
    requires NulFree(argv) && NulFree(envp)
    ensures CStart(|argv|, Encoded(argv, envp)) == Started(argv, envp)
            <==> 1 <= |argv| <= 64 && |envp| <= 62 && forall i :: 0 <= i < |envp| ==> envp[i] != []
  {
    if 1 <= |argv| <= 64 {
      MarkedRead(argv, envp);
      SurvivesWhole(envp, ENV_MAX);
    } else {
      assert |CStart(|argv|, Encoded(argv, envp)).argv| != |argv|;
    }
  }

  // A plain block of strings is taken for the marked form exactly when its first string
  // begins with the mark; otherwise the arguments come back, the first 64 of them.
  lemma PlainRead(argv: seq<seq<byte>>)
    requires NulFree(argv) && argv != []
    ensures CStart(|argv|, Joined(argv)) == Started(argv[..Clamp(|argv|)], [])
            <==> !(argv[0] != [] && argv[0][0] == 1)
  {
    hide Joined, Strings, After, UpToEmpty, Has, StringAt, StringEnd;
    var m, n := Joined(argv), Clamp(|argv|);
    JoinedSplit(argv, n);
    PrefixHeld(m, Joined(argv[..n]), Joined(argv[n..]));
    StringHeld(m, 0, argv[..n]);
    if argv[0] != [] && argv[0][0] == ARGV0_MARK {
      FirstShort(m, argv, n);
      assert CStart(|argv|, m).argv[0] != argv[..n][0];
    } else {
      StringsHeld(m, 0, argv[..n]);
    }
  }

  lemma PrefixHeld(m: seq<byte>, t: seq<byte>, u: seq<byte>)
    requires m == t + u
    ensures Has(m, 0, t)
  {}

  // Read as the marked form, the first string comes out without its first byte.
  lemma FirstShort(m: seq<byte>, argv: seq<seq<byte>>, n: nat)
    requires 0 < n <= |argv| && m == Joined(argv) && argv[0] != [] && 0 !in argv[0]
    ensures Strings(m, 1, n)[0] == argv[0][1..]
  {
    JoinedFirst(argv);
    assert m[1..|argv[0]|] == argv[0][1..] && m[|argv[0]|] == 0;
    assert forall b :: b in argv[0][1..] ==> b in argv[0];
    StringEndIs(m, 1, argv[0][1..]);
  }

  // The strings read from memory have no NUL in them.
  lemma {:induction false} NoNulInside(m: seq<byte>, p: nat)
    ensures 0 !in StringAt(m, p)
    decreases |m| - p
  {
    if p < |m| && m[p] != 0 {
      NoNulInside(m, p + 1);
      assert StringAt(m, p) == [m[p]] + StringAt(m, p + 1);
    }
  }

  lemma {:induction false} StringsNulFree(m: seq<byte>, p: nat, n: nat)
    ensures NulFree(Strings(m, p, n))
    decreases n
  {
    if n > 0 {
      NoNulInside(m, p);
      StringsNulFree(m, StringEnd(m, p) + 1, n - 1);
    }
  }

  // The Go runtime's parser gives back any number of strings, exactly when none has a NUL.
  lemma GoRoundTrip(argv: seq<seq<byte>>)
    ensures Strings(Joined(argv), 0, |argv|) == argv <==> NulFree(argv)
  {
    if NulFree(argv) {
      assert Has(Joined(argv), 0, Joined(argv));
      StringsHeld(Joined(argv), 0, argv);
    } else {
      StringsNulFree(Joined(argv), 0, |argv|);
    }
  }
}
