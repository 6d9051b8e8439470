// memcpy, memmove and strtok_r on one memory, an array whose indices are the addresses.
module CString {
  import opened Bytes

  // n bytes from s have come to d, and nothing else has changed.
  ghost predicate Moved(now: seq<byte>, was: seq<byte>, d: nat, s: nat, n: nat) {
    && |now| == |was| && d + n <= |was| && s + n <= |was|
    && now[d..d + n] == was[s..s + n]
    && now[..d] == was[..d] && now[d + n..] == was[d + n..]
  }

  lemma NoneMoved(m: seq<byte>, d: nat, s: nat)
    requires d <= |m| && s <= |m|
    ensures Moved(m, m, d, s, 0)
  {}

  lemma MoreMoved(now: seq<byte>, mid: seq<byte>, was: seq<byte>, d: nat, s: nat, n: nat, k: nat)
    requires Moved(mid, was, d, s, n) && Moved(now, mid, d + n, s + n, k)
    requires d <= s || s + n + k <= d
    ensures Moved(now, was, d, s, n + k)
  {
    forall x | s + n <= x < s + n + k
      ensures mid[x] == was[x]
    {
      if x < d {
        assert mid[x] == mid[..d][x];
      } else {
        assert mid[x] == mid[d + n..][x - d - n];
      }
    }
    assert mid[s + n..s + n + k] == was[s + n..s + n + k];
    assert now[d..d + n] == now[..d + n][d..] == mid[d..d + n];
    assert now[d..d + n + k] == now[d..d + n] + now[d + n..d + n + k];
    assert was[s..s + n + k] == was[s..s + n] + was[s + n..s + n + k];
    assert now[..d] == now[..d + n][..d];
    assert now[d + n + k..] == mid[d + n + k..] == mid[d + n..][k..];
  }

  // One store: a byte, or a word, which is read whole before it is written.
  method Store(m: array<byte>, d: nat, s: nat, k: nat)
    requires d + k <= m.Length && s + k <= m.Length
    modifies m
    ensures Moved(m[..], old(m[..]), d, s, k)
  {
    forall i | 0 <= i < k {
      m[d + i] := m[s + i];
    }
  }

  method Advance(m: array<byte>, d: nat, s: nat, n: nat, k: nat, ghost was: seq<byte>)
    requires d + n + k <= m.Length && s + n + k <= m.Length && (d <= s || s + n + k <= d)
    requires Moved(m[..], was, d, s, n)
    modifies m
    ensures Moved(m[..], was, d, s, n + k)
  {
    hide *;
    ghost var mid := m[..];
    Store(m, d + n, s + n, k);
    MoreMoved(m[..], mid, was, d, s, n, k);
  }

  // Bytes up to an aligned address, whole words if the source is aligned too, then bytes. The
  // two ranges may overlap as long as the destination starts first.
  method Memcpy(m: array<byte>, dst: nat, src: nat, n: nat)
    requires dst + n <= m.Length && src + n <= m.Length
    requires dst <= src || src + n <= dst
    modifies m
    ensures Moved(m[..], old(m[..]), dst, src, n)
  {
    hide *;
    var k: nat := 0;
    NoneMoved(m[..], dst, src);
    while k < n && (dst + k) % 8 != 0
      invariant k <= n && Moved(m[..], old(m[..]), dst, src, k)
    {
      Advance(m, dst, src, k, 1, old(m[..]));
      k := k + 1;
    }
    if (src + k) % 8 == 0 {
      while n - k >= 8
        invariant k <= n && Moved(m[..], old(m[..]), dst, src, k)
      {
        Advance(m, dst, src, k, 8, old(m[..]));
        k := k + 8;
      }
    }
    while k < n
      invariant k <= n && Moved(m[..], old(m[..]), dst, src, k)
    {
      Advance(m, dst, src, k, 1, old(m[..]));
      k := k + 1;
    }
  }

  lemma StaysPut(m: seq<byte>, d: nat, s: nat, n: nat)
    requires d + n <= |m| && s + n <= |m| && (d == s || n == 0)
    ensures Moved(m, m, d, s, n)
  {}

  lemma MovedIs(now: seq<byte>, was: seq<byte>, d: nat, s: nat, n: nat)
    requires |now| == |was| && d + n <= |was| && s + n <= |was|
    requires forall x :: d <= x < d + n ==> now[x] == was[x - d + s]
    requires forall x :: 0 <= x < |was| && !(d <= x < d + n) ==> now[x] == was[x]
    ensures Moved(now, was, d, s, n)
  {
    var a, b := now[d..d + n], was[s..s + n];
    forall k | 0 <= k < n
      ensures a[k] == b[k]
    {
      assert now[d + k] == was[d + k - d + s];
    }
    assert now[..d] == was[..d] && now[d + n..] == was[d + n..];
  }

  // Any two ranges: forwards by memcpy, or backwards byte by byte.
  method Memmove(m: array<byte>, dst: nat, src: nat, n: nat)
    requires dst + n <= m.Length && src + n <= m.Length
    modifies m
    ensures Moved(m[..], old(m[..]), dst, src, n)
  {
    hide Moved;
    if dst == src || n == 0 {
      StaysPut(m[..], dst, src, n);
      return;
    }
    if dst < src {
      Memcpy(m, dst, src, n);
      return;
    }
    var k: nat := n;
    while k > 0
      invariant k <= n
      invariant forall x :: 0 <= x < m.Length ==> m[x] == old(if dst + k <= x < dst + n then m[x - dst + src] else m[x])
    {
      k := k - 1;
      m[dst + k] := m[src + k];
    }
    MovedIs(m[..], old(m[..]), dst, src, n);
  }

  // The rest of a string from i on: past the separators, and past what is none.
  function Span(t: seq<byte>, i: nat, sep: set<byte>): (e: nat)
    requires i <= |t|
    ensures i <= e <= |t| && (e < |t| ==> t[e] !in sep) && forall x :: i <= x < e ==> t[x] in sep
    decreases |t| - i
  {
    if i < |t| && t[i] in sep then Span(t, i + 1, sep) else i
  }

  function CSpan(t: seq<byte>, i: nat, sep: set<byte>): (e: nat)
    requires i <= |t|
    ensures i <= e <= |t| && (e < |t| ==> t[e] in sep) && forall x :: i <= x < e ==> t[x] !in sep
    decreases |t| - i
  {
    if i < |t| && t[i] !in sep then CSpan(t, i + 1, sep) else i
  }

  datatype Run = Run(start: nat, end: nat)

  // A run of bytes free of separators that cannot be made longer.
  ghost predicate Maximal(t: seq<byte>, r: Run, sep: set<byte>) {
    && r.start < r.end <= |t| && (forall x :: r.start <= x < r.end ==> t[x] !in sep)
    && (r.start == 0 || t[r.start - 1] in sep) && (r.end == |t| || t[r.end] in sep)
  }

  // What the tokenizer finds from i on.
  function Runs(t: seq<byte>, i: nat, sep: set<byte>): (v: seq<Run>)
    requires i <= |t|
    decreases |t| - i
  {
    var a := Span(t, i, sep);
    if a == |t| then []
    else
      var b := CSpan(t, a, sep);
      [Run(a, b)] + if b < |t| then Runs(t, b + 1, sep) else []
  }

  // Those are the maximal runs, all of them,
  lemma {:induction false} RunsAreMaximal(t: seq<byte>, i: nat, sep: set<byte>, r: Run)
    requires i <= |t| && (i == 0 || t[i - 1] in sep)
    ensures r in Runs(t, i, sep) <==> Maximal(t, r, sep) && i <= r.start
    decreases |t| - i
  {
    hide *;
    RunsUnfold(t, i, sep, r);
    if Maximal(t, r, sep) {
      FirstRun(t, i, r, sep);
    }
    var a := Span(t, i, sep);
    if a < |t| {
      FirstIsMaximal(t, i, sep);
      var b := CSpan(t, a, sep);
      if b < |t| {
        RunsAreMaximal(t, b + 1, sep, r);
      }
    }
  }

  lemma RunsUnfold(t: seq<byte>, i: nat, sep: set<byte>, r: Run)
    requires i <= |t|
    ensures var a := Span(t, i, sep);
            if a == |t| then Runs(t, i, sep) == []
            else
              var b := CSpan(t, a, sep);
              i <= a < b && (r in Runs(t, i, sep) <==> r == Run(a, b) || (b < |t| && r in Runs(t, b + 1, sep)))
  {}

  // and in order, a separator between one and the next.
  lemma {:induction false} RunsInOrder(t: seq<byte>, i: nat, sep: set<byte>, x: nat, y: nat)
    requires i <= |t| && (i == 0 || t[i - 1] in sep) && x < y < |Runs(t, i, sep)|
    ensures Runs(t, i, sep)[x].end < Runs(t, i, sep)[y].start
    decreases |t| - i
  {
    hide *;
    RunsNext(t, i, sep);
    var b := CSpan(t, Span(t, i, sep), sep);
    if x > 0 {
      RunsInOrder(t, b + 1, sep, x - 1, y - 1);
    } else {
      RunsAreMaximal(t, b + 1, sep, Runs(t, b + 1, sep)[y - 1]);
    }
  }

  lemma FirstIsMaximal(t: seq<byte>, i: nat, sep: set<byte>)
    requires i <= |t| && (i == 0 || t[i - 1] in sep) && Span(t, i, sep) < |t|
    ensures Maximal(t, Run(Span(t, i, sep), CSpan(t, Span(t, i, sep), sep)), sep)
  {
    var a := Span(t, i, sep);
    assert a == i || t[a - 1] in sep;
  }

  lemma FirstRun(t: seq<byte>, i: nat, r: Run, sep: set<byte>)
    requires i <= |t| && (i == 0 || t[i - 1] in sep) && Maximal(t, r, sep)
    ensures r.end <= |t| && r.start < |t|
    ensures var a := Span(t, i, sep);
            && (a < |t| && i <= r.start <= CSpan(t, a, sep) ==> r == Run(a, CSpan(t, a, sep)))
            && (a == |t| ==> r.start < i)
  {
    var a := Span(t, i, sep);
    assert t[r.start] !in sep;
    if a < |t| && i <= r.start <= CSpan(t, a, sep) {
      var b := CSpan(t, a, sep);
      assert a <= r.start < b;
    }
  }

  // The string t from its i-th byte on stands at p, up to its NUL.
  ghost predicate StandsAt(m: seq<byte>, p: nat, t: seq<byte>, i: nat) {
    && i <= |t| && p + |t| - i < |m| && m[p..p + |t| - i] == t[i..] && m[p + |t| - i] == 0 && 0 !in t
  }

  // strspn and strcspn from p on, over the t that stands there.
  method Skip(m: array<byte>, p: nat, sep: set<byte>, inside: bool, ghost t: seq<byte>, ghost i: nat) returns (n: nat)
    requires StandsAt(m[..], p, t, i)
    ensures i + n == if inside then Span(t, i, sep) else CSpan(t, i, sep)
  {
    n := 0;
    assert forall x :: i <= x < |t| ==> t[x] == t[i..][x - i] == m[p + x - i];
    while m[p + n] != 0 && (m[p + n] in sep) == inside
      invariant i + n <= |t|
      invariant if inside then Span(t, i + n, sep) == Span(t, i, sep) else CSpan(t, i + n, sep) == CSpan(t, i, sep)
      decreases |t| - i - n
    {
      assert m[p + n] == t[i + n];
      n := n + 1;
    }
    assert i + n < |t| ==> t[i + n] == m[p + n] && t[i + n] in t;
  }

  // A pointer below zero is null. The pointers p to the string and the one saved are the
  // caller's; t and i say what stands where the search starts.
  method StrtokR(m: array<byte>, s: int, sep: set<byte>, save0: int, ghost t: seq<byte>, ghost i: nat)
      returns (tok: int, save: int)
    requires var p := if s >= 0 then s else save0; p >= 0 ==> StandsAt(m[..], p, t, i)
    modifies m
    ensures var p := if s >= 0 then s else save0;
            if p < 0 then tok == -1 && save == save0 && m[..] == old(m[..])
            else
              var a := Span(t, i, sep);
              if a == |t| then tok == save == -1 && m[..] == old(m[..])
              else
                var b := CSpan(t, a, sep);
                && tok == p + a - i
                && (b < |t| ==> save == p + b + 1 - i && m[..] == old(m[..])[p + b - i := 0])
                && (b == |t| ==> save == -1 && m[..] == old(m[..]))
  {
    hide StandsAt, Span, CSpan;
    var p := s;
    if p < 0 {
      p := save0;
    }
    if p < 0 {
      return -1, save0;
    }
    var n := Skip(m, p, sep, true, t, i);
    p := p + n;
    ghost var a := i + n;
    StandsFurther(m[..], p - n, t, i, a);
    if m[p] == 0 {
      return -1, -1;
    }
    var end := Skip(m, p, sep, false, t, a);
    StandsFurther(m[..], p, t, a, a + end);
    if m[p + end] != 0 {
      m[p + end] := 0;
      return p, p + end + 1;
    }
    return p, -1;
  }

  lemma StandsFurther(m: seq<byte>, p: nat, t: seq<byte>, i: nat, j: nat)
    requires StandsAt(m, p, t, i) && i <= j <= |t|
    ensures StandsAt(m, p + j - i, t, j) && p + j - i < |m|
    ensures m[p + j - i] == 0 <==> j == |t|
  {
    assert t[j..] == t[i..][j - i..] == m[p..p + |t| - i][j - i..] == m[p + j - i..p + |t| - i];
    if j < |t| {
      assert m[p + j - i] == m[p + j - i..p + |t| - i][0] == t[j];
      assert t[j] in t;
    }
  }

  // A NUL at the end of each run, in place of the separator there, and no other change.
  ghost predicate Terminated(now: seq<byte>, was: seq<byte>, p: nat, t: seq<byte>, v: seq<Run>) {
    && |now| == |was| && p + |t| < |was|
    && forall x :: 0 <= x < |was| ==> now[x] == if EndsAt(v, x - p) && x - p < |t| then 0 else was[x]
  }

  ghost predicate EndsAt(v: seq<Run>, y: int) {
    exists k :: 0 <= k < |v| && v[k].end == y
  }

  lemma EndsAppend(v: seq<Run>, r: Run, y: int)
    ensures EndsAt(v + [r], y) <==> EndsAt(v, y) || r.end == y
  {
    if EndsAt(v, y) {
      var k :| 0 <= k < |v| && v[k].end == y;
      assert (v + [r])[k].end == y;
    }
    if r.end == y {
      assert (v + [r])[|v|].end == y;
    }
  }

  lemma TerminatedStart(m: seq<byte>, p: nat, t: seq<byte>)
    requires p + |t| < |m|
    ensures Terminated(m, m, p, t, [])
  {}

  // One more token, its end put in place of a separator unless the string ends there.
  lemma TerminatedMore(now: seq<byte>, mid: seq<byte>, was: seq<byte>, p: nat, t: seq<byte>, v: seq<Run>, r: Run)
    requires Terminated(mid, was, p, t, v) && r.end <= |t|
    requires now == if r.end < |t| then mid[p + r.end := 0] else mid
    ensures Terminated(now, was, p, t, v + [r])
  {
    forall x | 0 <= x < |was|
      ensures now[x] == if EndsAt(v + [r], x - p) && x - p < |t| then 0 else was[x]
    {
      EndsAppend(v, r, x - p);
    }
  }

  lemma StillThere(now: seq<byte>, was: seq<byte>, p: nat, t: seq<byte>, j: nat)
    requires StandsAt(was, p, t, 0) && j <= |t| && SameFrom(now, was, p + j)
    ensures StandsAt(now, p + j, t, j)
  {
    assert was[p..p + |t|] == t[0..] == t;
    assert t[j..] == was[p..p + |t|][j..] == was[p + j..p + |t|] == now[p + j..p + |t|];
  }

  // After some tokens: what is left starts at i, and `next` points there unless nothing is.
  ghost predicate Tokenized(now: seq<byte>, was: seq<byte>, p: nat, t: seq<byte>, sep: set<byte>,
                            toks: seq<nat>, done: seq<Run>, i: nat, next: int) {
    && |now| == |was| && i <= |t| + 1 && next == (if i <= |t| then p + i else -1)
    && Runs(t, 0, sep) == done + (if i <= |t| then Runs(t, i, sep) else [])
    && Starts(toks, done, p) && Terminated(now, was, p, t, done) && SameFrom(now, was, p + i)
  }

  ghost predicate Starts(toks: seq<nat>, v: seq<Run>, p: nat) {
    |toks| == |v| && forall k :: 0 <= k < |v| ==> toks[k] == p + v[k].start
  }

  ghost predicate SameFrom(now: seq<byte>, was: seq<byte>, i: nat) {
    |now| == |was| && forall x :: i <= x < |was| ==> now[x] == was[x]
  }

  lemma StartsMore(toks: seq<nat>, v: seq<Run>, p: nat, r: Run)
    requires Starts(toks, v, p)
    ensures Starts(toks + [p + r.start], v + [r], p)
  {}

  lemma SameFurther(now: seq<byte>, mid: seq<byte>, was: seq<byte>, i: nat, j: nat)
    requires SameFrom(mid, was, i) && i <= j < |was| && (now == mid || now == mid[j := 0])
    ensures SameFrom(now, was, j + 1)
  {}

  // One more call: a token, or none and the runs are complete.
  method NextToken(m: array<byte>, s: int, sep: set<byte>, save0: int, toks: seq<nat>,
                   ghost was: seq<byte>, ghost p: nat, ghost t: seq<byte>, ghost done: seq<Run>, ghost i: nat)
      returns (tok: int, save: int, ghost done': seq<Run>, ghost i': nat)
    requires StandsAt(was, p, t, 0) && (s >= 0 || save0 >= -1)
    requires Tokenized(m[..], was, p, t, sep, toks, done, i, if s >= 0 then s else save0)
    modifies m
    ensures tok < 0 ==> done == Runs(t, 0, sep) && m[..] == old(m[..])
    ensures tok >= 0 ==> i < i' && save >= -1 && Tokenized(m[..], was, p, t, sep, toks + [tok], done', i', save)
  {
    hide *;
    ghost var mid := m[..];
    BeforeToken(mid, was, p, t, sep, toks, done, i, if s >= 0 then s else save0);
    tok, save := StrtokR(m, s, sep, save0, t, i);
    done', i' := done, i;
    if tok >= 0 {
      ghost var a := Span(t, i, sep);
      ghost var b := CSpan(t, a, sep);
      AfterToken(m[..], mid, was, p, t, sep, toks, done, i, a, b);
      done', i' := done + [Run(a, b)], b + 1;
    }
  }

  lemma BeforeToken(mid: seq<byte>, was: seq<byte>, p: nat, t: seq<byte>, sep: set<byte>,
                    toks: seq<nat>, done: seq<Run>, i: nat, next: int)
    requires StandsAt(was, p, t, 0) && Tokenized(mid, was, p, t, sep, toks, done, i, next)
    ensures next < 0 ==> done == Runs(t, 0, sep)
    ensures next >= 0 ==> i <= |t| && next == p + i && StandsAt(mid, next, t, i)
    ensures next >= 0 && Span(t, i, sep) == |t| ==> done == Runs(t, 0, sep)
    ensures p + |t| < |mid| == |was|
  {
    hide Terminated, StandsAt, Runs, Starts;
    StandsInside(was, p, t);
    if i <= |t| {
      StillThere(mid, was, p, t, i);
      RunsNext(t, i, sep);
    }
    assert done + [] == done;
  }

  lemma AfterToken(now: seq<byte>, mid: seq<byte>, was: seq<byte>, p: nat, t: seq<byte>, sep: set<byte>,
                   toks: seq<nat>, done: seq<Run>, i: nat, a: nat, b: nat)
    requires i <= |t| && Tokenized(mid, was, p, t, sep, toks, done, i, p + i)
    requires a == Span(t, i, sep) && a < |t| && b == CSpan(t, a, sep) && p + |t| < |mid|
    requires now == if b < |t| then mid[p + b := 0] else mid
    ensures i < b + 1 && Tokenized(now, was, p, t, sep, toks + [p + a], done + [Run(a, b)], b + 1, if b < |t| then p + b + 1 else -1)
  {
    hide Terminated, Runs, Starts, SameFrom;
    RunsNext(t, i, sep);
    StartsMore(toks, done, p, Run(a, b));
    SameFurther(now, mid, was, p + i, p + b);
    TerminatedMore(now, mid, was, p, t, done, Run(a, b));
    var rest := if b < |t| then Runs(t, b + 1, sep) else [];
    assert done + ([Run(a, b)] + rest) == done + [Run(a, b)] + rest;
  }

  // strtok_r until it answers null: the maximal runs in order, each a string of its own now.
  method Tokenize(m: array<byte>, p: nat, sep: set<byte>, ghost t: seq<byte>) returns (toks: seq<nat>)
    requires StandsAt(m[..], p, t, 0)
    modifies m
    ensures var v := Runs(t, 0, sep);
            Starts(toks, v, p) && Terminated(m[..], old(m[..]), p, t, v)
  {
    hide *;
    toks := [];
    ghost var done: seq<Run>, i: nat := [], 0;
    ghost var was := m[..];
    var s: int, save: int := p, -1;
    TokenizedStart(was, p, t, sep);
    while true
      invariant Tokenized(m[..], was, p, t, sep, toks, done, i, if s >= 0 then s else save) && save >= -1
      invariant i <= |t| + 1
      decreases |t| + 1 - i
    {
      var tok;
      ghost var done', i';
      tok, save, done', i' := NextToken(m, s, sep, save, toks, was, p, t, done, i);
      s := -1;
      if tok < 0 {
        TokenizedEnd(m[..], was, p, t, sep, toks, done, i);
        break;
      }
      toks := toks + [tok];
      TokenizedInside(m[..], was, p, t, sep, toks, done', i', save);
      done, i := done', i';
    }
  }

  lemma TokenizedStart(m: seq<byte>, p: nat, t: seq<byte>, sep: set<byte>)
    requires StandsAt(m, p, t, 0)
    ensures Tokenized(m, m, p, t, sep, [], [], 0, p)
  {
    assert [] + Runs(t, 0, sep) == Runs(t, 0, sep);
    TerminatedStart(m, p, t);
  }

  lemma TokenizedInside(now: seq<byte>, was: seq<byte>, p: nat, t: seq<byte>, sep: set<byte>,
                        toks: seq<nat>, done: seq<Run>, i: nat, next: int)
    requires Tokenized(now, was, p, t, sep, toks, done, i, next)
    ensures i <= |t| + 1
  {}

  lemma TokenizedEnd(now: seq<byte>, was: seq<byte>, p: nat, t: seq<byte>, sep: set<byte>,
                     toks: seq<nat>, done: seq<Run>, i: nat)
    requires exists next :: Tokenized(now, was, p, t, sep, toks, done, i, next)
    requires done == Runs(t, 0, sep)
    ensures Starts(toks, done, p) && Terminated(now, was, p, t, done)
  {}

  lemma StandsInside(m: seq<byte>, p: nat, t: seq<byte>)
    requires StandsAt(m, p, t, 0)
    ensures p + |t| < |m|
  {}

  lemma RunsNext(t: seq<byte>, i: nat, sep: set<byte>)
    requires i <= |t|
    ensures var a := Span(t, i, sep);
            if a == |t| then Runs(t, i, sep) == []
            else
              var b := CSpan(t, a, sep);
              Runs(t, i, sep) == [Run(a, b)] + if b < |t| then Runs(t, b + 1, sep) else []
  {}

  // What a token's pointer reads as afterwards: its run, up to the NUL.
  lemma TokenText(now: seq<byte>, was: seq<byte>, p: nat, t: seq<byte>, sep: set<byte>, k: nat)
    requires StandsAt(was, p, t, 0) && k < |Runs(t, 0, sep)| && Terminated(now, was, p, t, Runs(t, 0, sep))
    ensures var r := Runs(t, 0, sep)[k];
            && r.end <= |t| && StandsAt(now, p + r.start, t[..r.end], r.start)
  {
    hide Runs, Maximal, EndsAt;
    var v := Runs(t, 0, sep);
    var r := v[k];
    RunsAreMaximal(t, 0, sep, r);
    RunBounds(t, r, sep);
    forall x | r.start <= x < r.end
      ensures now[p + x] == t[x]
    {
      NoEndInside(t, sep, r, x);
      TokenByte(now, was, p, t, v, x);
    }
    EndsHere(v, k);
    assert now[p + r.end] == 0 by { assert p + r.end - p == r.end; }
    SameSlice(now, p, t, r.start, r.end);
    assert forall b :: b in t[..r.end] ==> b in t;
  }

  lemma SameSlice(m: seq<byte>, p: nat, t: seq<byte>, a: nat, b: nat)
    requires a <= b <= |t| && p + b <= |m| && forall x :: a <= x < b ==> m[p + x] == t[x]
    ensures m[p + a..p + b] == t[..b][a..]
  {
    forall k | 0 <= k < b - a
      ensures m[p + a..p + b][k] == t[..b][a..][k]
    {
      assert m[p + (a + k)] == t[a + k];
    }
  }

  lemma TokenByte(now: seq<byte>, was: seq<byte>, p: nat, t: seq<byte>, v: seq<Run>, x: nat)
    requires StandsAt(was, p, t, 0) && Terminated(now, was, p, t, v) && x < |t| && !EndsAt(v, x)
    ensures now[p + x] == t[x]
  {
    hide EndsAt;
    assert was[p + x] == was[p..p + |t|][x];
    assert p + x - p == x;
  }

  lemma RunBounds(t: seq<byte>, r: Run, sep: set<byte>)
    requires Maximal(t, r, sep)
    ensures r.start < r.end <= |t|
  {}

  lemma EndsHere(v: seq<Run>, k: nat)
    requires k < |v|
    ensures EndsAt(v, v[k].end)
  {}

  // No token ends inside another one.
  lemma NoEndInside(t: seq<byte>, sep: set<byte>, r: Run, x: nat)
    requires Maximal(t, r, sep) && r.start <= x < r.end
    ensures !EndsAt(Runs(t, 0, sep), x)
  {
    hide Runs;
    var v := Runs(t, 0, sep);
    if EndsAt(v, x) {
      var j :| 0 <= j < |v| && v[j].end == x;
      RunsAreMaximal(t, 0, sep, v[j]);
      assert false;
    }
  }
}
