// strtoull and strtoll.
module Strto {
  import opened Bytes
  import opened Numerals

  predicate IsSpace(c: byte) {
    c == 32 || 9 <= c <= 13
  }

  // Past the white space from i on.
  function SpaceEnd(s: seq<byte>, i: nat): (e: nat)
    ensures i <= e
    decreases |s| - i
  {
    if IsSpace(At(s, i)) then SpaceEnd(s, i + 1) else i
  }

  // Past the digits from i on.
  function RunEnd(s: seq<byte>, i: nat, base: nat): (e: nat)
    requires base <= 36
    ensures i <= e && (i <= |s| ==> e <= |s|)
    decreases |s| - i
  {
    if DigitVal(At(s, i)) < base then RunEnd(s, i + 1, base) else i
  }

  function Signed(s: seq<byte>, p: nat): nat {
    if At(s, p) == 43 || At(s, p) == 45 then p + 1 else p
  }

  // "0x" counts as a prefix only before a hexadecimal digit.
  predicate HexPrefix(s: seq<byte>, q: nat) {
    At(s, q) == 48 && (At(s, q + 1) == 120 || At(s, q + 1) == 88) && DigitVal(At(s, q + 2)) < 16
  }

  function Radix(s: seq<byte>, q: nat, base: nat): nat {
    if (base == 0 || base == 16) && HexPrefix(s, q) then 16
    else if base == 0 && At(s, q) == 48 then 8
    else if base == 0 then 10
    else base
  }

  // Two's complement in 64 bits.
  function Negated(v: nat): nat {
    (TWO_64 - v % TWO_64) % TWO_64
  }

  datatype Number = Number(value: nat, end: nat)

  // The numeral at the start of s: its value in 64 bits and where it ends, or nothing at all.
  function Parsed(s: seq<byte>, base: nat): Number
    requires base <= 36
  {
    var p := SpaceEnd(s, 0);
    var q := Signed(s, p);
    var b := Radix(s, q, base);
    var r := if (base == 0 || base == 16) && HexPrefix(s, q) then q + 2 else q;
    var e := RunEnd(s, r, b);
    var v := if r < e <= |s| then Val(s[r..e], b) % TWO_64 else 0;
    Number(if At(s, p) == 45 then Negated(v) else v, if r < e then e else 0)
  }

  method Strtoull(s: seq<byte>, base0: nat) returns (v: nat, end: nat)
    requires base0 <= 36
    ensures v < TWO_64 && Number(v, end) == Parsed(s, base0)
  {
    hide Val, DigitVal, RunEnd;
    var base := base0;
    var p := 0;
    while IsSpace(At(s, p))
      invariant SpaceEnd(s, p) == SpaceEnd(s, 0)
      decreases |s| - p
    {
      p := p + 1;
    }
    var neg := false;
    if At(s, p) == 43 || At(s, p) == 45 {
      neg := At(s, p) == 45;
      p := p + 1;
    }
    if (base == 0 || base == 16) && At(s, p) == 48 && (At(s, p + 1) == 120 || At(s, p + 1) == 88) && DigitVal(At(s, p + 2)) < 16 {
      p := p + 2;
      base := 16;
    } else if base == 0 && At(s, p) == 48 {
      base := 8;
    } else if base == 0 {
      base := 10;
    }
    var acc, e := Accumulate(s, p, base);
    NegatedOnce(if p < e <= |s| then Val(s[p..e], base) else 0);
    end := if e > p then e else 0;
    v := if neg then (TWO_64 - acc) % TWO_64 else acc;
  }

  lemma NegatedOnce(v: nat)
    ensures Negated(v % TWO_64) == Negated(v) == (TWO_64 - v % TWO_64) % TWO_64
  {}

  // The digits from r on, the accumulator wrapping at 64 bits.
  method Accumulate(s: seq<byte>, r: nat, base: nat) returns (acc: nat, p: nat)
    requires base <= 36
    ensures p == RunEnd(s, r, base) && (r < p ==> p <= |s|)
    ensures acc == if r < p then Val(s[r..p], base) % TWO_64 else 0
  {
    hide Val, DigitVal;
    acc, p := 0, r;
    while DigitVal(At(s, p)) < base
      invariant r <= p && (p == r || p <= |s|) && RunEnd(s, p, base) == RunEnd(s, r, base)
      invariant acc == if r < p then Val(s[r..p], base) % TWO_64 else 0
      decreases |s| - p
    {
      var d := DigitVal(At(s, p));
      NulIsNoDigit();
      assert s[r..p + 1] == s[r..p] + [s[p]];
      ValAppend(s[r..p], s[p], base);
      NothingDenotesZero(s[r..p], base);
      Wraps(Val(s[r..p], base), base, d);
      acc := (acc * base + d) % TWO_64;
      p := p + 1;
    }
  }

  lemma NulIsNoDigit()
    ensures DigitVal(0) == 99
  {}

  lemma NothingDenotesZero(s: seq<byte>, base: nat)
    ensures s == [] ==> Val(s, base) == 0
  {}

  // Reducing the accumulator at every digit or once at the end is the same.
  lemma Wraps(v: nat, base: nat, d: nat)
    ensures (v % TWO_64 * base + d) % TWO_64 == (v * base + d) % TWO_64
  {
    var q, r := v / TWO_64, v % TWO_64;
    assert v * base + d == TWO_64 * (q * base) + (r * base + d) by {
      assert v == TWO_64 * q + r;
    }
    Multiple(q * base, r * base + d);
  }

  lemma Multiple(k: nat, m: nat)
    ensures (TWO_64 * k + m) % TWO_64 == m % TWO_64
  {}

  // The same 64 bits read as a signed number.
  function AsSigned(v: nat): int
    requires v < TWO_64
  {
    if v < TWO_63 then v else v - TWO_64
  }

  method Strtoll(s: seq<byte>, base: nat) returns (v: int, end: nat)
    requires base <= 36
    ensures -TWO_63 <= v < TWO_63 && v == AsSigned(Parsed(s, base).value) && end == Parsed(s, base).end
  {
    var u;
    u, end := Strtoull(s, base);
    v := AsSigned(u);
  }

  lemma {:induction false} RunInside(s: seq<byte>, i: nat, base: nat)
    requires base <= 36
    ensures RunEnd(s, i, base) > i ==> RunEnd(s, i, base) <= |s|
    decreases |s| - i
  {
    if DigitVal(At(s, i)) < base {
      NulIsNoDigit();
      RunInside(s, i + 1, base);
    }
  }

  // A digit of the base: 0 to 9 and then the letters, small or capital.
  predicate IsDigitOf(c: byte, base: nat) {
    var k := c as int;
    || ('0' as int <= k <= '9' as int && k - '0' as int < base)
    || ('a' as int <= k <= 'z' as int && k - 'a' as int + 10 < base)
    || ('A' as int <= k <= 'Z' as int && k - 'A' as int + 10 < base)
  }

  lemma DigitCharacters(c: byte, base: nat)
    requires base <= 36
    ensures DigitVal(c) < base <==> IsDigitOf(c, base)
  {}

  lemma {:induction false} RunLimits(s: seq<byte>, i: nat, base: nat)
    requires base <= 36
    ensures var e := RunEnd(s, i, base);
            !IsDigitOf(At(s, e), base) && (i < e ==> IsDigitOf(At(s, e - 1), base))
    decreases |s| - i
  {
    hide IsDigitOf, DigitVal;
    DigitCharacters(At(s, i), base);
    if DigitVal(At(s, i)) < base {
      NulIsNoDigit();
      RunLimits(s, i + 1, base);
    }
  }

  // The run of digits is read to its end and no further, and a digit in front is read.
  lemma WholeRun(s: seq<byte>, base: nat)
    requires 0 < base <= 36
    ensures var e := Parsed(s, base).end;
            && (e > 0 ==> e <= |s| && IsDigitOf(s[e - 1], base) && (e < |s| ==> !IsDigitOf(s[e], base)))
            && (s != [] && IsDigitOf(s[0], base) ==> e > 0)
  {
    hide IsDigitOf, DigitVal, RunEnd, SpaceEnd;
    var p := SpaceEnd(s, 0);
    var q := Signed(s, p);
    var r := if base == 16 && HexPrefix(s, q) then q + 2 else q;
    RunInside(s, r, base);
    RunLimits(s, r, base);
    if s != [] && IsDigitOf(s[0], base) {
      DigitInFront(s, base);
    }
  }

  lemma DigitInFront(s: seq<byte>, base: nat)
    requires 0 < base <= 36 && s != [] && IsDigitOf(s[0], base)
    ensures SpaceEnd(s, 0) == 0 == Signed(s, 0)
    ensures RunEnd(s, 0, base) > 0 && (HexPrefix(s, 0) && base == 16 ==> RunEnd(s, 2, base) > 2)
  {}

  // White space before a numeral, blanks, tabs, line ends and the like, changes nothing but where
  // it ends.
  lemma BlanksSkipped(blanks: seq<byte>, s: seq<byte>, base: nat)
    requires base <= 36 && forall i :: 0 <= i < |blanks| ==> blanks[i] in {9, 10, 11, 12, 13, 32}
    ensures var r := Parsed(s, base);
            Parsed(blanks + s, base) == Number(r.value, if r.end == 0 then 0 else r.end + |blanks|)
  {
    hide Parsed, SpaceEnd, IsSpace;
    var n, t := |blanks|, blanks + s;
    AllBlank(blanks);
    assert forall k :: 0 <= k < n ==> t[k] == blanks[k];
    SpacesAhead(t, 0, n);
    SpaceShifted(s, t, n, 0);
    ParsedShifted(s, t, n, base);
  }

  lemma ParsedShifted(s: seq<byte>, t: seq<byte>, n: nat, base: nat)
    requires |t| == n + |s| && t[n..] == s && base <= 36 && SpaceEnd(t, 0) == n + SpaceEnd(s, 0)
    ensures var r := Parsed(s, base); Parsed(t, base) == Number(r.value, if r.end == 0 then 0 else r.end + n)
  {
    hide *;
    var p := SpaceEnd(s, 0);
    var q := Signed(s, p);
    var b := Radix(s, q, base);
    var r := if (base == 0 || base == 16) && HexPrefix(s, q) then q + 2 else q;
    RadixSmall(s, q, base);
    var e := RunEnd(s, r, b);
    PartsShifted(s, t, n, base, p, q, b, r, e);
    SameNumber(s, t, n, base, p, q, b, r, e);
  }

  lemma SameNumber(s: seq<byte>, t: seq<byte>, n: nat, base: nat, p: nat, q: nat, b: nat, r: nat, e: nat)
    requires base <= 36 && b <= 36 && p == SpaceEnd(s, 0) && q == Signed(s, p) && b == Radix(s, q, base)
    requires r == (if (base == 0 || base == 16) && HexPrefix(s, q) then q + 2 else q) && e == RunEnd(s, r, b)
    requires n + p == SpaceEnd(t, 0) && n + q == Signed(t, n + p) && b == Radix(t, n + q, base) && HexPrefix(t, n + q) == HexPrefix(s, q)
    requires n + e == RunEnd(t, n + r, b) && At(t, n + p) == At(s, p) && RunValue(t, n + r, n + e, b) == RunValue(s, r, e, b)
    ensures var o := Parsed(s, base); Parsed(t, base) == Number(o.value, if o.end == 0 then 0 else o.end + n)
  {
    hide *;
    ParsedIs(s, base, p, q, b, r, e);
    ParsedIs(t, base, n + p, n + q, b, n + r, n + e);
  }

  // Everything a numeral is made of lies n further on.
  lemma PartsShifted(s: seq<byte>, t: seq<byte>, n: nat, base: nat, p: nat, q: nat, b: nat, r: nat, e: nat)
    requires |t| == n + |s| && t[n..] == s && base <= 36 && b <= 36
    requires q == Signed(s, p) && b == Radix(s, q, base) && e == RunEnd(s, r, b)
    ensures Signed(t, n + p) == n + q && Radix(t, n + q, base) == b && HexPrefix(t, n + q) == HexPrefix(s, q)
    ensures At(t, n + p) == At(s, p) && RunEnd(t, n + r, b) == n + e && RunValue(t, n + r, n + e, b) == RunValue(s, r, e, b)
  {
    hide *;
    SameBytes(s, t, n, p, q);
    SameStart(s, t, n, p, q, base);
    RunShifted(s, t, n, r, b);
    SameRun(s, t, n, r, e, b);
  }

  lemma ParsedIs(s: seq<byte>, base: nat, p: nat, q: nat, b: nat, r: nat, e: nat)
    requires base <= 36 && b <= 36 && p == SpaceEnd(s, 0) && q == Signed(s, p) && b == Radix(s, q, base)
    requires r == (if (base == 0 || base == 16) && HexPrefix(s, q) then q + 2 else q) && e == RunEnd(s, r, b)
    ensures var v := RunValue(s, r, e, b);
            Parsed(s, base) == Number(if At(s, p) == 45 then Negated(v) else v, if r < e then e else 0)
  {}

  function RunValue(s: seq<byte>, r: nat, e: nat, b: nat): nat {
    if r < e <= |s| then Val(s[r..e], b) % TWO_64 else 0
  }

  lemma SameRun(s: seq<byte>, t: seq<byte>, n: nat, r: nat, e: nat, b: nat)
    requires |t| == n + |s| && t[n..] == s
    ensures RunValue(t, n + r, n + e, b) == RunValue(s, r, e, b)
  {
    if r < e <= |s| {
      assert t[n..|t|] == s;
      SubSlice(t, n, |t|, r, e);
    }
  }

  lemma SameStart(s: seq<byte>, t: seq<byte>, n: nat, p: nat, q: nat, base: nat)
    requires |t| == n + |s| && t[n..] == s
    ensures Signed(t, n + p) == n + Signed(s, p) && HexPrefix(t, n + q) == HexPrefix(s, q) && Radix(t, n + q, base) == Radix(s, q, base)
  {
    hide DigitVal;
    SameBytes(s, t, n, p, q);
  }

  lemma AllBlank(blanks: seq<byte>)
    requires forall i :: 0 <= i < |blanks| ==> blanks[i] in {9, 10, 11, 12, 13, 32}
    ensures forall i :: 0 <= i < |blanks| ==> IsSpace(blanks[i])
  {}

  lemma {:induction false} SpacesAhead(t: seq<byte>, i: nat, n: nat)
    requires i <= n <= |t| && forall k :: i <= k < n ==> IsSpace(t[k])
    ensures SpaceEnd(t, i) == SpaceEnd(t, n)
    decreases n - i
  {
    if i < n {
      SpacesAhead(t, i + 1, n);
    }
  }

  lemma SameBytes(s: seq<byte>, t: seq<byte>, n: nat, p: nat, q: nat)
    requires |t| == n + |s| && t[n..] == s
    ensures At(t, n + p) == At(s, p) && At(t, n + q) == At(s, q) && At(t, n + q + 1) == At(s, q + 1) && At(t, n + q + 2) == At(s, q + 2)
  {
    assert forall i :: 0 <= i < |s| ==> s[i] == t[n..][i];
  }

  lemma {:induction false} SpaceShifted(s: seq<byte>, t: seq<byte>, n: nat, i: nat)
    requires |t| == n + |s| && t[n..] == s
    ensures SpaceEnd(t, n + i) == n + SpaceEnd(s, i)
    decreases |s| - i
  {
    SameBytes(s, t, n, i, i);
    if IsSpace(At(s, i)) {
      SpaceShifted(s, t, n, i + 1);
    }
  }

  lemma {:induction false} RunShifted(s: seq<byte>, t: seq<byte>, n: nat, i: nat, base: nat)
    requires |t| == n + |s| && t[n..] == s && base <= 36
    ensures RunEnd(t, n + i, base) == n + RunEnd(s, i, base)
    decreases |s| - i
  {
    hide DigitVal;
    NulIsNoDigit();
    SameBytes(s, t, n, i, i);
    if DigitVal(At(s, i)) < base {
      RunShifted(s, t, n, i + 1, base);
    }
  }

  lemma RadixSmall(s: seq<byte>, q: nat, base: nat)
    requires base <= 36
    ensures Radix(s, q, base) <= 36
  {}
}
