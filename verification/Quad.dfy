// Dotted quads: fmt_ip and parse_quad.
module Quad {
  import opened Bytes
  import opened Numerals
  import opened Strto
  import opened Format
  import opened PrintParse

  const DOT: byte := 46

  // One number of the four: decimal digits denoting at most 255.
  datatype Octet = None | Octet(v: nat, end: nat)

  function OctetAt(s: seq<byte>, p: nat): Octet {
    var e := RunEnd(s, p, 10);
    if p < e <= |s| && Val(s[p..e], 10) <= 255 then Octet(Val(s[p..e], 10), e) else None
  }

  // k numbers with dots between them, after a value v already read.
  function QuadAt(s: seq<byte>, p: nat, k: nat, v: nat): Octet
    decreases k
  {
    if k == 0 then Octet(v, p)
    else
      match OctetAt(s, p)
      case None => None
      case Octet(b, e) =>
        if k == 1 then Octet(v * 256 + b, e)
        else if At(s, e) != DOT then None
        else QuadAt(s, e + 1, k - 1, v * 256 + b)
  }

  // One number; the sum is tested after each digit, so it never grows past 2560.
  method ParseOctet(s: seq<byte>, p0: nat) returns (r: Octet)
    ensures r == OctetAt(s, p0)
  {
    hide Val;
    if !(48 <= At(s, p0) <= 57) {
      DecimalDigit(At(s, p0));
      return None;
    }
    var b: nat, p := 0, p0;
    NothingDenotesZero([], 10);
    while 48 <= At(s, p) <= 57
      invariant p0 <= p && (p == p0 || p <= |s|) && RunEnd(s, p, 10) == RunEnd(s, p0, 10)
      invariant b == (if p == p0 then 0 else Val(s[p0..p], 10)) && b <= 255
      decreases |s| - p
    {
      DecimalDigit(At(s, p));
      assert s[p0..p + 1] == s[p0..p] + [s[p]];
      ValAppend(s[p0..p], s[p], 10);
      NothingDenotesZero(s[p0..p], 10);
      b := b * 10 + (At(s, p) as nat - 48);
      p := p + 1;
      if b > 255 {
        RunInside(s, p0, 10);
        RunInside(s, p, 10);
        Grows(s, p0, p, RunEnd(s, p0, 10));
        return None;
      }
    }
    DecimalDigit(At(s, p));
    return Octet(b, p);
  }

  lemma DecimalDigit(c: byte)
    ensures DigitVal(c) < 10 <==> 48 <= c <= 57
    ensures 48 <= c <= 57 ==> DigitVal(c) == c as nat - 48
  {}

  // More digits never denote less.
  lemma {:induction false} Grows(s: seq<byte>, p: nat, q: nat, e: nat)
    requires p <= q <= e <= |s|
    ensures Val(s[p..q], 10) <= Val(s[p..e], 10)
    decreases e - q
  {
    if q < e {
      assert s[p..q + 1] == s[p..q] + [s[q]];
      ValAppend(s[p..q], s[q], 10);
      Grows(s, p, q + 1, e);
    }
  }

  method ParseQuad(s: seq<byte>, p0: nat) returns (r: Octet)
    ensures r == QuadAt(s, p0, 4, 0)
  {
    hide OctetAt;
    var v: nat, p: nat, k := 0, p0, 0;
    while k < 4
      invariant k <= 4 && QuadAt(s, p, 4 - k, v) == QuadAt(s, p0, 4, 0)
    {
      var o := ParseOctet(s, p);
      if o.None? {
        return None;
      }
      v, p := v * 256 + o.v, o.end;
      if k < 3 {
        if At(s, p) != DOT {
          return None;
        }
        p := p + 1;
      }
      k := k + 1;
    }
    return Octet(v, p);
  }

  // Numbers with dots between them.
  function Printed(ns: seq<nat>): seq<byte> {
    if ns == [] then []
    else Digits(ns[0], 10, false) + if |ns| == 1 then [] else [DOT] + Printed(ns[1..])
  }

  function Combined(v: nat, ns: seq<nat>): nat
    decreases |ns|
  {
    if ns == [] then v else Combined(v * 256 + ns[0], ns[1..])
  }

  lemma OctetRead(s: seq<byte>, p: nat, n: nat)
    requires n <= 255 && Has(s, p, Digits(n, 10, false))
    requires DigitVal(At(s, p + |Digits(n, 10, false)|)) >= 10
    ensures OctetAt(s, p) == Octet(n, p + |Digits(n, 10, false)|)
  {
    hide Digits, Val;
    var w := Digits(n, 10, false);
    DigitsDenote(n, 10, false);
    assert forall k :: p <= k < p + |w| ==> s[k] == s[p..p + |w|][k - p];
    RunEnds(s, p, p + |w|, 10);
  }

  lemma {:induction false} NumbersRead(s: seq<byte>, p: nat, ns: seq<nat>, v: nat)
    requires ns != [] && (forall i :: 0 <= i < |ns| ==> ns[i] <= 255)
    requires Has(s, p, Printed(ns)) && DigitVal(At(s, p + |Printed(ns)|)) >= 10
    ensures QuadAt(s, p, |ns|, v) == Octet(Combined(v, ns), p + |Printed(ns)|)
    decreases |ns|
  {
    hide *;
    PrintedUnfold(ns, v);
    var w := Digits(ns[0], 10, false);
    if |ns| == 1 {
      OctetRead(s, p, ns[0]);
      LastOctet(s, p, ns[0], v);
    } else {
      HasBoth(s, p, w, [DOT] + Printed(ns[1..]));
      OctetThenDot(s, p, ns[0], Printed(ns[1..]), |ns|, v);
      NumbersRead(s, p + |w| + 1, ns[1..], v * 256 + ns[0]);
    }
  }

  lemma PrintedUnfold(ns: seq<nat>, v: nat)
    requires ns != []
    ensures Combined(v, ns) == if |ns| == 1 then v * 256 + ns[0] else Combined(v * 256 + ns[0], ns[1..])
    ensures Printed(ns) == if |ns| == 1 then Digits(ns[0], 10, false) else Digits(ns[0], 10, false) + ([DOT] + Printed(ns[1..]))
  {
    assert Digits(ns[0], 10, false) + [] == Digits(ns[0], 10, false);
  }

  // The format of so many numbers: "%u", or "%u.%u" and so on.
  function Template(n: nat): seq<byte> {
    if n <= 1 then [37, 117] else [37, 117, DOT] + Template(n - 1)
  }

  // What sprintf makes of it.
  lemma {:induction false} TemplatePrints(fmt: seq<byte>, f: nat, ns: seq<nat>, args: seq<Arg>, k: nat, fp: FloatText)
    requires ns != [] && f <= |fmt| && fmt[f..] == Template(|ns|) && k + |ns| <= |args|
    requires forall i :: 0 <= i < |ns| ==> ns[i] <= 255 && args[k + i] == Word(ns[i])
    ensures Rendered(fmt, f, args, k, fp) == Printed(ns)
    decreases |ns|
  {
    hide Digits, Rendered, ReadSpec;
    assert fmt[f..][0] == fmt[f] == 37 && fmt[f..][1] == fmt[f + 1] == 117;
    PlainNumber(fmt, f, args, k, ns[0], fp);
    if |ns| > 1 {
      assert fmt[f..][2] == fmt[f + 2] == DOT;
      assert fmt[f + 3..] == fmt[f..][3..] == Template(|ns| - 1);
      TemplatePrints(fmt, f + 3, ns[1..], args, k + 1, fp);
      PlainByte(fmt, f + 2, args, k + 1, fp);
    } else {
      RenderedEnd(fmt, f + 2, args, k + 1, fp);
    }
  }

  lemma PlainNumber(fmt: seq<byte>, f: nat, args: seq<Arg>, k: nat, n: nat, fp: FloatText)
    requires n <= 255 && f + 1 < |fmt| && fmt[f] == 37 && fmt[f + 1] == 117 && k < |args| && args[k] == Word(n)
    ensures Rendered(fmt, f, args, k, fp) == Digits(n, 10, false) + Rendered(fmt, f + 2, args, k + 1, fp)
  {
    hide Digits, ReadSpec, Format.Printed;
    PlainSpec(fmt, f + 1, args, k);
    PlainPrinted(args, k, n, f + 1, fp);
  }

  lemma PlainPrinted(args: seq<Arg>, k: nat, n: nat, at: nat, fp: FloatText)
    requires n <= 255 && k < |args| && args[k] == Word(n)
    ensures Format.Printed(Spec(NO_FLAGS, 0, -1, 0, false, 117, at, k), args, fp) == Digits(n, 10, false)
  {
    hide Digits, NumberField, SignedText, TextField, Justified, IntAt, TextAt;
    PlainField(Digits(n, 10, false));
  }

  lemma PlainSpec(fmt: seq<byte>, f: nat, args: seq<Arg>, k: nat)
    requires f < |fmt| && fmt[f] == 117
    ensures ReadSpec(fmt, f, args, k) == Spec(NO_FLAGS, 0, -1, 0, false, 117, f, k)
  {
    assert ReadFlags(fmt, f, NO_FLAGS) == (NO_FLAGS, f);
    assert ReadWidth(fmt, f, NO_FLAGS, args, k) == (NO_FLAGS, 0, f, k);
    assert ReadPrec(fmt, f, args, k) == (-1, f, k);
    assert ReadLength(fmt, f, 0, false) == (0, false, f);
  }

  lemma PlainField(digits: seq<byte>)
    ensures NumberField(digits, false, [], NO_FLAGS, 0, -1) == digits
  {
    assert Repeat(48, 0) == [] && Repeat(32, 0) == [];
  }

  lemma PlainByte(fmt: seq<byte>, f: nat, args: seq<Arg>, k: nat, fp: FloatText)
    requires f < |fmt| && fmt[f] != 37 && fmt[f] != 0
    ensures Rendered(fmt, f, args, k, fp) == [fmt[f]] + Rendered(fmt, f + 1, args, k, fp)
  {}

  // "%u.%u.%u.%u" of four bytes.
  function QuadText(a: nat, b: nat, c: nat, d: nat, fp: FloatText): seq<byte>
    requires a <= 255 && b <= 255 && c <= 255 && d <= 255
  {
    Rendered([37, 117, 46, 37, 117, 46, 37, 117, 46, 37, 117], 0, [Word(a), Word(b), Word(c), Word(d)], 0, fp)
  }

  // What fmt_ip prints with the formatter, parse_quad reads back, whatever but a digit follows.
  lemma QuadRoundTrip(a: nat, b: nat, c: nat, d: nat, tail: seq<byte>, fp: FloatText)
    requires a <= 255 && b <= 255 && c <= 255 && d <= 255 && DigitVal(At(tail, 0)) >= 10
    ensures var text := QuadText(a, b, c, d, fp);
            QuadAt(text + tail, 0, 4, 0) == Octet(a * 0x100_0000 + b * 0x1_0000 + c * 0x100 + d, |text|)
  {
    hide Printed, QuadAt, DigitVal, Rendered, Digits;
    FourPrinted(a, b, c, d, fp);
    PrintedRoundTrip(a, b, c, d, tail);
  }

  lemma FourPrinted(a: nat, b: nat, c: nat, d: nat, fp: FloatText)
    requires a <= 255 && b <= 255 && c <= 255 && d <= 255
    ensures QuadText(a, b, c, d, fp) == Printed([a, b, c, d])
  {
    hide Printed, Rendered, Digits;
    var fmt: seq<byte> := [37, 117, 46, 37, 117, 46, 37, 117, 46, 37, 117];
    assert Template(1) == [37, 117];
    assert Template(2) == [37, 117, 46, 37, 117];
    assert Template(3) == [37, 117, 46, 37, 117, 46, 37, 117];
    assert fmt[0..] == fmt == Template(4);
    TemplatePrints(fmt, 0, [a, b, c, d], [Word(a), Word(b), Word(c), Word(d)], 0, fp);
  }

  lemma PrintedRoundTrip(a: nat, b: nat, c: nat, d: nat, tail: seq<byte>)
    requires a <= 255 && b <= 255 && c <= 255 && d <= 255 && DigitVal(At(tail, 0)) >= 10
    ensures var text := Printed([a, b, c, d]);
            QuadAt(text + tail, 0, 4, 0) == Octet(a * 0x100_0000 + b * 0x1_0000 + c * 0x100 + d, |text|)
  {
    hide Printed, QuadAt, DigitVal;
    var ns := [a, b, c, d];
    var s := Printed(ns) + tail;
    assert s[0..|Printed(ns)|] == Printed(ns);
    assert s[|Printed(ns)|..] == tail;
    assert At(s, |Printed(ns)|) == At(tail, 0);
    NumbersRead(s, 0, ns, 0);
    FourCombined(a, b, c, d);
  }

  lemma FourCombined(a: nat, b: nat, c: nat, d: nat)
    ensures Combined(0, [a, b, c, d]) == a * 0x100_0000 + b * 0x1_0000 + c * 0x100 + d
  {
    assert [a, b, c, d][1..] == [b, c, d] && [b, c, d][1..] == [c, d] && [c, d][1..] == [d] && [d][1..] == [];
    assert Combined(0, [a, b, c, d]) == Combined(a, [b, c, d]) == Combined(a * 256 + b, [c, d]);
    assert Combined(a * 256 + b, [c, d]) == Combined((a * 256 + b) * 256 + c, [d]);
  }

  lemma LastOctet(s: seq<byte>, p: nat, n: nat, v: nat)
    requires OctetAt(s, p).Octet? && OctetAt(s, p).v == n
    ensures QuadAt(s, p, 1, v) == Octet(v * 256 + n, OctetAt(s, p).end)
  {}

  lemma OctetThenDot(s: seq<byte>, p: nat, n: nat, rest: seq<byte>, k: nat, v: nat)
    requires n <= 255 && k > 1 && Has(s, p, Digits(n, 10, false)) && Has(s, p + |Digits(n, 10, false)|, [DOT] + rest)
    ensures var q := p + |Digits(n, 10, false)| + 1;
            QuadAt(s, p, k, v) == QuadAt(s, q, k - 1, v * 256 + n) && Has(s, q, rest)
  {
    hide Digits, OctetAt;
    var e := p + |Digits(n, 10, false)|;
    HasBoth(s, e, [DOT], rest);
    assert s[e] == s[e..e + 1][0] == DOT;
    OctetRead(s, p, n);
  }
}
