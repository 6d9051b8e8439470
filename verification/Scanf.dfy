// The integer conversions of vsscanf.
module Scanf {
  import opened Bytes
  import opened Numerals
  import opened Strto
  import opened Format
  import opened PrintParse

  const FIELD: nat := 511    // what the scanner's buffer holds beside its NUL

  datatype Length = Plain | HH | H | L | LL | J | Z | T

  // A 64-bit value stored through a pointer of the given length.
  function Stored(len: Length, v: u64): int {
    match len
    case Plain => Narrowed(v, TWO_32)
    case HH => Narrowed(v, 256)
    case H => Narrowed(v, 65536)
    case Z => v
    case _ => AsSigned(v)
  }

  function Narrowed(v: nat, range: nat): int
    requires range > 0
  {
    if v % range < range / 2 then v % range else v % range - range
  }

  // What is stored is the number in the range of its type that differs from the value by a
  // multiple of that range.
  lemma StoredLowBits(len: Length, v: u64) returns (k: int)
    ensures var range := match len case HH => 256 case H => 65536 case Plain => 0x1_0000_0000 case _ => 0x1_0000_0000_0000_0000;
            var r := Stored(len, v);
            && v == r + k * range
            && if len == Z then 0 <= r < range else -(range / 2) <= r < range / 2
  {
    k := 0;
    match len
    case Plain => k := Wrapped(v, TWO_32);
    case HH => k := Wrapped(v, 256);
    case H => k := Wrapped(v, 65536);
    case Z =>
    case _ => k := if v < TWO_63 then 0 else 1;
  }

  lemma Wrapped(v: nat, range: nat) returns (k: int)
    requires range > 0 && range % 2 == 0
    ensures v == Narrowed(v, range) + k * range && -(range / 2) <= Narrowed(v, range) < range / 2
  {
    k := v / range + if v % range < range / 2 then 0 else 1;
    assert v / range * range + range == (v / range + 1) * range;
  }

  // The values a length can hold.
  predicate Holds(len: Length, v: int) {
    match len
    case Plain => -(TWO_32 / 2) <= v < TWO_32 / 2
    case HH => -128 <= v < 128
    case H => -32768 <= v < 32768
    case Z => 0 <= v < TWO_64
    case _ => -TWO_63 <= v < TWO_63
  }

  function ScanBase(conv: byte): nat {
    if conv == 100 || conv == 117 then 10 else if conv == 111 then 8 else if conv == 105 then 0 else 16
  }

  predicate IsIntConv(conv: byte) {
    conv in {100, 105, 117, 111, 120, 88, 112}
  }

  function FieldMax(width: nat): nat {
    if 0 < width < FIELD then width else FIELD
  }

  // What is handed to strtoull: at most so many bytes of the input from i on.
  function Field(s: seq<byte>, i: nat, width: nat): seq<byte>
    requires i <= |s|
  {
    s[i..Min(|s|, i + FieldMax(width))]
  }

  datatype Scan = AtEnd | NoMatch | Matched(v: nat, next: nat)

  function Scanned(s: seq<byte>, i: nat, width: nat, conv: byte): Scan {
    var k := SpaceEnd(s, i);
    if k >= |s| then AtEnd
    else
      var r := Parsed(Field(s, k, width), ScanBase(conv));
      if r.end == 0 then NoMatch else Matched(r.value, k + r.end)
  }

  // One of d i u o x X p, its flags read: white space skipped, then the field copied and parsed.
  method ScanInteger(s: CString, i: nat, width: nat, conv: byte) returns (r: Scan)
    requires IsIntConv(conv) && i <= |s|
    ensures r == Scanned(s, i, width, conv)
    ensures r.Matched? ==> i < r.next <= |s|
  {
    hide SpaceEnd, Field, Parsed, FieldMax;
    SpaceEndInside(s, i);
    var p := SkipSpaces(s, i);
    if p >= |s| {
      return AtEnd;
    }
    var buf, k := CopyField(s, p, width);
    var v, end;
    if conv == 100 || conv == 105 {
      var n;
      n, end := Strtoll(buf[..k], ScanBase(conv));
      v := if n < 0 then n + TWO_64 else n;
    } else {
      v, end := Strtoull(buf[..k], ScanBase(conv));
    }
    EndInside(buf[..k], ScanBase(conv));
    if end == 0 {
      return NoMatch;
    }
    FieldInside(s, p, width);
    return Matched(v, p + end);
  }

  method SkipSpaces(s: CString, i: nat) returns (p: nat)
    requires i <= |s|
    ensures p == SpaceEnd(s, i) && (p < |s| <==> At(s, p) != 0)
  {
    p := i;
    while IsSpace(At(s, p))
      invariant i <= p <= |s| && SpaceEnd(s, p) == SpaceEnd(s, i)
      decreases |s| - p
    {
      p := p + 1;
    }
  }

  // The scanner's own copy of the field, with its NUL.
  method CopyField(s: CString, p: nat, width: nat) returns (buf: array<byte>, k: nat)
    requires p <= |s|
    ensures fresh(buf) && k < buf.Length && buf[..k] == Field(s, p, width) && buf[k] == 0
  {
    buf := new byte[FIELD + 1];
    var max := if 0 < width < FIELD then width else FIELD;
    k := 0;
    while k < max && At(s, p + k) != 0
      invariant k <= max && p + k <= |s| && buf[..k] == s[p..p + k]
    {
      buf[k] := s[p + k];
      k := k + 1;
    }
    buf[k] := 0;
  }

  lemma FieldInside(s: seq<byte>, p: nat, width: nat)
    requires p <= |s|
    ensures p + |Field(s, p, width)| <= |s|
  {}

  lemma {:induction false} SpaceEndInside(s: seq<byte>, i: nat)
    requires i <= |s|
    ensures i <= SpaceEnd(s, i) <= |s|
    decreases |s| - i
  {
    if IsSpace(At(s, i)) {
      SpaceEndInside(s, i + 1);
    }
  }

  lemma EndInside(s: seq<byte>, base: nat)
    requires base <= 36
    ensures Parsed(s, base).end <= |s| && Parsed(s, base).value < TWO_64
  {
    hide DigitVal, Val, HexPrefix, Radix, IsSpace;
    var p := SpaceEnd(s, 0);
    var q := Signed(s, p);
    var b := Radix(s, q, base);
    RadixSmall(s, q, base);
    RunInside(s, q, b);
    RunInside(s, q + 2, b);
  }

  // What isspace() knows.
  predicate Blank(c: byte) {
    c in {9, 10, 11, 12, 13, 32}
  }

  // Blanks and then as many digits as the conversion is wide: these digits are read, and nothing
  // behind them whatever it is.
  lemma ScanWidth(blanks: seq<byte>, ds: seq<byte>, rest: seq<byte>, conv: byte)
    requires (forall k :: 0 <= k < |blanks| ==> Blank(blanks[k])) && 0 < |ds| < FIELD
    requires match conv
             case 100 => AllDigits(ds, 10)
             case 117 => AllDigits(ds, 10)
             case 105 => AllDigits(ds, 10) && ds[0] != 48
             case 111 => AllDigits(ds, 8)
             case _ => conv in {120, 88, 112} && AllDigits(ds, 16)
    ensures var base := if conv == 111 then 8 else if conv in {120, 88, 112} then 16 else 10;
            Scanned(blanks + ds + rest, 0, |ds|, conv) == Matched(Val(ds, base) % TWO_64, |blanks| + |ds|)
  {
    hide Parsed, Val, AllDigits, Field, FieldMax, SpaceEnd, Laid, Stops, Blank;
    var base := if conv == 111 then 8 else if conv in {120, 88, 112} then 16 else 10;
    assert AllDigits(ds, base);
    DigitsWiden(ds, base);
    BlanksEnd(blanks, ds, rest);
    WholeField(blanks, ds, rest);
    DigitStops(ScanBase(conv), base);
    ParsedLaid(ds, 0, [], [], ds, [], ScanBase(conv), base);
  }

  lemma DigitsWiden(ds: seq<byte>, base: nat)
    requires AllDigits(ds, base) && base <= 16
    ensures AllDigits(ds, 16)
  {}

  // As many bytes as the width: the field is just these.
  lemma WholeField(blanks: seq<byte>, ds: seq<byte>, rest: seq<byte>)
    requires 0 < |ds| < FIELD
    ensures Field(blanks + ds + rest, |blanks|, |ds|) == ds && Laid(ds, 0, [], [], ds, [])
  {
    hide Field;
    assert blanks + ds + rest == blanks + (ds + rest);
    FieldOf(blanks + ds + rest, blanks, ds, rest, |ds|);
    assert Repeat(32, 0) + [] + [] + ds + [] == ds;
  }

  lemma DigitStops(base: nat, b: nat)
    requires b in {8, 10, 16}
    ensures Stops(At([], 0), base, b)
  {
    NulIsNoDigit();
  }

  lemma BlanksEnd(blanks: seq<byte>, ds: seq<byte>, rest: seq<byte>)
    requires (forall k :: 0 <= k < |blanks| ==> Blank(blanks[k])) && ds != [] && AllDigits(ds, 16)
    ensures SpaceEnd(blanks + ds + rest, 0) == |blanks|
  {
    var s := blanks + ds + rest;
    assert s[|blanks|] == ds[0];
    SpacesEnd(s, 0, |blanks|);
  }

  // However the input goes on behind the blanks, no more of it is taken than the width allows,
  // nor than the buffer holds.
  lemma ScanBounded(blanks: seq<byte>, rest: seq<byte>, width: nat, conv: byte)
    requires IsIntConv(conv) && (forall k :: 0 <= k < |blanks| ==> Blank(blanks[k])) && (rest != [] ==> !Blank(rest[0]))
    ensures var r := Scanned(blanks + rest, 0, width, conv);
            r.Matched? ==> r.next <= |blanks| + |rest| && r.next <= |blanks| + 511 && (width > 0 ==> r.next <= |blanks| + width)
  {
    hide Parsed;
    SpacesEnd(blanks + rest, 0, |blanks|);
    EndInside(Field(blanks + rest, |blanks|, width), ScanBase(conv));
  }

  // A field that fits is parsed as if the input had not been cut after it.
  lemma FieldKept(s: seq<byte>, a: nat, sign: seq<byte>, prefix: seq<byte>, d: seq<byte>, rest: seq<byte>, base: nat, b: nat,
                  w: nat)
    requires Laid(s, a, sign, prefix, d, rest) && AllDigits(d, b) && b in {8, 10, 16}
    requires base == b || (base == 0 && b == if |prefix| == 2 then 16 else if (prefix + d)[0] == 48 then 8 else 10)
    requires (|prefix| == 2 ==> b == 16) && Stops(At(rest, 0), base, b)
    requires |sign| + |prefix| + |d| <= if w == 0 then FIELD else Min(w, FIELD)
    ensures SpaceEnd(s, 0) == a < |s|
    ensures Parsed(Field(s, a, w), base).end + a == Parsed(s, base).end
    ensures Parsed(Field(s, a, w), base).value == Parsed(s, base).value
  {
    hide Parsed, DigitVal, Val, IsSpace, Laid;
    LaidAt(s, a, sign, prefix, d, rest);
    LaidShape(s, a, sign, prefix, d, rest);
    ZeroDigit();
    assert s[a + |sign|] == if prefix == [] then d[0] else 48;
    SignRead(s, a, sign);
    BlanksAreSpace(s, a);
    SpacesEnd(s, 0, a);
    ParsedLaid(s, a, sign, prefix, d, rest, base, b);
    BlankStops(base, b);
    var cut := CutRest(s, a, sign, prefix, d, rest, w);
    ParsedLaid(Field(s, a, w), 0, sign, prefix, d, cut, base, b);
  }

  lemma CutRest(s: seq<byte>, a: nat, sign: seq<byte>, prefix: seq<byte>, d: seq<byte>, rest: seq<byte>, w: nat)
      returns (cut: seq<byte>)
    requires Laid(s, a, sign, prefix, d, rest) && |sign| + |prefix| + |d| <= if w == 0 then FIELD else Min(w, FIELD)
    ensures a <= |s| && Laid(Field(s, a, w), 0, sign, prefix, d, cut) && (At(cut, 0) == 0 || At(cut, 0) == At(rest, 0))
  {
    hide Field;
    var x := sign + prefix + d;
    cut := rest[..Min(|rest|, FieldMax(w) - |x|)];
    assert s == Repeat(32, a) + (x + rest);
    FieldOf(s, Repeat(32, a), x, rest, w);
    assert Repeat(32, 0) + sign + prefix + d + cut == x + cut;
  }

  lemma FieldOf(s: seq<byte>, blanks: seq<byte>, x: seq<byte>, rest: seq<byte>, w: nat)
    requires s == blanks + (x + rest) && |x| <= FieldMax(w)
    ensures Field(s, |blanks|, w) == x + rest[..Min(|rest|, FieldMax(w) - |x|)]
  {
    hide FieldMax;
    assert s[|blanks|..] == x + rest;
  }

  // A printed number has no NUL in it.
  lemma FieldIsText(m: nat, b: nat, upper: bool, neg: bool, prefix: seq<byte>, fl: Flags, width: int, prec: int)
    requires b in {8, 10, 16} && prefix in {[], [48], [48, 120], [48, 88]}
    ensures 0 !in NumberField(Digits(m, b, upper), neg, prefix, fl, width, prec)
  {
    hide Digits, DigitVal;
    var digits := Digits(m, b, upper);
    DigitsDenote(m, b, upper);
    NulIsNoDigit();
    assert forall i :: 0 <= i < |digits| ==> digits[i] != 0;
  }

  // What the scanner copies of a number: all but blanks, of which the sign may be one.
  function Copied(digits: seq<byte>, neg: bool, prefix: seq<byte>, fl: Flags, width: int, prec: int): int {
    |NumberBody(digits, neg, prefix, fl, width, prec)| - if Sign(neg, fl) == [32] then 1 else 0
  }

  // sscanf gets back what printf printed: a numeral that fits the scanner's buffer and the width w
  // of the conversion, if it has one, in any field, scanned in its base or, by %i, in the base its
  // first characters tell.
  lemma ScanRoundTrip(m: nat, b: nat, upper: bool, neg: bool, prefix: seq<byte>, fl: Flags, width: int, prec: int,
                      tail: CString, conv: byte, w: nat)
    requires b in {8, 10, 16} && prefix in {[], [48], [48, 120], [48, 88]} && (|prefix| == 2 ==> b == 16)
    requires ScanBase(conv) == b || (conv == 105 && if |prefix| == 2 then b == 16 else b == 8 && (prefix == [48] || m == 0))
    requires Stops(At(tail, 0), ScanBase(conv), b) && m < TWO_64
    requires Copied(Digits(m, b, upper), neg, prefix, fl, width, prec) <= if w == 0 then FIELD else Min(w, FIELD)
    ensures var digits := Digits(m, b, upper);
            && 0 !in NumberField(digits, neg, prefix, fl, width, prec)
            && Scanned(NumberField(digits, neg, prefix, fl, width, prec) + tail, 0, w, conv)
            == Matched(if neg then Negated(m) else m, TextEnd(NumberBody(digits, neg, prefix, fl, width, prec), fl, width))
  {
    hide Digits, NumberField, NumberBody, Parsed, TextEnd, ZeroFill, Justified, Laid, Val, AllDigits, DigitVal, Sign, IsSpace;
    var digits := Digits(m, b, upper);
    var zeros := ZeroFill(|digits|, |prefix|, |Sign(neg, fl)|, fl, width, prec);
    NumberFieldIs(digits, neg, prefix, fl, width, prec);
    FieldIsText(m, b, upper, neg, prefix, fl, width, prec);
    Filled(m, b, upper, zeros);
    var d := Repeat(48, zeros) + digits;
    var a, sign, rest := FieldLaid(Sign(neg, fl), prefix, d, fl, width, tail);
    assert (prefix + d)[0] == if prefix == [] then d[0] else 48;
    var s := NumberField(digits, neg, prefix, fl, width, prec) + tail;
    BlankStops(ScanBase(conv), b);
    FieldKept(s, a, sign, prefix, d, rest, ScanBase(conv), b, w);
    ParsedLaid(s, a, sign, prefix, d, rest, ScanBase(conv), b);
  }

  // A longer field is cut, after 511 bytes or after the width w: the scan stops inside the
  // numeral, and the value is the same just when it is zero.
  lemma ScanTooLong(m: nat, b: nat, upper: bool, neg: bool, prefix: seq<byte>, fl: Flags, width: int, prec: int,
                    tail: CString, conv: byte, w: nat)
    requires b in {8, 10, 16} && prefix in {[], [48], [48, 120], [48, 88]} && (|prefix| == 2 ==> b == 16)
    requires ScanBase(conv) == b || (conv == 105 && if |prefix| == 2 then b == 16 else b == 8 && (prefix == [48] || m == 0))
    requires m < TWO_64 && (w == 0 || w > |Sign(neg, fl)| + |prefix|)
    requires Copied(Digits(m, b, upper), neg, prefix, fl, width, prec) > if w == 0 then FIELD else Min(w, FIELD)
    ensures var digits := Digits(m, b, upper);
            var r := Scanned(NumberField(digits, neg, prefix, fl, width, prec) + tail, 0, w, conv);
            && r.Matched? && r.next < TextEnd(NumberBody(digits, neg, prefix, fl, width, prec), fl, width)
            && (r.v == (if neg then Negated(m) else m) <==> m == 0)
  {
    hide Digits, NumberField, NumberBody, Parsed, TextEnd, ZeroFill, Justified, Laid, Val, AllDigits, DigitVal, Sign, IsSpace;
    var digits := Digits(m, b, upper);
    var zeros := ZeroFill(|digits|, |prefix|, |Sign(neg, fl)|, fl, width, prec);
    NumberFieldIs(digits, neg, prefix, fl, width, prec);
    Filled(m, b, upper, zeros);
    var d := Repeat(48, zeros) + digits;
    var a, sign, rest := FieldLaid(Sign(neg, fl), prefix, d, fl, width, tail);
    assert (prefix + d)[0] == if prefix == [] then d[0] else 48;
    var s := NumberField(digits, neg, prefix, fl, width, prec) + tail;
    NumeralFits(m, b, upper);
    FieldCut(s, a, sign, prefix, m, b, upper, zeros, rest, ScanBase(conv), w);
  }

  lemma FieldCut(s: seq<byte>, a: nat, sign: seq<byte>, prefix: seq<byte>, m: nat, b: nat, upper: bool, zeros: nat,
                 rest: seq<byte>, base: nat, w: nat)
    requires b in {8, 10, 16} && m < TWO_64 && Laid(s, a, sign, prefix, Repeat(48, zeros) + Digits(m, b, upper), rest)
    requires base == b || (base == 0 && b == if |prefix| == 2 then 16 else if (prefix + Repeat(48, zeros) + Digits(m, b, upper))[0] == 48 then 8 else 10)
    requires (|prefix| == 2 ==> b == 16) && |sign| + |prefix| + zeros + |Digits(m, b, upper)| > FieldMax(w) > |sign| + |prefix|
    ensures SpaceEnd(s, 0) == a < |s|
    ensures var r := Parsed(Field(s, a, w), base);
            r.end == FieldMax(w) && (r.value == (if sign == [45] then Negated(m) else m) <==> m == 0)
  {
    hide Parsed, DigitVal, Val, IsSpace, Laid, Digits, AllDigits, Negated;
    var digits := Digits(m, b, upper);
    var d := Repeat(48, zeros) + digits;
    LaidAt(s, a, sign, prefix, d, rest);
    LaidShape(s, a, sign, prefix, d, rest);
    Filled(m, b, upper, zeros);
    FirstDigit(d, b);
    ZeroDigit();
    SignRead(s, a, sign);
    BlanksAreSpace(s, a);
    SpacesEnd(s, 0, a);
    var k := FieldMax(w) - |sign| - |prefix|;
    CutDigits(m, b, upper, zeros, k);
    CutInside(s, a, sign, prefix, d, rest, k, w);
    BlankStops(base, b);
    ParsedLaid(Field(s, a, w), 0, sign, prefix, d[..k], [], base, b);
    Negations(m, Val(d[..k], b));
  }

  lemma Negations(m: nat, w: nat)
    requires m < TWO_64 && (w == 0 <== m == 0) && (m > 0 ==> w < m)
    ensures Negated(w % TWO_64) == Negated(m) <==> m == 0
    ensures w % TWO_64 == m <==> m == 0
  {}

  // Cut off its last digits, a positive numeral denotes less.
  lemma CutDigits(m: nat, b: nat, upper: bool, zeros: nat, k: nat)
    requires b in {8, 10, 16} && 0 < k < zeros + |Digits(m, b, upper)|
    ensures var d := Repeat(48, zeros) + Digits(m, b, upper);
            AllDigits(d[..k], b) && if m == 0 then Val(d[..k], b) == 0 else Val(d[..k], b) < m
  {
    hide Digits, Val, DigitVal;
    var digits := Digits(m, b, upper);
    var d := Repeat(48, zeros) + digits;
    Filled(m, b, upper, zeros);
    DigitsDenote(m, b, upper);
    if k <= zeros {
      assert d[..k] == Repeat(48, k) + [];
      NoDigits(b);
      LeadingZeros(k, [], b);
    } else {
      assert d[..k] == Repeat(48, zeros) + digits[..k - zeros];
      LeadingZeros(zeros, digits[..k - zeros], b);
      if m == 0 {
        ZeroNumeral(b, upper);
      } else {
        PrefixBelow(digits, k - zeros, b);
      }
    }
  }

  lemma CutInside(s: seq<byte>, a: nat, sign: seq<byte>, prefix: seq<byte>, d: seq<byte>, rest: seq<byte>, k: nat, w: nat)
    requires Laid(s, a, sign, prefix, d, rest) && 0 < k < |d| && |sign| + |prefix| + k == FieldMax(w)
    ensures a <= |s| && Laid(Field(s, a, w), 0, sign, prefix, d[..k], [])
  {
    hide Field, FieldMax;
    var x := sign + prefix + d[..k];
    assert s == Repeat(32, a) + (x + (d[k..] + rest));
    FieldOf(s, Repeat(32, a), x, d[k..] + rest, w);
    var none: seq<byte> := [];
    assert Repeat(32, 0) + sign + prefix + d[..k] + none == x;
  }

  // %d scanned by %d and stored through a pointer of any length that can hold the value.
  lemma ScanSignedRoundTrip(v: int, fl: Flags, width: int, prec: int, tail: CString, len: Length, w: nat)
    requires -TWO_63 <= v < TWO_63 && Holds(len, v) && DigitVal(At(tail, 0)) >= 10
    requires Copied(Digits(if v < 0 then -v else v, 10, false), v < 0, [], fl, width, prec) <= if w == 0 then FIELD else Min(w, FIELD)
    ensures var r := Scanned(SignedText(v, fl, width, prec) + tail, 0, w, 100);
            r.Matched? && r.v < TWO_64 && Stored(len, r.v) == v
  {
    hide Digits, NumberField, NumberBody, TextEnd, Scanned;
    ScanRoundTrip(if v < 0 then -v else v, 10, false, v < 0, [], fl, width, prec, tail, 100, w);
    StoredNegated(len, v);
  }

  lemma StoredNegated(len: Length, v: int)
    requires -TWO_63 <= v < TWO_63 && Holds(len, v)
    ensures Stored(len, if v < 0 then Negated(-v) else v) == v
  {
    hide Negated;
    NegatedIs(v);
    match len
    case Plain =>
    case HH =>
    case H =>
    case Z =>
    case _ =>
  }

  lemma NegatedIs(v: int)
    requires -TWO_63 <= v < 0 || v >= 0
    ensures v < 0 ==> Negated(-v) == v + TWO_64
  {}
}
