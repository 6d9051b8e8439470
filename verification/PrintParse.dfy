// What printf prints, strtoull and sscanf read back.
module PrintParse {
  import opened Bytes
  import opened Numerals
  import opened Strto
  import opened Format

  // The printed length, for every combination of flags.
  lemma FieldLength(digits: seq<byte>, neg: bool, prefix: seq<byte>, fl: Flags, width: int, prec: int)
    ensures |NumberField(digits, neg, prefix, fl, width, prec)|
            == Max(width, |Sign(neg, fl)| + |prefix| + Max(|digits|, prec))
  {}

  lemma {:induction false} SpacesEnd(s: seq<byte>, i: nat, p: nat)
    requires i <= p <= |s| && (forall k :: i <= k < p ==> IsSpace(s[k])) && !IsSpace(At(s, p))
    ensures SpaceEnd(s, i) == p
    decreases p - i
  {
    if i < p {
      SpacesEnd(s, i + 1, p);
    }
  }

  lemma {:induction false} RunEnds(s: seq<byte>, i: nat, e: nat, base: nat)
    requires i <= e <= |s| && base <= 36 && (forall k :: i <= k < e ==> DigitVal(s[k]) < base) && DigitVal(At(s, e)) >= base
    ensures RunEnd(s, i, base) == e
    decreases e - i
  {
    if i < e {
      RunEnds(s, i + 1, e, base);
    }
  }

  // White space up to p, a sign or none up to q, "0x" or nothing up to r, digits up to e.
  lemma ParsedAt(s: seq<byte>, p: nat, q: nat, r: nat, e: nat, base: nat, b: nat)
    requires base <= 36 && b <= 36 && p <= q <= r < e <= |s|
    requires (forall k :: 0 <= k < p ==> IsSpace(s[k])) && !IsSpace(At(s, p)) && q == Signed(s, p)
    requires b == Radix(s, q, base) && r == if (base == 0 || base == 16) && HexPrefix(s, q) then q + 2 else q
    requires AllDigits(s[r..e], b) && DigitVal(At(s, e)) >= b
    ensures Parsed(s, base).end == e
    ensures var v := Val(s[r..e], b) % TWO_64; Parsed(s, base).value == if At(s, p) == 45 then Negated(v) else v
  {
    hide Val, IsSpace, DigitVal, HexPrefix, SpaceEnd, RunEnd, Radix, Signed, Negated;
    SpacesEnd(s, 0, p);
    assert forall k :: r <= k < e ==> s[k] == s[r..e][k - r];
    RunEnds(s, r, e, b);
  }

  // The text of a field: blanks, an explicit sign, a prefix, digits, and what comes after.
  ghost predicate Laid(s: seq<byte>, a: nat, sign: seq<byte>, prefix: seq<byte>, d: seq<byte>, rest: seq<byte>) {
    && s == Repeat(32, a) + sign + prefix + d + rest
    && sign in {[], [43], [45]} && prefix in {[], [48], [48, 120], [48, 88]}
    && d != []
  }

  // What ends a numeral of base b: no digit of it, and no 'x' that would make "0" a prefix.
  predicate Stops(c: byte, base: nat, b: nat) {
    DigitVal(c) >= b && (base == 0 || base == 16 ==> c != 120 && c != 88)
  }

  lemma BlankStops(base: nat, b: nat)
    requires b <= 36
    ensures Stops(0, base, b) && Stops(32, base, b)
  {}

  lemma LaidAt(s: seq<byte>, a: nat, sign: seq<byte>, prefix: seq<byte>, d: seq<byte>, rest: seq<byte>)
    requires Laid(s, a, sign, prefix, d, rest)
    ensures var q := a + |sign|; var r := q + |prefix|; var e := r + |d|;
            && e <= |s| && s[q..r] == prefix && s[r..e] == d && At(s, e) == At(rest, 0)
            && (forall k :: 0 <= k < a ==> s[k] == 32) && (sign != [] ==> s[a] == sign[0])
            && s[q] == (prefix + d)[0] && At(s, q + 1) == (if |prefix + d| > 1 then (prefix + d)[1] else At(rest, 0))
            && (prefix != [] ==> s[r] == d[0])
  {
    hide Repeat;
    Parts(Repeat(32, a) + sign, prefix, d, rest);
    Front(Repeat(32, a), sign, prefix + d + rest);
    assert s == Repeat(32, a) + sign + (prefix + d + rest);
  }

  lemma Parts(x: seq<byte>, y: seq<byte>, z: seq<byte>, w: seq<byte>)
    requires z != []
    ensures var s, q := x + y + z + w, |x|; var r := q + |y|; var e := r + |z|;
            && e <= |s| && s[q..r] == y && s[r..e] == z && At(s, e) == At(w, 0) && s[r] == z[0]
            && s[q] == (y + z)[0] && At(s, q + 1) == (if |y + z| > 1 then (y + z)[1] else At(w, 0))
  {
    var s := x + y + z + w;
    assert s[|x|..|x| + |y + z|] == y + z;
  }

  lemma Front(x: seq<byte>, y: seq<byte>, z: seq<byte>)
    ensures var s := x + y + z; (forall k :: 0 <= k < |x| ==> s[k] == x[k]) && (y != [] ==> s[|x|] == y[0])
  {}

  // After a zero comes a digit or the end of the numeral, never an 'x'.
  lemma NotHex(s: seq<byte>, q: nat, base: nat, b: nat)
    requires DigitVal(At(s, q + 1)) < 16 || Stops(At(s, q + 1), base, b)
    ensures base == 0 || base == 16 ==> !HexPrefix(s, q)
  {}

  lemma StopsHere(c: byte, base: nat, b: nat)
    requires Stops(c, base, b)
    ensures DigitVal(c) >= b
  {}

  lemma SignRead(s: seq<byte>, a: nat, sign: seq<byte>)
    requires a + |sign| < |s| && sign in {[], [43], [45]} && (sign != [] ==> s[a] == sign[0])
    requires DigitVal(s[a + |sign|]) < 36
    ensures Signed(s, a) == a + |sign| && !IsSpace(At(s, a)) && (At(s, a) == 45 <==> sign == [45])
  {}

  lemma ParsedLaid(s: seq<byte>, a: nat, sign: seq<byte>, prefix: seq<byte>, d: seq<byte>, rest: seq<byte>, base: nat, b: nat)
    requires Laid(s, a, sign, prefix, d, rest) && AllDigits(d, b) && b in {8, 10, 16}
    requires base == b || (base == 0 && b == if |prefix| == 2 then 16 else if (prefix + d)[0] == 48 then 8 else 10)
    requires (|prefix| == 2 ==> b == 16) && Stops(At(rest, 0), base, b)
    ensures Parsed(s, base).end == a + |sign| + |prefix| + |d|
    ensures var v := Val(d, b) % TWO_64; Parsed(s, base).value == if sign == [45] then Negated(v) else v
  {
    hide DigitVal, IsSpace, Parsed, Val, HexPrefix, Laid, Stops, AllDigits, Signed, Negated;
    LaidAt(s, a, sign, prefix, d, rest);
    LaidShape(s, a, sign, prefix, d, rest);
    StopsHere(At(rest, 0), base, b);
    var q := a + |sign|;
    var e := q + |prefix| + |d|;
    ZeroDigit();
    FirstDigit(d, b);
    SignRead(s, a, sign);
    BlanksAreSpace(s, a);
    if |prefix| == 2 {
      HexRead(s, q);
      ParsedAt(s, a, q, q + 2, e, base, b);
    } else {
      SecondByte(prefix, d, At(rest, 0));
      NotHex(s, q, base, b);
      SlicesJoin(s, q, q + |prefix|, e);
      PrefixZero(prefix, d, b);
      ParsedAt(s, a, q, q, e, base, b);
    }
  }

  lemma SlicesJoin(s: seq<byte>, a: nat, b: nat, c: nat)
    requires a <= b <= c <= |s|
    ensures s[a..c] == s[a..b] + s[b..c]
  {}

  lemma SecondByte(prefix: seq<byte>, d: seq<byte>, after: byte)
    requires d != [] && |prefix| <= 1
    ensures (if |prefix + d| > 1 then (prefix + d)[1] else after)
            == if prefix != [] then d[0] else if |d| > 1 then d[1] else after
  {}

  lemma ZeroDigit()
    ensures DigitVal(48) == 0
  {}

  lemma LaidShape(s: seq<byte>, a: nat, sign: seq<byte>, prefix: seq<byte>, d: seq<byte>, rest: seq<byte>)
    requires Laid(s, a, sign, prefix, d, rest)
    ensures sign in {[], [43], [45]} && prefix in {[], [48], [48, 120], [48, 88]} && d != []
  {}

  lemma BlanksAreSpace(s: seq<byte>, a: nat)
    requires a <= |s| && forall k :: 0 <= k < a ==> s[k] == 32
    ensures forall k :: 0 <= k < a ==> IsSpace(s[k])
  {}

  lemma HexRead(s: seq<byte>, q: nat)
    requires q + 2 < |s| && s[q..q + 2] in {[48, 120], [48, 88]} && DigitVal(s[q + 2]) < 16
    ensures HexPrefix(s, q)
  {
    assert s[q] == s[q..q + 2][0] && s[q + 1] == s[q..q + 2][1];
  }

  lemma PrefixZero(prefix: seq<byte>, d: seq<byte>, b: nat)
    requires prefix in {[], [48]} && AllDigits(d, b) && b > 0
    ensures Val(prefix + d, b) == Val(d, b) && AllDigits(prefix + d, b)
  {
    assert prefix == Repeat(48, |prefix|);
    LeadingZeros(|prefix|, d, b);
  }

  // Where the digits of a field end: before its trailing blanks.
  function TextEnd(body: seq<byte>, fl: Flags, width: int): nat {
    if fl.minus then |body| else Max(width, |body|)
  }

  // A field holding body = sign, prefix and digits, and what follows it, read as text.
  lemma FieldLaid(sign: seq<byte>, prefix: seq<byte>, d: seq<byte>, fl: Flags, width: int, tail: seq<byte>)
      returns (a: nat, sign': seq<byte>, rest: seq<byte>)
    requires sign in {[], [43], [45], [32]} && prefix in {[], [48], [48, 120], [48, 88]} && d != []
    ensures At(rest, 0) == 32 || At(rest, 0) == At(tail, 0)
    ensures var body := sign + prefix + d;
            && Laid(Justified(body, fl, width) + tail, a, sign', prefix, d, rest)
            && a + |sign'| + |prefix| + |d| == TextEnd(body, fl, width)
            && sign' == if sign == [32] then [] else sign
  {
    hide *;
    var body := sign + prefix + d;
    var lead, trail := Margins(body, fl, width, tail);
    a, sign' := if sign == [32] then lead + 1 else lead, if sign == [32] then [] else sign;
    rest := trail + tail;
    assert Repeat(32, lead) + sign == Repeat(32, a) + sign';
    Regrouped(Repeat(32, lead), sign, prefix, d, rest);
    LaidOut(Justified(body, fl, width) + tail, a, sign', prefix, d, rest);
  }

  lemma Margins(body: seq<byte>, fl: Flags, width: int, tail: seq<byte>) returns (lead: nat, trail: seq<byte>)
    ensures Justified(body, fl, width) + tail == Repeat(32, lead) + body + (trail + tail)
    ensures lead + |body| == TextEnd(body, fl, width)
    ensures At(trail + tail, 0) == 32 || At(trail + tail, 0) == At(tail, 0)
  {
    var n := Max(width - |body|, 0);
    lead, trail := if fl.minus then 0 else n, if fl.minus then Repeat(32, n) else [];
    assert Repeat(32, 0) == [];
    assert trail == [] ==> trail + tail == tail;
  }

  lemma Regrouped(x: seq<byte>, sign: seq<byte>, prefix: seq<byte>, d: seq<byte>, rest: seq<byte>)
    ensures x + (sign + prefix + d) + rest == (x + sign) + prefix + d + rest
  {}

  lemma LaidOut(s: seq<byte>, a: nat, sign: seq<byte>, prefix: seq<byte>, d: seq<byte>, rest: seq<byte>)
    requires s == Repeat(32, a) + sign + prefix + d + rest
    requires sign in {[], [43], [45]} && prefix in {[], [48], [48, 120], [48, 88]}
    requires d != []
    ensures Laid(s, a, sign, prefix, d, rest)
  {}

  // Zeros and digits of v: the same value in the same base.
  lemma Filled(v: nat, base: nat, upper: bool, zeros: nat)
    requires base in {8, 10, 16}
    ensures var d := Repeat(48, zeros) + Digits(v, base, upper);
            && d != [] && AllDigits(d, base) && Val(d, base) == v
            && (d[0] == 48 <==> zeros > 0 || v == 0)
  {
    DigitsDenote(v, base, upper);
    LeadingZeros(zeros, Digits(v, base, upper), base);
    assert DigitVal(48) == 0;
    if v == 0 {
      DigitsUnfold(0, base, upper);
    }
  }

  // A number without the blanks of its field.
  function NumberBody(digits: seq<byte>, neg: bool, prefix: seq<byte>, fl: Flags, width: int, prec: int): seq<byte> {
    var sign := Sign(neg, fl);
    sign + prefix + (Repeat(48, ZeroFill(|digits|, |prefix|, |sign|, fl, width, prec)) + digits)
  }

  lemma NumberFieldIs(digits: seq<byte>, neg: bool, prefix: seq<byte>, fl: Flags, width: int, prec: int)
    ensures NumberField(digits, neg, prefix, fl, width, prec)
            == Justified(NumberBody(digits, neg, prefix, fl, width, prec), fl, width)
    ensures Sign(neg, fl) in {[], [43], [45], [32]} && (Sign(neg, fl) == [45] <==> neg)
    ensures var zeros := ZeroFill(|digits|, |prefix|, |Sign(neg, fl)|, fl, width, prec);
            NumberBody(digits, neg, prefix, fl, width, prec) == Sign(neg, fl) + prefix + (Repeat(48, zeros) + digits)
  {
    var sign := Sign(neg, fl);
    var z := Repeat(48, ZeroFill(|digits|, |prefix|, |sign|, fl, width, prec));
    assert sign + prefix + (z + digits) == sign + prefix + z + digits;
  }

  // The numeral of m in base b, in any field, read back in that base or, when its first
  // characters tell the base, in base 0.
  lemma NumberRoundTrip(m: nat, b: nat, upper: bool, neg: bool, prefix: seq<byte>, fl: Flags, width: int, prec: int,
                        tail: seq<byte>, base: nat)
    requires b in {8, 10, 16} && prefix in {[], [48], [48, 120], [48, 88]} && (|prefix| == 2 ==> b == 16)
    requires base == b || (base == 0 && if |prefix| == 2 then b == 16 else b == 8 && (prefix == [48] || m == 0))
    requires Stops(At(tail, 0), base, b)
    ensures var digits := Digits(m, b, upper);
            var r := Parsed(NumberField(digits, neg, prefix, fl, width, prec) + tail, base);
            && r.end == TextEnd(NumberBody(digits, neg, prefix, fl, width, prec), fl, width)
            && r.value == if neg then Negated(m % TWO_64) else m % TWO_64
  {
    hide *;
    var digits := Digits(m, b, upper);
    var zeros := ZeroFill(|digits|, |prefix|, |Sign(neg, fl)|, fl, width, prec);
    var d := Repeat(48, zeros) + digits;
    NumberFieldIs(digits, neg, prefix, fl, width, prec);
    Filled(m, b, upper, zeros);
    var a, sign, rest := FieldLaid(Sign(neg, fl), prefix, d, fl, width, tail);
    assert (prefix + d)[0] == if prefix == [] then d[0] else prefix[0];
    BlankStops(base, b);
    ParsedLaid(NumberField(digits, neg, prefix, fl, width, prec) + tail, a, sign, prefix, d, rest, base, b);
  }

  // A zero is one in every base.
  lemma ZeroNumeral(b: nat, upper: bool)
    requires b in {8, 10, 16}
    ensures Digits(0, b, upper) == [48] == Digits(0, 8, false)
  {
    DigitsUnfold(0, b, upper);
  }

  // Where the digits of a printed integer end, its trailing blanks left aside.
  function SignedEnd(v: int, fl: Flags, width: int, prec: int): nat {
    TextEnd(NumberBody(Digits(if v < 0 then -v else v, 10, false), v < 0, [], fl, width, prec), fl, width)
  }

  function UnsignedEnd(v: nat, conv: byte, fl: Flags, width: int, prec: int): nat {
    var prefix := if fl.hash && v != 0 then Prefix(conv) else [];
    TextEnd(NumberBody(Digits(v, Base(conv), conv == 88), false, prefix, fl, width, prec), fl, width)
  }

  // %d under any flags, width and precision, read back by strtoll in base 10: the value that
  // was printed, LLONG_MIN included, ending where the digits end. What follows must not
  // be a digit.
  lemma SignedRoundTrip(v: int, fl: Flags, width: int, prec: int, tail: seq<byte>)
    requires -TWO_63 <= v < TWO_63 && DigitVal(At(tail, 0)) >= 10
    ensures var r := Parsed(SignedText(v, fl, width, prec) + tail, 10);
            r.value < TWO_64 && AsSigned(r.value) == v && r.end == SignedEnd(v, fl, width, prec)
  {
    hide Digits, NumberField, NumberBody, Parsed, TextEnd;
    NumberRoundTrip(if v < 0 then -v else v, 10, false, v < 0, [], fl, width, prec, tail, 10);
  }

  // %u, %o, %x and %X read back by strtoull in the base of the conversion; with the '#' of
  // %o, %x and %X in base 0 as well.
  lemma UnsignedRoundTrip(v: u64, conv: byte, fl: Flags, width: int, prec: int, tail: seq<byte>, base: nat)
    requires conv in {117, 111, 120, 88} && Stops(At(tail, 0), base, Base(conv))
    requires base == Base(conv) || (base == 0 && fl.hash && conv != 117)
    ensures Parsed(UnsignedText(v, conv, fl, width, prec) + tail, base) == Number(v, UnsignedEnd(v, conv, fl, width, prec))
  {
    hide Digits, NumberField, NumberBody, Parsed, TextEnd;
    var prefix := if fl.hash && v != 0 then Prefix(conv) else [];
    if base == 0 && v == 0 {
      ZeroNumeral(Base(conv), conv == 88);
      NumberRoundTrip(0, 8, false, false, [], fl, width, prec, tail, 0);
    } else {
      NumberRoundTrip(v, Base(conv), conv == 88, false, prefix, fl, width, prec, tail, base);
    }
  }

  // The zeros printed between sign and digits of a %d.
  function SignedZeros(v: int, fl: Flags, width: int, prec: int): nat {
    ZeroFill(|Digits(if v < 0 then -v else v, 10, false)|, 0, |Sign(v < 0, fl)|, fl, width, prec)
  }

  // %d read back in base 0: leading zeros make it octal, so the value survives exactly when
  // there are none or it has a single octal digit.
  lemma SignedBaseZero(v: int, fl: Flags, width: int, prec: int, tail: seq<byte>)
    requires -TWO_63 <= v < TWO_63 && Stops(At(tail, 0), 0, 10)
    ensures var r := Parsed(SignedText(v, fl, width, prec) + tail, 0).value;
            r < TWO_64 && (AsSigned(r) == v <==> SignedZeros(v, fl, width, prec) == 0 || -8 < v < 8)
  {
    hide Digits, NumberField, NumberBody, Parsed, TextEnd, ZeroFill, Sign;
    var m := if v < 0 then -v else v;
    if m == 0 {
      ZeroNumeral(10, false);
      NumberRoundTrip(0, 8, false, false, [], fl, width, prec, tail, 0);
    } else {
      var w := BaseZeroRead(m, 10, false, v < 0, fl, width, prec, tail);
    }
  }

  // A numeral without a prefix, in any field, read in base 0.
  lemma BaseZeroRead(m: nat, b: nat, upper: bool, neg: bool, fl: Flags, width: int, prec: int, tail: seq<byte>) returns (w: nat)
    requires b in {8, 10, 16} && 0 < m < TWO_64 && Stops(At(tail, 0), 0, 10)
    ensures var digits := Digits(m, b, upper);
            var c := if ZeroFill(|digits|, 0, |Sign(neg, fl)|, fl, width, prec) > 0 then 8 else 10;
            && Parsed(NumberField(digits, neg, [], fl, width, prec) + tail, 0).value == (if neg then Negated(w % TWO_64) else w % TWO_64)
            && if c == b || (m < c && m < b) then w == m
               else if c < b then w < m
               else m < w == Val(digits, c)
  {
    hide Digits, NumberField, NumberBody, Parsed, TextEnd, ZeroFill, Justified, Laid, Val, AllDigits, DigitVal, Sign, Stops;
    var digits := Digits(m, b, upper);
    var zeros := ZeroFill(|digits|, 0, |Sign(neg, fl)|, fl, width, prec);
    var s := NumberField(digits, neg, [], fl, width, prec) + tail;
    var d := Repeat(48, zeros) + digits;
    NumberFieldIs(digits, neg, [], fl, width, prec);
    Filled(m, b, upper, zeros);
    var a, sign, rest := FieldLaid(Sign(neg, fl), [], d, fl, width, tail);
    BlankStops(0, 10);
    StopsEarlier(At(rest, 0), 10, 8);
    assert [] + d == d;
    if b == (if zeros > 0 then 8 else 10) {
      w := m;
      ParsedLaid(s, a, sign, [], d, rest, 0, b);
    } else {
      w := OtherBase(s, a, sign, m, b, upper, zeros, rest);
    }
  }

  // The zeros printed before the digits of a %u, or of a %o, %x or %X without '#'.
  function UnsignedZeros(v: nat, conv: byte, fl: Flags, width: int, prec: int): nat {
    ZeroFill(|Digits(v, Base(conv), conv == 88)|, 0, |Sign(false, fl)|, fl, width, prec)
  }

  // %u, or %o, %x or %X without '#', read back in base 0, which is octal after a zero and
  // decimal otherwise: the value survives exactly when that is the base it was printed in, or it
  // is a single digit of both. An octal numeral of more than 57 bits is read as its decimal
  // value modulo 2^64.
  lemma UnsignedBaseZero(v: u64, conv: byte, fl: Flags, width: int, prec: int, tail: seq<byte>)
    requires conv in {117, 111, 120, 88} && (fl.hash ==> conv == 117) && Stops(At(tail, 0), 0, 10)
    ensures var r := Parsed(UnsignedText(v, conv, fl, width, prec) + tail, 0).value;
            var zeros := UnsignedZeros(v, conv, fl, width, prec);
            var c := if zeros > 0 then 8 else 10;
            if conv == 111 && zeros == 0 && v >= EightTo(19) then r == Val(Digits(v, 8, false), 10) % TWO_64
            else r == v <==> c == Base(conv) || (v < c && v < Base(conv))
  {
    hide Digits, NumberField, NumberBody, Parsed, TextEnd, ZeroFill, Val, AllDigits, DigitVal, Sign, EightTo, Stops;
    var b, upper := Base(conv), conv == 88;
    OctalFits(v);
    if v == 0 {
      ZeroNumeral(b, upper);
      StopsEarlier(At(tail, 0), 10, 8);
      NumberRoundTrip(0, 8, false, false, [], fl, width, prec, tail, 0);
    } else {
      var w := BaseZeroRead(v, b, upper, false, fl, width, prec, tail);
    }
  }

  lemma OctalFits(v: nat)
    ensures 0 < v < EightTo(19) ==> Val(Digits(v, 8, false), 10) < TWO_64
    ensures EightTo(19) > 8
  {
    hide Digits, Val, AllDigits, EightTo, TenTo;
    Eighteens();
    if 0 < v < EightTo(19) {
      DigitsShort(v, 8, false, 19);
      DigitsDenote(v, 8, false);
      DecimalBound(Digits(v, 8, false), 19);
    }
  }

  lemma Eighteens()
    ensures EightTo(19) > 8 && TenTo(19) < TWO_64
  {
    assert EightTo(1) == 8;
    assert EightTo(10) == 0x4000_0000;
    assert TenTo(5) == 100_000;
    assert TenTo(10) == 10_000_000_000;
    assert TenTo(15) == 1_000_000_000_000_000;
  }

  function TenTo(k: nat): nat {
    if k == 0 then 1 else 10 * TenTo(k - 1)
  }

  lemma {:induction false} DecimalBound(x: seq<byte>, k: nat)
    requires AllDigits(x, 8) && |x| <= k
    ensures Val(x, 10) < TenTo(k)
    decreases k
  {
    if x != [] {
      var y := x[..|x| - 1];
      assert DigitVal(x[|x| - 1]) < 8;
      DecimalBound(y, k - 1);
    } else if k > 0 {
      DecimalBound(x, k - 1);
    }
  }

  lemma StopsEarlier(c: byte, b: nat, b': nat)
    requires Stops(c, 0, b) && b' <= b
    ensures Stops(c, 0, b')
  {}

  // What base 0 makes of a numeral in another base: the digits it starts with, in base 8 or 10.
  lemma OtherBase(s: seq<byte>, a: nat, sign: seq<byte>, m: nat, b: nat, upper: bool, zeros: nat, rest: seq<byte>) returns (w: nat)
    requires b in {8, 10, 16} && 0 < m < TWO_64 && Laid(s, a, sign, [], Repeat(48, zeros) + Digits(m, b, upper), rest)
    requires Stops(At(rest, 0), 0, 10) && b != if zeros > 0 then 8 else 10
    ensures var c := if zeros > 0 then 8 else 10;
            if m < c && m < b then w == m
            else if c < b then w < m
            else m < w == Val(Digits(m, b, upper), c)
    ensures Parsed(s, 0).value == if sign == [45] then Negated(w % TWO_64) else w % TWO_64
  {
    hide DigitVal, IsSpace, Parsed, Val, HexPrefix, Laid, Digits, Stops, AllDigits, SpaceEnd, RunEnd, Signed;
    var c := if zeros > 0 then 8 else 10;
    var digits := Digits(m, b, upper);
    var d := Repeat(48, zeros) + digits;
    LaidAt(s, a, sign, [], d, rest);
    LaidShape(s, a, sign, [], d, rest);
    ZeroDigit();
    Filled(m, b, upper, zeros);
    FirstDigit(d, b);
    SignRead(s, a, sign);
    BlanksAreSpace(s, a);
    var q, k := a + |sign|, RunEnd(digits, 0, c);
    OtherPart(digits, m, b, upper, c);
    var e := q + zeros + k;
    DigitsSlice(s, q, zeros, digits, k);
    LeadingZeros(zeros, digits[..k], c);
    StopsHere(At(rest, 0), 0, 10);
    NotHex(s, q, 0, 10);
    assert At(s, e) == if k < |digits| then digits[k] else At(rest, 0);
    w := Val(digits[..k], c);
    if e > q {
      ParsedAt(s, a, q, q, e, 0, c);
    } else {
      NothingParsed(s, a, q);
      NothingDenotesZero(digits[..k], c);
    }
  }

  lemma FirstDigit(d: seq<byte>, b: nat)
    requires AllDigits(d, b) && d != [] && b <= 16
    ensures DigitVal(d[0]) < b && (|d| > 1 ==> DigitVal(d[1]) < b)
  {}

  // No digit where base 0 looks for one.
  lemma NothingParsed(s: seq<byte>, p: nat, q: nat)
    requires p <= q < |s| && (forall k :: 0 <= k < p ==> IsSpace(s[k])) && !IsSpace(At(s, p)) && q == Signed(s, p)
    requires At(s, q) != 48 && DigitVal(At(s, q)) >= 10
    ensures Parsed(s, 0).value == 0
  {
    hide IsSpace, DigitVal;
    SpacesEnd(s, 0, p);
  }

  lemma DigitsSlice(s: seq<byte>, q: nat, zeros: nat, digits: seq<byte>, k: nat)
    requires var d := Repeat(48, zeros) + digits; q + |d| <= |s| && s[q..q + |d|] == d
    requires k <= |digits|
    ensures s[q..q + zeros + k] == Repeat(48, zeros) + digits[..k]
    ensures k < |digits| ==> s[q + zeros + k] == digits[k]
    ensures zeros + |digits| > 1 ==> s[q + 1] == (Repeat(48, zeros) + digits)[1]
  {
    var d := Repeat(48, zeros) + digits;
    SubSlice(s, q, q + |d|, 0, zeros + k);
    assert d[0..zeros + k] == Repeat(48, zeros) + digits[..k];
    assert k < |digits| ==> s[q + zeros + k] == d[zeros + k];
    assert zeros + |digits| > 1 ==> s[q + 1] == d[1];
  }

  // The digits below c that a numeral in base b starts with, read in base c.
  lemma OtherPart(digits: seq<byte>, m: nat, b: nat, upper: bool, c: nat)
    requires b in {8, 10, 16} && c in {8, 10} && b != c && digits == Digits(m, b, upper) && m > 0
    ensures var k := RunEnd(digits, 0, c); var w := Val(digits[..k], c);
            && k <= |digits| && AllDigits(digits[..k], c) && (k < |digits| ==> DigitVal(digits[k]) >= c)
            && if m < c && m < b then w == m
               else if c < b then w < m
               else digits[..k] == digits && w > m
  {
    var k := RunEnd(digits, 0, c);
    hide Digits, Val, DigitVal, AllDigits;
    DigitsDenote(m, b, upper);
    RunIsDigits(digits, 0, c);
    assert digits[0..k] == digits[..k];
    DigitsUnfold(m, b, upper);
    if m < b && m < c {
      OneDigit(digits, b, m);
      assert k == 1;
      assert digits[..k] == digits;
      ValOne(digits[0], c);
    } else if c < b {
      LessInBase(digits[..k], c, b);
      if k < |digits| {
        PrefixBelow(digits, k, b);
      } else {
        assert digits[..k] == digits;
      }
    } else {
      SmallerDigits(digits, b, c, k);
      assert digits[..k] == digits;
      LessInBase(digits, b, c);
    }
  }

  lemma OneDigit(digits: seq<byte>, b: nat, m: nat)
    requires |digits| == 1 && Val(digits, b) == m
    ensures DigitVal(digits[0]) == m
  {
    assert digits == [digits[0]];
    ValOne(digits[0], b);
  }

  lemma SmallerDigits(digits: seq<byte>, b: nat, c: nat, k: nat)
    requires AllDigits(digits, b) && b <= c && k <= |digits| && (k < |digits| ==> DigitVal(digits[k]) >= c)
    ensures k == |digits|
  {}

  lemma {:induction false} RunIsDigits(s: seq<byte>, i: nat, base: nat)
    requires i <= |s| && base <= 36
    ensures var e := RunEnd(s, i, base);
            e <= |s| && AllDigits(s[i..e], base) && (e < |s| ==> DigitVal(s[e]) >= base)
    decreases |s| - i
  {
    if DigitVal(At(s, i)) < base {
      RunIsDigits(s, i + 1, base);
      var e := RunEnd(s, i + 1, base);
      assert s[i..e] == [s[i]] + s[i + 1..e];
    }
  }

  lemma {:induction false} LeadsToSome(x: seq<byte>, b: nat)
    requires x != [] && DigitVal(x[0]) > 0 && b > 0
    ensures Val(x, b) > 0
  {
    if |x| > 1 {
      var y := x[..|x| - 1];
      LeadsToSome(y, b);
      Product(1, b, 1, Val(y, b));
    }
  }

  lemma {:induction false} LessInBase(x: seq<byte>, c: nat, b: nat)
    requires 0 < c < b
    ensures Val(x, c) <= Val(x, b)
    ensures |x| >= 2 && DigitVal(x[0]) > 0 ==> Val(x, c) < Val(x, b)
  {
    if x != [] {
      var y := x[..|x| - 1];
      LessInBase(y, c, b);
      Product(c, c, Val(y, c), Val(y, b));
      Product(c, b, Val(y, b), Val(y, b));
      if |x| >= 2 && DigitVal(x[0]) > 0 {
        LeadsToSome(y, b);
        MoreBase(c, b, Val(y, b));
      }
    }
  }

  lemma MoreBase(c: nat, b: nat, v: nat)
    requires c < b && v > 0
    ensures c * v < b * v
  {}

  lemma {:induction false} PrefixBelow(x: seq<byte>, k: nat, b: nat)
    requires k < |x| && DigitVal(x[0]) > 0 && b > 1
    ensures Val(x[..k], b) < Val(x, b)
  {
    var y := x[..|x| - 1];
    Product(1, b, Val(y, b), Val(y, b));
    if k < |y| {
      assert y[..k] == x[..k];
      PrefixBelow(y, k, b);
    } else {
      assert x[..k] == y;
      if y == [] {
        LeadsToSome(x, b);
        NothingDenotesZero(y, b);
      } else {
        LeadsToSome(y, b);
        MoreBase(1, b, Val(y, b));
      }
    }
  }
}
