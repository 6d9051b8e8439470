// What a format prints, told of its pieces: literal bytes, and conversions with their flags,
// width, precision and length. Every field is given by its own bytes and the arguments it takes.
module Pieces {
  import opened Bytes
  import opened Numerals
  import opened Format

  const LOWER: seq<byte> := [48, 49, 50, 51, 52, 53, 54, 55, 56, 57, 97, 98, 99, 100, 101, 102]   // 0-9a-f
  const UPPER: seq<byte> := [48, 49, 50, 51, 52, 53, 54, 55, 56, 57, 65, 66, 67, 68, 69, 70]      // 0-9A-F

  // A width or a precision: left out, written in digits, or an argument.
  datatype Amount = Absent | Written(ds: seq<byte>) | Star

  datatype Piece =
    | Plain(c: byte)
    | Conversion(flags: seq<byte>, width: Amount, prec: Amount, length: seq<byte>, conv: byte)

  const FLAG_CHARS: set<byte> := {45, 43, 32, 35, 48}               // - + space # 0
  const LENGTH_CHARS: set<byte> := {104, 108, 122, 116, 106, 76}    // h l z t j L
  const FLOATS: set<byte> := {102, 70, 101, 69, 103, 71, 97, 65}    // f F e E g G a A

  predicate IsDecimal(ds: seq<byte>) {
    forall i :: 0 <= i < |ds| ==> 48 <= ds[i] <= 57
  }

  // A piece as a format can spell it: what would be read as part of the one before stands apart.
  predicate WellFormed(p: Piece) {
    match p
    case Plain(c) => c != 0 && c != 37
    case Conversion(flags, width, prec, length, conv) =>
      && (forall i :: 0 <= i < |flags| ==> flags[i] in FLAG_CHARS)
      && (width.Written? ==> width.ds != [] && width.ds[0] != 48 && IsDecimal(width.ds))
      && (prec.Written? ==> IsDecimal(prec.ds))
      && (forall i :: 0 <= i < |length| ==> length[i] in LENGTH_CHARS)
      && conv !in FLAG_CHARS + LENGTH_CHARS && !(49 <= conv <= 57) && conv != 0 && conv != 42 && conv != 46
  }

  function AmountText(a: Amount): seq<byte> {
    match a
    case Absent => []
    case Written(ds) => ds
    case Star => [42]
  }

  function PrecText(a: Amount): seq<byte> {
    if a.Absent? then [] else [46] + AmountText(a)
  }

  function PieceText(p: Piece): (t: seq<byte>)
    ensures t != []
  {
    match p
    case Plain(c) => [c]
    case Conversion(flags, width, prec, length, conv) =>
      [37] + flags + AmountText(width) + PrecText(prec) + length + [conv]
  }

  function FormatText(ps: seq<Piece>): seq<byte> {
    if ps == [] then [] else PieceText(ps[0]) + FormatText(ps[1..])
  }

  // How many arguments a piece takes: one for each star, and then its own if it has one.
  function Taken(p: Piece): nat {
    if p.Plain? then 0
    else
      (if p.width.Star? then 1 else 0) + (if p.prec.Star? then 1 else 0)
        + if p.conv in {100, 105, 117, 111, 120, 88, 112, 99, 115, 110} + FLOATS then 1 else 0
  }

  // Where the arguments of ps[i] begin.
  function First(ps: seq<Piece>, i: nat): nat
    requires i <= |ps|
  {
    if i == 0 then 0 else First(ps, i - 1) + Taken(ps[i - 1])
  }

  // The arguments ps[i] takes: the next ones no piece before it has used.
  function Given(ps: seq<Piece>, i: nat, args: seq<Arg>): seq<Arg>
    requires i < |ps|
  {
    var k := First(ps, i);
    if k + Taken(ps[i]) <= |args| then args[k..k + Taken(ps[i])] else []
  }

  // The arguments are there and of the kinds the piece asks for.
  predicate Supplied(p: Piece, given: seq<Arg>) {
    && |given| == Taken(p)
    && (p.Conversion? ==>
          && (p.width.Star? ==> given[0].Word?)
          && (p.prec.Star? ==> given[if p.width.Star? then 1 else 0].Word?)
          && (p.conv == 115 ==> !given[|given| - 1].Word?)
          && (p.conv in {100, 105, 117, 111, 120, 88, 112, 99} + FLOATS ==> given[|given| - 1].Word?))
  }

  // The low so many bits of a word, as an unsigned and as a signed number.
  function LowBits(bits: nat, range: nat): nat
    requires range > 0
  {
    bits % range
  }

  function LowSigned(bits: nat, range: nat): int
    requires range > 0
  {
    (bits + range / 2) % range - range / 2
  }

  // The width asked for, to the left if a flag or a negative argument says so.
  function WidthOf(p: Piece, given: seq<Arg>): int
    requires p.Conversion? && Supplied(p, given)
  {
    match p.width
    case Absent => 0
    case Written(ds) => Val(ds, 10)
    case Star => var w := LowSigned(given[0].bits, TWO_32); if w < 0 then -w else w
  }

  predicate ToTheLeft(p: Piece, given: seq<Arg>)
    requires p.Conversion? && Supplied(p, given)
  {
    45 in p.flags || (p.width.Star? && LowSigned(given[0].bits, TWO_32) < 0)
  }

  // The precision, -1 if there is none or a negative argument says so.
  function PrecOf(p: Piece, given: seq<Arg>): int
    requires p.Conversion? && Supplied(p, given)
  {
    match p.prec
    case Absent => -1
    case Written(ds) => Val(ds, 10)
    case Star =>
      var n := LowSigned(given[if p.width.Star? then 1 else 0].bits, TWO_32);
      if n < 0 then -1 else n
  }

  predicate IsLong(p: Piece)
    requires p.Conversion?
  {
    exists i :: 0 <= i < |p.length| && p.length[i] in {108, 122, 116, 106}
  }

  // The body stands at one side of the field, and the rest of the field is blank.
  ghost predicate Padded(text: seq<byte>, body: seq<byte>, width: int, left: bool) {
    && |text| == (if width > |body| then width else |body|)
    && text == if left then body + Repeat(32, |text| - |body|) else Repeat(32, |text| - |body|) + body
  }

  // The shortest numeral of v in the given digits.
  ghost predicate Numeral(d: seq<byte>, v: nat, base: nat, digits: seq<byte>)
    requires base <= |digits|
  {
    && d != [] && (|d| > 1 ==> d[0] != 48) && (forall i :: 0 <= i < |d| ==> d[i] in digits[..base])
    && Val(d, base) == v
  }

  // How many zeros go before the digits: up to the precision, or without one up to the width if the
  // flag 0 asks for them and the number is not to the left.
  function Zeros(len: nat, before: nat, zero: bool, left: bool, width: int, prec: int): nat {
    if prec >= 0 then (if prec > len then prec - len else 0)
    else if zero && !left && width > before + len then width - before - len
    else 0
  }

  ghost predicate NumberShown(text: seq<byte>, p: Piece, given: seq<Arg>, neg: bool, prefix: seq<byte>, v: nat, base: nat, digits: seq<byte>)
    requires p.Conversion? && Supplied(p, given) && base <= |digits|
  {
    var sign: seq<byte> := if neg then [45] else if 43 in p.flags then [43] else if 32 in p.flags then [32] else [];
    var width, prec, left := WidthOf(p, given), PrecOf(p, given), ToTheLeft(p, given);
    exists d ::
      && Numeral(d, v, base, digits)
      && Padded(text, sign + prefix + Repeat(48, Zeros(|d|, |sign| + |prefix|, 48 in p.flags, left, width, prec)) + d, width, left)
  }

  // The field a piece prints, given its arguments.
  ghost predicate Shows(text: seq<byte>, p: Piece, given: seq<Arg>, fp: FloatText)
    requires Supplied(p, given)
  {
    if p.Plain? then text == [p.c]
    else
      var width, prec, left := WidthOf(p, given), PrecOf(p, given), ToTheLeft(p, given);
      if p.conv in {100, 105} then                                                          // d i
        var v := LowSigned(given[|given| - 1].bits, if IsLong(p) then TWO_64 else TWO_32);
        NumberShown(text, p, given, v < 0, [], if v < 0 then -v else v, 10, LOWER)
      else if p.conv in {117, 111, 120, 88} then                                            // u o x X
        var v := LowBits(given[|given| - 1].bits, if IsLong(p) then TWO_64 else TWO_32);
        var prefix: seq<byte> :=
          if 35 !in p.flags || v == 0 || p.conv == 117 then [] else if p.conv == 111 then [48] else [48, p.conv];
        NumberShown(text, p, given, false, prefix, v, if p.conv == 117 then 10 else if p.conv == 111 then 8 else 16,
                    if p.conv == 88 then UPPER else LOWER)
      else if p.conv == 112 then                                                            // p
        NumberShown(text, p, given, false, [48, 120], given[|given| - 1].bits, 16, LOWER)
      else if p.conv == 99 then                                                             // c
        Padded(text, [LowBits(given[|given| - 1].bits, 256) as byte], width, left)
      else if p.conv == 115 then                                                            // s
        var s: seq<byte> := if given[|given| - 1].Text? then given[|given| - 1].s else [40, 110, 117, 108, 108, 41];
        Padded(text, if 0 <= prec < |s| then s[..prec] else s, width, left)
      else if p.conv in FLOATS then
        var fl := Flags(left, 43 in p.flags, 32 in p.flags, 35 in p.flags, 48 in p.flags);
        text == fp(given[|given| - 1].bits, p.conv, fl, width, prec, 76 in p.length)
      else if p.conv == 110 then text == []                                                 // n
      else if p.conv == 37 then text == [37]
      else text == [37, p.conv]
  }

  // A piece and its arguments have one field.
  lemma OneField(a: seq<byte>, b: seq<byte>, p: Piece, given: seq<Arg>, fp: FloatText)
    requires WellFormed(p) && Supplied(p, given) && Shows(a, p, given, fp) && Shows(b, p, given, fp)
    ensures a == b
  {
    hide NumberShown, Padded, WidthOf, PrecOf, ToTheLeft, IsLong, WellFormed, LowSigned;
    if p.Conversion? && p.conv in {100, 105} {
      var v := LowSigned(given[|given| - 1].bits, if IsLong(p) then TWO_64 else TWO_32);
      OneNumber(a, b, p, given, v < 0, [], if v < 0 then -v else v, 10, false);
    } else if p.Conversion? && p.conv in {117, 111, 120, 88} {
      var v := LowBits(given[|given| - 1].bits, if IsLong(p) then TWO_64 else TWO_32);
      var prefix: seq<byte> :=
        if 35 !in p.flags || v == 0 || p.conv == 117 then [] else if p.conv == 111 then [48] else [48, p.conv];
      OneNumber(a, b, p, given, false, prefix, v, if p.conv == 117 then 10 else if p.conv == 111 then 8 else 16, p.conv == 88);
    } else if p.Conversion? && p.conv == 112 {
      OneNumber(a, b, p, given, false, [48, 120], given[|given| - 1].bits, 16, false);
    } else if p.Conversion? && p.conv == 99 {
      OnePadded(a, b, [LowBits(given[|given| - 1].bits, 256) as byte], WidthOf(p, given), ToTheLeft(p, given));
    } else if p.Conversion? && p.conv == 115 {
      var s: seq<byte> := if given[|given| - 1].Text? then given[|given| - 1].s else NULL_TEXT;
      var prec := PrecOf(p, given);
      OnePadded(a, b, if 0 <= prec < |s| then s[..prec] else s, WidthOf(p, given), ToTheLeft(p, given));
    }
  }

  lemma OnePadded(a: seq<byte>, b: seq<byte>, body: seq<byte>, width: int, left: bool)
    requires Padded(a, body, width, left) && Padded(b, body, width, left)
    ensures a == b
  {}

  lemma OneNumber(a: seq<byte>, b: seq<byte>, p: Piece, given: seq<Arg>, neg: bool, prefix: seq<byte>, v: nat, base: nat, upper: bool)
    requires p.Conversion? && Supplied(p, given) && 2 <= base <= 16
    requires NumberShown(a, p, given, neg, prefix, v, base, if upper then UPPER else LOWER)
    requires NumberShown(b, p, given, neg, prefix, v, base, if upper then UPPER else LOWER)
    ensures a == b
  {
    hide Numeral, Padded, WidthOf, PrecOf, ToTheLeft, Supplied;
    var sign: seq<byte> := if neg then [45] else if 43 in p.flags then [43] else if 32 in p.flags then [32] else [];
    var width, prec, left, digits := WidthOf(p, given), PrecOf(p, given), ToTheLeft(p, given), if upper then UPPER else LOWER;
    var d :| Numeral(d, v, base, digits)
             && Padded(a, sign + prefix + Repeat(48, Zeros(|d|, |sign| + |prefix|, 48 in p.flags, left, width, prec)) + d, width, left);
    var e :| Numeral(e, v, base, digits)
             && Padded(b, sign + prefix + Repeat(48, Zeros(|e|, |sign| + |prefix|, 48 in p.flags, left, width, prec)) + e, width, left);
    OneNumeral(d, e, v, base, upper);
    OnePadded(a, b, sign + prefix + Repeat(48, Zeros(|d|, |sign| + |prefix|, 48 in p.flags, left, width, prec)) + d, width, left);
  }

  lemma {:induction false} OneNumeral(d: seq<byte>, e: seq<byte>, v: nat, base: nat, upper: bool)
    requires 2 <= base <= 16
    requires Numeral(d, v, base, if upper then UPPER else LOWER) && Numeral(e, v, base, if upper then UPPER else LOWER)
    ensures d == e
    decreases |d|
  {
    hide Val, Numeral, DigitVal;
    LastDigit(d, v, base, upper);
    LastDigit(e, v, base, upper);
    var x, y := d[..|d| - 1], e[..|e| - 1];
    SameLast(Val(x, base), DigitVal(d[|d| - 1]), Val(y, base), DigitVal(e[|e| - 1]), base);
    if x != [] && y != [] {
      OneNumeral(x, y, Val(x, base), base, upper);
    }
    assert d == x + [d[|d| - 1]] && e == y + [e[|e| - 1]];
  }

  lemma LastDigit(d: seq<byte>, v: nat, base: nat, upper: bool)
    requires 2 <= base <= 16 && Numeral(d, v, base, if upper then UPPER else LOWER)
    ensures d != []
    ensures var x, c := d[..|d| - 1], d[|d| - 1];
            && v == Val(x, base) * base + DigitVal(c) && DigitVal(c) < base && (if upper then UPPER else LOWER)[DigitVal(c)] == c
            && (x == [] <==> Val(x, base) == 0) && (x != [] ==> Numeral(x, Val(x, base), base, if upper then UPPER else LOWER))
  {
    hide Val, DigitVal;
    var x, c := d[..|d| - 1], d[|d| - 1];
    assert d == x + [c];
    ValAppend(x, c, base);
    DigitValues(c, base, upper);
    NoDigits(base);
    if x != [] {
      DigitPositive(x[0], base, upper);
      NumeralPositive(x, base);
    }
  }

  lemma DigitPositive(c: byte, base: nat, upper: bool)
    requires base <= 16 && c in (if upper then UPPER else LOWER)[..base] && c != 48
    ensures DigitVal(c) > 0
  {}

  lemma DigitValues(c: byte, base: nat, upper: bool)
    requires base <= 16 && c in (if upper then UPPER else LOWER)[..base]
    ensures DigitVal(c) < base && (if upper then UPPER else LOWER)[DigitVal(c)] == c
  {}

  lemma SameLast(q: nat, r: nat, q': nat, r': nat, base: nat)
    requires q * base + r == q' * base + r' && r < base && r' < base
    ensures q == q' && r == r'
  {
    if q < q' {
      NotLess(q, r, q', r', base);
    } else if q > q' {
      NotLess(q', r', q, r, base);
    }
  }

  lemma NotLess(q: nat, r: nat, q': nat, r': nat, base: nat)
    requires q < q' && r < base
    ensures q * base + r < q' * base + r'
  {
    var k := q' - q - 1;
    assert q' * base == q * base + base + k * base;
  }

  lemma {:induction false} NumeralPositive(d: seq<byte>, base: nat)
    requires d != [] && DigitVal(d[0]) > 0 && base > 0
    ensures Val(d, base) > 0
  {
    hide DigitVal;
    if |d| > 1 {
      NumeralPositive(d[..|d| - 1], base);
    } else {
      ValOne(d[0], base);
      assert d == [d[0]];
    }
  }

  function Concat(v: seq<seq<byte>>): seq<byte> {
    if v == [] then [] else v[0] + Concat(v[1..])
  }

  ghost predicate AllSupplied(ps: seq<Piece>, args: seq<Arg>) {
    First(ps, |ps|) <= |args| && forall i :: 0 <= i < |ps| ==> WellFormed(ps[i]) && Supplied(ps[i], Given(ps, i, args))
  }

  // The pieces' fields one after another, each made from the next arguments not yet used.
  lemma FormatPrints(ps: seq<Piece>, args: seq<Arg>, fp: FloatText) returns (fields: seq<seq<byte>>)
    requires AllSupplied(ps, args)
    ensures |fields| == |ps| && Rendered(FormatText(ps), 0, args, 0, fp) == Concat(fields)
    ensures forall i :: 0 <= i < |ps| ==> Shows(fields[i], ps[i], Given(ps, i, args), fp)
  {
    hide AllSupplied, Shows, Rendered, FormatText;
    assert FormatText(ps)[0..] == FormatText(ps) && ps[0..] == ps;
    fields := FieldsFrom(FormatText(ps), 0, ps, 0, args, fp);
  }

  // The same from the i-th piece on, which begins at fmt[f].
  lemma {:induction false} FieldsFrom(fmt: seq<byte>, f: nat, ps: seq<Piece>, i: nat, args: seq<Arg>, fp: FloatText)
      returns (fields: seq<seq<byte>>)
    requires AllSupplied(ps, args) && i <= |ps| && f <= |fmt| && fmt[f..] == FormatText(ps[i..])
    ensures |fields| == |ps| - i && Rendered(fmt, f, args, First(ps, i), fp) == Concat(fields)
    ensures forall j :: i <= j < |ps| ==> Shows(fields[j - i], ps[j], Given(ps, j, args), fp)
    decreases |ps| - i
  {
    hide WellFormed, Supplied, Shows, Rendered, Taken, PieceText, FormatText, AllSupplied, First, Given;
    if i == |ps| {
      Nothing(fmt, f, args, First(ps, i), fp, ps[i..]);
      return [];
    }
    var p, given := ps[i], Given(ps, i, args);
    GivenIs(ps, i, args);
    FormatSplit(ps, i);
    HeadAndRest(fmt, f, PieceText(p), FormatText(ps[i + 1..]));
    var text := PiecePrints(fmt, f, p, args, First(ps, i), fp);
    var rest := FieldsFrom(fmt, f + |PieceText(p)|, ps, i + 1, args, fp);
    fields := [text] + rest;
    ConcatFirst(text, rest, Rendered(fmt, f + |PieceText(p)|, args, First(ps, i + 1), fp));
    forall j | i <= j < |ps|
      ensures Supplied(ps[j], Given(ps, j, args))
    {
      GivenIs(ps, j, args);
    }
    forall j | i <= j < |ps|
      ensures Shows(fields[j - i], ps[j], Given(ps, j, args), fp)
    {
      assert j > i ==> fields[j - i] == rest[j - (i + 1)];
    }
  }

  lemma ConcatFirst(text: seq<byte>, rest: seq<seq<byte>>, out: seq<byte>)
    requires out == Concat(rest)
    ensures Concat([text] + rest) == text + out
  {
    assert ([text] + rest)[1..] == rest;
  }

  lemma HeadAndRest(fmt: seq<byte>, f: nat, t: seq<byte>, rest: seq<byte>)
    requires f <= |fmt| && fmt[f..] == t + rest
    ensures Has(fmt, f, t) && f + |t| <= |fmt| && fmt[f + |t|..] == rest
  {
    assert fmt[f..f + |t|] == fmt[f..][..|t|];
    assert fmt[f + |t|..] == fmt[f..][|t|..];
  }

  lemma GivenIs(ps: seq<Piece>, i: nat, args: seq<Arg>)
    requires AllSupplied(ps, args) && i < |ps|
    ensures var k := First(ps, i);
            && WellFormed(ps[i]) && k + Taken(ps[i]) == First(ps, i + 1) <= |args|
            && Given(ps, i, args) == args[k..k + Taken(ps[i])] && Supplied(ps[i], Given(ps, i, args))
  {
    hide *;
    FirstsRise(ps, i + 1);
    PieceSupplied(ps, i, args);
    GivenNext(ps, i, args);
  }

  lemma PieceSupplied(ps: seq<Piece>, i: nat, args: seq<Arg>)
    requires AllSupplied(ps, args) && i < |ps|
    ensures First(ps, |ps|) <= |args| && WellFormed(ps[i]) && Supplied(ps[i], Given(ps, i, args))
  {
    hide WellFormed, Supplied, Taken, First, Given;
  }

  lemma GivenNext(ps: seq<Piece>, i: nat, args: seq<Arg>)
    requires i < |ps| && First(ps, i + 1) <= |args|
    ensures var k := First(ps, i); k + Taken(ps[i]) == First(ps, i + 1) && Given(ps, i, args) == args[k..k + Taken(ps[i])]
  {
    hide Taken;
  }

  lemma Nothing(fmt: seq<byte>, f: nat, args: seq<Arg>, k: nat, fp: FloatText, ps: seq<Piece>)
    requires ps == [] && f <= |fmt| && fmt[f..] == FormatText(ps)
    ensures Rendered(fmt, f, args, k, fp) == []
  {
    assert |fmt[f..]| == 0;
  }

  lemma {:induction false} FirstsRise(ps: seq<Piece>, i: nat)
    requires i <= |ps|
    ensures First(ps, i) <= First(ps, |ps|)
    decreases |ps| - i
  {
    if i < |ps| {
      FirstsRise(ps, i + 1);
    }
  }

  lemma FormatSplit(ps: seq<Piece>, i: nat)
    requires i < |ps|
    ensures FormatText(ps[i..]) == PieceText(ps[i]) + FormatText(ps[i + 1..])
  {
    assert ps[i..][1..] == ps[i + 1..];
  }

  lemma {:induction false} FlagsRead(fmt: seq<byte>, f: nat, flags: seq<byte>, fl: Flags)
    requires Has(fmt, f, flags) && (forall i :: 0 <= i < |flags| ==> flags[i] in FLAG_CHARS) && At(fmt, f + |flags|) !in FLAG_CHARS
    ensures ReadFlags(fmt, f, fl)
            == (Flags(fl.minus || 45 in flags, fl.plus || 43 in flags, fl.space || 32 in flags, fl.hash || 35 in flags, fl.zero || 48 in flags), f + |flags|)
    decreases |flags|
  {
    if flags != [] {
      assert [flags[0]] + flags[1..] == flags;
      HasBoth(fmt, f, [flags[0]], flags[1..]);
      assert fmt[f] == fmt[f..f + 1][0] == flags[0];
      var c := flags[0];
      FlagsRead(fmt, f + 1, flags[1..],
                Flags(fl.minus || c == 45, fl.plus || c == 43, fl.space || c == 32, fl.hash || c == 35, fl.zero || c == 48));
    }
  }

  lemma {:induction false} NatRead(fmt: seq<byte>, f: nat, ds: seq<byte>, i: nat)
    requires Has(fmt, f, ds) && IsDecimal(ds) && !(48 <= At(fmt, f + |ds|) <= 57) && i <= |ds|
    ensures ReadNat(fmt, f + i, Val(ds[..i], 10)) == (Val(ds, 10), f + |ds|)
    decreases |ds| - i
  {
    hide Val;
    if i < |ds| {
      assert fmt[f + i] == fmt[f..f + |ds|][i] == ds[i];
      assert ds[..i + 1] == ds[..i] + [ds[i]];
      ValAppend(ds[..i], ds[i], 10);
      NatRead(fmt, f, ds, i + 1);
    } else {
      assert ds[..i] == ds;
    }
  }

  lemma NumberRead(fmt: seq<byte>, f: nat, ds: seq<byte>)
    requires Has(fmt, f, ds) && IsDecimal(ds) && !(48 <= At(fmt, f + |ds|) <= 57)
    ensures ReadNat(fmt, f, 0) == (Val(ds, 10), f + |ds|)
  {
    NoDigits(10);
    assert ds[..0] == [];
    NatRead(fmt, f, ds, 0);
  }

  lemma {:induction false} LengthRead(fmt: seq<byte>, f: nat, length: seq<byte>, lng: nat, ldbl: bool) returns (l: nat)
    requires Has(fmt, f, length) && (forall i :: 0 <= i < |length| ==> length[i] in LENGTH_CHARS) && At(fmt, f + |length|) !in LENGTH_CHARS
    ensures ReadLength(fmt, f, lng, ldbl) == (l, ldbl || 76 in length, f + |length|)
    ensures l > 0 <==> lng > 0 || exists i :: 0 <= i < |length| && length[i] in {108, 122, 116, 106}
    decreases |length|
  {
    l := lng;
    if length != [] {
      var c := length[0];
      assert [c] + length[1..] == length;
      HasBoth(fmt, f, [c], length[1..]);
      assert fmt[f] == fmt[f..f + 1][0] == c;
      l := LengthRead(fmt, f + 1, length[1..], if c == 108 then lng + 1 else if c in {122, 116, 106} then 1 else lng, ldbl || c == 76);
      assert forall i :: 1 <= i < |length| ==> length[i] == length[1..][i - 1];
    }
  }

  // A conversion laid out in the format.
  lemma Parts(fmt: seq<byte>, f: nat, p: Piece)
    requires p.Conversion? && Has(fmt, f, PieceText(p))
    ensures var f1 := f + 1 + |p.flags|; var f2 := f1 + |AmountText(p.width)|; var f3 := f2 + |PrecText(p.prec)|;
            && At(fmt, f) == 37 && Has(fmt, f + 1, p.flags) && Has(fmt, f1, AmountText(p.width)) && Has(fmt, f2, PrecText(p.prec))
            && Has(fmt, f3, p.length) && Has(fmt, f3 + |p.length|, [p.conv])
  {
    hide AmountText, PrecText, Has;
    var w, r, l, c := AmountText(p.width), PrecText(p.prec), p.length, [p.conv];
    HasBoth(fmt, f, [37] + p.flags + w + r + l, c);
    HasBoth(fmt, f, [37] + p.flags + w + r, l);
    HasBoth(fmt, f, [37] + p.flags + w, r);
    HasBoth(fmt, f, [37] + p.flags, w);
    HasBoth(fmt, f, [37], p.flags);
    FirstByte(fmt, f, [37]);
  }

  lemma FirstByte(fmt: seq<byte>, f: nat, t: seq<byte>)
    requires Has(fmt, f, t)
    ensures t != [] ==> At(fmt, f) == t[0]
  {
    if t != [] {
      assert fmt[f] == fmt[f..f + |t|][0];
    }
  }

  // The first byte behind the flags, behind the width and behind the precision.
  function AfterPrec(p: Piece): byte
    requires p.Conversion?
  {
    if p.length == [] then p.conv else p.length[0]
  }

  function AfterWidth(p: Piece): byte
    requires p.Conversion?
  {
    if p.prec.Absent? then AfterPrec(p) else 46
  }

  function AfterFlags(p: Piece): byte
    requires p.Conversion?
  {
    if AmountText(p.width) == [] then AfterWidth(p) else AmountText(p.width)[0]
  }

  // What follows each part of a conversion does not belong to it.
  lemma EndsApart(p: Piece)
    requires p.Conversion? && WellFormed(p)
    ensures AfterFlags(p) !in FLAG_CHARS && (AfterFlags(p) == 42 <==> p.width.Star?)
    ensures !(48 <= AfterWidth(p) <= 57) && (AfterWidth(p) == 46 <==> !p.prec.Absent?)
    ensures !(48 <= AfterPrec(p) <= 57) && AfterPrec(p) != 42
    ensures p.prec.Written? && p.prec.ds != [] ==> p.prec.ds[0] != 42
    ensures p.conv !in LENGTH_CHARS
    ensures p.width.Written? ==> IsDecimal(p.width.ds) && p.width.ds != []
    ensures p.prec.Written? ==> IsDecimal(p.prec.ds)
  {}

  lemma PrecFirst(a: Amount)
    ensures if a.Absent? then PrecText(a) == [] else PrecText(a) != [] && PrecText(a)[0] == 46
  {}

  lemma PartsEnd(fmt: seq<byte>, f: nat, p: Piece)
    requires p.Conversion? && Has(fmt, f, PieceText(p))
    ensures var f1 := f + 1 + |p.flags|; var f2 := f1 + |AmountText(p.width)|; var f3 := f2 + |PrecText(p.prec)|;
            && At(fmt, f1) == AfterFlags(p) && At(fmt, f2) == AfterWidth(p) && At(fmt, f3) == AfterPrec(p)
            && At(fmt, f3 + |p.length|) == p.conv
  {
    hide AmountText, PrecText, PieceText, Has;
    Parts(fmt, f, p);
    PrecFirst(p.prec);
    var f1 := f + 1 + |p.flags|;
    var f2 := f1 + |AmountText(p.width)|;
    var f3 := f2 + |PrecText(p.prec)|;
    FirstByte(fmt, f1, AmountText(p.width));
    FirstByte(fmt, f2, PrecText(p.prec));
    FirstByte(fmt, f3, p.length);
    FirstByte(fmt, f3 + |p.length|, [p.conv]);
  }

  // The width, and what it makes of the flags.
  lemma WidthRead(fmt: seq<byte>, f: nat, p: Piece, args: seq<Arg>, k: nat, fl: Flags)
    requires p.Conversion? && WellFormed(p) && Has(fmt, f, AmountText(p.width)) && At(fmt, f) == AfterFlags(p) && (fl.minus <==> 45 in p.flags)
    requires At(fmt, f + |AmountText(p.width)|) == AfterWidth(p)
    requires k + Taken(p) <= |args| && Supplied(p, args[k..k + Taken(p)])
    ensures var given := args[k..k + Taken(p)];
            ReadWidth(fmt, f, fl, args, k)
            == (fl.(minus := ToTheLeft(p, given)), WidthOf(p, given), f + |AmountText(p.width)|,
                k + if p.width.Star? then 1 else 0)
  {
    hide Val, WellFormed, Has, AfterFlags, AfterWidth, IntAt, LowSigned, ReadNat, Taken, Supplied;
    EndsApart(p);
    if p.width.Absent? {
      NoDigits(10);
      NumberRead(fmt, f, []);
    } else if p.width.Written? {
      FirstByte(fmt, f, p.width.ds);
      NumberRead(fmt, f, p.width.ds);
    } else {
      StarGiven(p, args, k);
      SignedLow(args, k);
    }
  }

  lemma StarGiven(p: Piece, args: seq<Arg>, k: nat)
    requires p.Conversion? && k + Taken(p) <= |args| && Supplied(p, args[k..k + Taken(p)])
    ensures var n := if p.width.Star? then 1 else 0;
            && n <= Taken(p) && (p.width.Star? ==> args[k].Word? && args[k..k + Taken(p)][0] == args[k])
            && (p.prec.Star? ==> n < Taken(p) && args[k + n].Word? && args[k..k + Taken(p)][n] == args[k + n])
  {}

  lemma SignedLow(args: seq<Arg>, k: nat)
    requires k < |args| && args[k].Word?
    ensures IntAt(args, k) == LowSigned(args[k].bits, TWO_32)
  {}

  lemma PrecRead(fmt: seq<byte>, f: nat, p: Piece, args: seq<Arg>, k: nat)
    requires p.Conversion? && WellFormed(p) && Has(fmt, f, PrecText(p.prec)) && At(fmt, f) == AfterWidth(p)
    requires At(fmt, f + |PrecText(p.prec)|) == AfterPrec(p)
    requires k + Taken(p) <= |args| && Supplied(p, args[k..k + Taken(p)])
    ensures var given := args[k..k + Taken(p)];
            ReadPrec(fmt, f, args, k + if p.width.Star? then 1 else 0)
            == (PrecOf(p, given), f + |PrecText(p.prec)|, k + (if p.width.Star? then 1 else 0) + if p.prec.Star? then 1 else 0)
  {
    hide Val, WellFormed, Has, AfterPrec, AfterWidth, IntAt, LowSigned, ReadNat, Taken, Supplied;
    EndsApart(p);
    if !p.prec.Absent? {
      HasBoth(fmt, f, [46], AmountText(p.prec));
      FirstByte(fmt, f + 1, AmountText(p.prec));
    }
    var n := if p.width.Star? then 1 else 0;
    if p.prec.Written? {
      NumberRead(fmt, f + 1, p.prec.ds);
    } else if p.prec.Star? {
      StarGiven(p, args, k);
      SignedLow(args, k + n);
    }
  }

  // The flags a conversion is read with.
  function FlagsOf(p: Piece, given: seq<Arg>): Flags
    requires p.Conversion? && Supplied(p, given)
  {
    Flags(ToTheLeft(p, given), 43 in p.flags, 32 in p.flags, 35 in p.flags, 48 in p.flags)
  }

  // Reading a conversion gives its parts.
  lemma SpecRead(fmt: seq<byte>, f: nat, p: Piece, args: seq<Arg>, k: nat) returns (l: nat)
    requires p.Conversion? && WellFormed(p) && Has(fmt, f, PieceText(p)) && k + Taken(p) <= |args| && Supplied(p, args[k..k + Taken(p)])
    ensures var given := args[k..k + Taken(p)];
            var stars := (if p.width.Star? then 1 else 0) + (if p.prec.Star? then 1 else 0);
            ReadSpec(fmt, f + 1, args, k)
            == Spec(FlagsOf(p, given), WidthOf(p, given), PrecOf(p, given), l, 76 in p.length, p.conv, f + |PieceText(p)| - 1, k + stars)
    ensures l > 0 <==> IsLong(p)
  {
    hide Val, ToTheLeft, Has, PieceText, WidthOf, PrecOf, ReadWidth, ReadPrec, ReadFlags, ReadLength, AmountText, PrecText, Supplied, Taken;
    EndsApart(p);
    Parts(fmt, f, p);
    PartsEnd(fmt, f, p);
    var given := args[k..k + Taken(p)];
    var f1 := f + 1 + |p.flags|;
    var f2 := f1 + |AmountText(p.width)|;
    var f3 := f2 + |PrecText(p.prec)|;
    FlagsRead(fmt, f + 1, p.flags, NO_FLAGS);
    WidthRead(fmt, f1, p, args, k, ReadFlags(fmt, f + 1, NO_FLAGS).0);
    PrecRead(fmt, f2, p, args, k);
    PieceLength(p);
    l := LengthRead(fmt, f3, p.length, 0, false);
  }

  lemma PieceLength(p: Piece)
    requires p.Conversion?
    ensures |PieceText(p)| == 2 + |p.flags| + |AmountText(p.width)| + |PrecText(p.prec)| + |p.length|
  {}

  lemma {:induction false} DigitsSpelled(v: nat, base: nat, upper: bool)
    requires 2 <= base <= 16
    ensures Numeral(Digits(v, base, upper), v, base, if upper then UPPER else LOWER)
    decreases v
  {
    hide Digits, Val;
    var digits := if upper then UPPER else LOWER;
    DigitsDenote(v, base, upper);
    DigitsUnfold(v, base, upper);
    QuotRem(v, base);
    Spelled(v % base, base, upper);
    if v >= base {
      DigitsSpelled(v / base, base, upper);
    }
    NotZeroFirst(Digits(v, base, upper), v, base, upper);
  }

  lemma Spelled(d: nat, base: nat, upper: bool)
    requires d < base <= 16
    ensures Dig(d, upper) == (if upper then UPPER else LOWER)[d] == (if upper then UPPER else LOWER)[..base][d]
  {}

  lemma NotZeroFirst(d: seq<byte>, v: nat, base: nat, upper: bool)
    requires 2 <= base <= 16 && d == Digits(v, base, upper) && (v > 0 ==> DigitVal(d[0]) > 0)
    ensures |d| > 1 ==> d[0] != 48
  {}

  // A number in its field, as the formatter lays it out.
  lemma NumberFieldShows(p: Piece, given: seq<Arg>, neg: bool, prefix: seq<byte>, v: nat, base: nat, upper: bool)
    requires p.Conversion? && Supplied(p, given) && 2 <= base <= 16
    ensures NumberShown(NumberField(Digits(v, base, upper), neg, prefix, FlagsOf(p, given), WidthOf(p, given), PrecOf(p, given)),
                        p, given, neg, prefix, v, base, if upper then UPPER else LOWER)
  {
    hide Digits, Val, Numeral, WidthOf, PrecOf, ToTheLeft, Supplied;
    DigitsSpelled(v, base, upper);
  }

  // The field of a conversion read as its parts say, its own argument the last one given.
  lemma ConversionShows(p: Piece, given: seq<Arg>, args: seq<Arg>, l: nat, at: nat, k: nat, fp: FloatText)
    requires p.Conversion? && WellFormed(p) && Supplied(p, given) && (l > 0 <==> IsLong(p))
    requires p.conv in {100, 105, 117, 111, 120, 88, 112, 99, 115} + FLOATS ==> given != [] && k < |args| && args[k] == given[|given| - 1]
    ensures Shows(Printed(Spec(FlagsOf(p, given), WidthOf(p, given), PrecOf(p, given), l, 76 in p.length, p.conv, at, k), args, fp), p, given, fp)
  {
    hide NumberField, NumberShown, Digits, WidthOf, PrecOf, ToTheLeft, IsLong, Justified, Padded, IntAt;
    if p.conv in {100, 105, 117, 111, 120, 88, 112} {
      NumberConversion(p, given, args, l, at, k, fp);
    } else if p.conv == 99 {
      JustifiedPads([LowBits(args[k].bits, 256) as byte], FlagsOf(p, given), WidthOf(p, given));
    } else if p.conv == 115 {
      var s: seq<byte> := if args[k].Text? then args[k].s else NULL_TEXT;
      var prec := PrecOf(p, given);
      JustifiedPads(if 0 <= prec < |s| then s[..prec] else s, FlagsOf(p, given), WidthOf(p, given));
    }
  }

  lemma NumberConversion(p: Piece, given: seq<Arg>, args: seq<Arg>, l: nat, at: nat, k: nat, fp: FloatText)
    requires p.Conversion? && WellFormed(p) && Supplied(p, given) && (l > 0 <==> IsLong(p))
    requires p.conv in {100, 105, 117, 111, 120, 88, 112} && given != [] && k < |args| && args[k] == given[|given| - 1]
    ensures Shows(Printed(Spec(FlagsOf(p, given), WidthOf(p, given), PrecOf(p, given), l, 76 in p.length, p.conv, at, k), args, fp), p, given, fp)
  {
    hide NumberField, NumberShown, Digits, WidthOf, PrecOf, ToTheLeft, IsLong, Justified, Padded, IntAt, WellFormed, LowSigned;
    if p.conv in {100, 105} {
      SignedRead(args, k, l);
      var v := SignedAt(args, k, l);
      NumberFieldShows(p, given, v < 0, [], if v < 0 then -v else v, 10, false);
    } else if p.conv == 112 {
      NumberFieldShows(p, given, false, [48, 120], args[k].bits, 16, false);
    } else {
      UnsignedRead(args, k, l);
      var v := UnsignedAt(args, k, l);
      var prefix: seq<byte> :=
        if 35 !in p.flags || v == 0 || p.conv == 117 then [] else if p.conv == 111 then [48] else [48, p.conv];
      NumberFieldShows(p, given, false, prefix, v, Base(p.conv), p.conv == 88);
    }
  }

  lemma JustifiedPads(body: seq<byte>, fl: Flags, width: int)
    ensures Padded(Justified(body, fl, width), body, width, fl.minus)
  {}

  lemma SignedRead(args: seq<Arg>, k: nat, l: nat)
    requires k < |args| && args[k].Word?
    ensures SignedAt(args, k, l) == LowSigned(args[k].bits, if l > 0 then TWO_64 else TWO_32)
  {}

  lemma UnsignedRead(args: seq<Arg>, k: nat, l: nat)
    requires k < |args| && args[k].Word?
    ensures UnsignedAt(args, k, l) == LowBits(args[k].bits, if l > 0 then TWO_64 else TWO_32)
  {}

  // One piece at fmt[f], args[k] being the next argument.
  lemma PiecePrints(fmt: seq<byte>, f: nat, p: Piece, args: seq<Arg>, k: nat, fp: FloatText) returns (text: seq<byte>)
    requires WellFormed(p) && Has(fmt, f, PieceText(p)) && k + Taken(p) <= |args| && Supplied(p, args[k..k + Taken(p)])
    ensures Shows(text, p, args[k..k + Taken(p)], fp)
    ensures Rendered(fmt, f, args, k, fp) == text + Rendered(fmt, f + |PieceText(p)|, args, k + Taken(p), fp)
  {
    hide Rendered, Shows, Printed, ReadSpec, WidthOf, PrecOf, ToTheLeft, Taken, Supplied, WellFormed, Has, PieceText, TakesArg, IsLong;
    var given := args[k..k + Taken(p)];
    if p.Plain? {
      text := [p.c];
      PlainPiece(fmt, f, p);
      RenderedStep(fmt, f, args, k, fp);
      PlainShows(p, given, fp);
    } else {
      Parts(fmt, f, p);
      RenderedStep(fmt, f, args, k, fp);
      OwnGiven(p, args, k);
      var l := SpecRead(fmt, f, p, args, k);
      var sp := ReadSpec(fmt, f + 1, args, k);
      text := Printed(sp, args, fp);
      ConversionShows(p, given, args, l, sp.at, sp.arg, fp);
    }
  }

  lemma PlainPiece(fmt: seq<byte>, f: nat, p: Piece)
    requires p.Plain? && WellFormed(p) && Has(fmt, f, PieceText(p))
    ensures At(fmt, f) == p.c && p.c != 0 && p.c != 37 && f < |fmt| && |PieceText(p)| == 1 && Taken(p) == 0
  {
    FirstByte(fmt, f, [p.c]);
  }

  lemma PlainShows(p: Piece, given: seq<Arg>, fp: FloatText)
    requires p.Plain? && Supplied(p, given)
    ensures Shows([p.c], p, given, fp)
  {}

  // A conversion takes its own argument behind those of its stars.
  lemma OwnGiven(p: Piece, args: seq<Arg>, k: nat)
    requires p.Conversion? && WellFormed(p) && k + Taken(p) <= |args| && Supplied(p, args[k..k + Taken(p)])
    ensures var own := k + (if p.width.Star? then 1 else 0) + if p.prec.Star? then 1 else 0;
            && k + Taken(p) == (if TakesArg(p.conv) then own + 1 else own) && p.conv != 0
            && (TakesArg(p.conv) ==> own < |args| && args[own] == args[k..k + Taken(p)][Taken(p) - 1])
            && (p.conv in {100, 105, 117, 111, 120, 88, 112, 99, 115} + FLOATS ==> TakesArg(p.conv))
  {}
}
