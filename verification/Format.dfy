// What a format string and its arguments denote, before any sink is chosen.
module Format {
  import opened Bytes
  import opened Numerals
  import opened Strto

  type u64 = x: int | 0 <= x < TWO_64
  type CString = s: seq<byte> | 0 !in s

  // A variable argument: a machine word, or a pointer to a string.
  datatype Arg = Word(bits: u64) | Text(s: CString) | Null

  datatype Flags = Flags(minus: bool, plus: bool, space: bool, hash: bool, zero: bool)

  const NO_FLAGS := Flags(false, false, false, false, false)

  // How the floating-point conversions print a double's bits.
  type FloatText = (u64, byte, Flags, int, int, bool) -> seq<byte>

  function Max(a: int, b: int): int {
    if a < b then b else a
  }

  function Sign(neg: bool, fl: Flags): seq<byte> {
    if neg then [45] else if fl.plus then [43] else if fl.space then [32] else []
  }

  // Zeros between the prefix and the digits.
  function ZeroFill(dlen: nat, plen: nat, slen: nat, fl: Flags, width: int, prec: int): nat {
    var zeros := if prec >= 0 && dlen < prec then prec - dlen else 0;
    var room := width - dlen - plen - slen;
    if fl.zero && prec < 0 && !fl.minus && room > zeros then room else zeros
  }

  function Justified(body: seq<byte>, fl: Flags, width: int): seq<byte> {
    var blank := Repeat(32, Max(width - |body|, 0));
    if fl.minus then body + blank else blank + body
  }

  // A number in its field.
  function NumberField(digits: seq<byte>, neg: bool, prefix: seq<byte>, fl: Flags, width: int, prec: int): seq<byte> {
    var sign := Sign(neg, fl);
    var zeros := ZeroFill(|digits|, |prefix|, |sign|, fl, width, prec);
    Justified(sign + prefix + Repeat(48, zeros) + digits, fl, width)
  }

  const NULL_TEXT: seq<byte> := [40, 110, 117, 108, 108, 41]  // "(null)"

  function TextField(s: seq<byte>, fl: Flags, width: int, prec: int): seq<byte> {
    Justified(if 0 <= prec < |s| then s[..prec] else s, fl, width)
  }

  // One argument read as the type the conversion names. What is not there, or of another
  // kind, the C standard leaves undefined; here it reads as zero.
  function BitsAt(args: seq<Arg>, k: nat): u64 {
    if k < |args| && args[k].Word? then args[k].bits else 0
  }

  function IntAt(args: seq<Arg>, k: nat): int {
    var low := BitsAt(args, k) % TWO_32;
    if low < TWO_32 / 2 then low else low - TWO_32
  }

  function SignedAt(args: seq<Arg>, k: nat, lng: nat): int {
    if lng == 0 then IntAt(args, k) else AsSigned(BitsAt(args, k))
  }

  function UnsignedAt(args: seq<Arg>, k: nat, lng: nat): u64 {
    if lng == 0 then BitsAt(args, k) % TWO_32 else BitsAt(args, k)
  }

  function TextAt(args: seq<Arg>, k: nat): seq<byte> {
    if k < |args| && args[k].Text? then args[k].s else NULL_TEXT
  }

  // A conversion specification: conv stands at fmt[at], the next argument is args[arg].
  datatype Spec = Spec(fl: Flags, width: int, prec: int, lng: nat, ldbl: bool, conv: byte, at: nat, arg: nat)

  function ReadFlags(fmt: seq<byte>, f: nat, fl: Flags): (Flags, nat)
    decreases |fmt| - f
  {
    match At(fmt, f)
    case 45 => ReadFlags(fmt, f + 1, fl.(minus := true))
    case 43 => ReadFlags(fmt, f + 1, fl.(plus := true))
    case 32 => ReadFlags(fmt, f + 1, fl.(space := true))
    case 35 => ReadFlags(fmt, f + 1, fl.(hash := true))
    case 48 => ReadFlags(fmt, f + 1, fl.(zero := true))
    case _ => (fl, f)
  }

  function ReadNat(fmt: seq<byte>, f: nat, n: nat): (nat, nat)
    decreases |fmt| - f
  {
    if 48 <= At(fmt, f) <= 57 then ReadNat(fmt, f + 1, n * 10 + At(fmt, f) as nat - 48) else (n, f)
  }

  function ReadLength(fmt: seq<byte>, f: nat, lng: nat, ldbl: bool): (nat, bool, nat)
    decreases |fmt| - f
  {
    match At(fmt, f)
    case 108 => ReadLength(fmt, f + 1, lng + 1, ldbl)            // l
    case 104 => ReadLength(fmt, f + 1, lng, ldbl)                // h
    case 122 => ReadLength(fmt, f + 1, 1, ldbl)                  // z
    case 116 => ReadLength(fmt, f + 1, 1, ldbl)                  // t
    case 106 => ReadLength(fmt, f + 1, 1, ldbl)                  // j
    case 76 => ReadLength(fmt, f + 1, lng, true)                 // L
    case _ => (lng, ldbl, f)
  }

  // `*` takes the width from the arguments, and a negative one means left adjustment.
  function ReadWidth(fmt: seq<byte>, f: nat, fl: Flags, args: seq<Arg>, k: nat): (Flags, int, nat, nat) {
    if At(fmt, f) == 42 then
      var w := IntAt(args, k);
      if w < 0 then (fl.(minus := true), -w, f + 1, k + 1) else (fl, w, f + 1, k + 1)
    else
      var (w, g) := ReadNat(fmt, f, 0);
      (fl, w, g, k)
  }

  function ReadPrec(fmt: seq<byte>, f: nat, args: seq<Arg>, k: nat): (int, nat, nat) {
    if At(fmt, f) != 46 then (-1, f, k)
    else if At(fmt, f + 1) == 42 then (Max(IntAt(args, k), -1), f + 2, k + 1)
    else
      var (p, g) := ReadNat(fmt, f + 1, 0);
      (p, g, k)
  }

  // The specification after a '%' at fmt[f - 1].
  function ReadSpec(fmt: seq<byte>, f: nat, args: seq<Arg>, k: nat): Spec {
    var (fl, f1) := ReadFlags(fmt, f, NO_FLAGS);
    var (fl', width, f2, k1) := ReadWidth(fmt, f1, fl, args, k);
    var (prec, f3, k2) := ReadPrec(fmt, f2, args, k1);
    var (lng, ldbl, f4) := ReadLength(fmt, f3, 0, false);
    Spec(fl', width, prec, lng, ldbl, At(fmt, f4), f4, k2)
  }

  function Base(conv: byte): nat {
    if conv == 111 then 8 else if conv == 117 then 10 else 16
  }

  function Prefix(conv: byte): seq<byte> {
    if conv == 120 then [48, 120] else if conv == 88 then [48, 88] else if conv == 111 then [48] else []
  }

  predicate TakesArg(conv: byte) {
    conv in {100, 105, 117, 111, 120, 88, 112, 99, 115, 102, 70, 101, 69, 103, 71, 97, 65, 110}
  }

  // %d and %i
  function SignedText(v: int, fl: Flags, width: int, prec: int): seq<byte> {
    NumberField(Digits(if v < 0 then -v else v, 10, false), v < 0, [], fl, width, prec)
  }

  // %u, %o, %x and %X: with '#', a nonzero value has the prefix of its base.
  function UnsignedText(v: nat, conv: byte, fl: Flags, width: int, prec: int): seq<byte> {
    NumberField(Digits(v, Base(conv), conv == 88), false, if fl.hash && v != 0 then Prefix(conv) else [], fl, width, prec)
  }

  // What one specification prints.
  function Printed(sp: Spec, args: seq<Arg>, fp: FloatText): seq<byte> {
    match sp.conv
    case 0 => []
    case 37 => [37]
    case 110 => []
    case 99 => Justified([(BitsAt(args, sp.arg) % 256) as byte], sp.fl, sp.width)
    case 115 => TextField(TextAt(args, sp.arg), sp.fl, sp.width, sp.prec)
    case 112 => NumberField(Digits(BitsAt(args, sp.arg), 16, false), false, [48, 120], sp.fl, sp.width, sp.prec)
    case c =>
      if c == 100 || c == 105 then SignedText(SignedAt(args, sp.arg, sp.lng), sp.fl, sp.width, sp.prec)
      else if c in {117, 111, 120, 88} then UnsignedText(UnsignedAt(args, sp.arg, sp.lng), c, sp.fl, sp.width, sp.prec)
      else if TakesArg(c) then fp(BitsAt(args, sp.arg), c, sp.fl, sp.width, sp.prec, sp.ldbl)
      else [37, c]
  }

  // All of the output from fmt[f] on, args[k] being the next argument.
  function Rendered(fmt: seq<byte>, f: nat, args: seq<Arg>, k: nat, fp: FloatText): seq<byte>
    decreases |fmt| - f
  {
    if At(fmt, f) == 0 then []
    else if fmt[f] != 37 then [fmt[f]] + Rendered(fmt, f + 1, args, k, fp)
    else
      var sp := ReadSpec(fmt, f + 1, args, k);
      SpecMoves(fmt, f + 1, args, k);
      Printed(sp, args, fp)
        + if sp.conv == 0 then [] else Rendered(fmt, sp.at + 1, args, if TakesArg(sp.conv) then sp.arg + 1 else sp.arg, fp)
  }

  lemma RenderedStep(fmt: seq<byte>, f: nat, args: seq<Arg>, k: nat, fp: FloatText)
    requires At(fmt, f) != 0
    ensures f < |fmt| && fmt[f] == At(fmt, f)
    ensures fmt[f] != 37 ==> Rendered(fmt, f, args, k, fp) == [fmt[f]] + Rendered(fmt, f + 1, args, k, fp)
    ensures fmt[f] == 37 ==>
              var sp := ReadSpec(fmt, f + 1, args, k);
              && sp.at > f
              && Rendered(fmt, f, args, k, fp) == Printed(sp, args, fp)
                   + Rendered(fmt, if sp.conv == 0 then sp.at else sp.at + 1, args, if TakesArg(sp.conv) then sp.arg + 1 else sp.arg, fp)
  {
    if fmt[f] == 37 {
      SpecMoves(fmt, f + 1, args, k);
      var sp := ReadSpec(fmt, f + 1, args, k);
      assert sp.conv == At(fmt, sp.at);
      hide ReadSpec, Printed;
    }
  }

  lemma RenderedEnd(fmt: seq<byte>, f: nat, args: seq<Arg>, k: nat, fp: FloatText)
    requires At(fmt, f) == 0
    ensures Rendered(fmt, f, args, k, fp) == []
  {}

  lemma SpecMoves(fmt: seq<byte>, f: nat, args: seq<Arg>, k: nat)
    ensures ReadSpec(fmt, f, args, k).at >= f
  {
    FlagsMove(fmt, f, NO_FLAGS);
    var (fl, f1) := ReadFlags(fmt, f, NO_FLAGS);
    NatMoves(fmt, f1, 0);
    var (fl', width, f2, k1) := ReadWidth(fmt, f1, fl, args, k);
    NatMoves(fmt, f2 + 1, 0);
    var (prec, f3, k2) := ReadPrec(fmt, f2, args, k1);
    LengthMoves(fmt, f3, 0, false);
  }

  lemma FlagsMove(fmt: seq<byte>, f: nat, fl: Flags)
    ensures ReadFlags(fmt, f, fl).1 >= f
    decreases |fmt| - f
  {}

  lemma NatMoves(fmt: seq<byte>, f: nat, n: nat)
    ensures ReadNat(fmt, f, n).1 >= f
    decreases |fmt| - f
  {}

  lemma LengthMoves(fmt: seq<byte>, f: nat, lng: nat, ldbl: bool)
    ensures ReadLength(fmt, f, lng, ldbl).2 >= f
    decreases |fmt| - f
  {}
}
