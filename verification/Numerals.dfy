// Digits in a base, as utoa writes them and strtoull reads them.
module Numerals {
  import opened Bytes

  const TWO_63: int := 0x8000_0000_0000_0000
  const TWO_64: int := 0x1_0000_0000_0000_0000
  const NBUF: nat := 32      // the formatter's digit buffer

  // A C string is its bytes up to the NUL.
  function At(s: seq<byte>, i: nat): byte {
    if i < |s| then s[i] else 0
  }

  function DigitVal(c: byte): nat {
    if 48 <= c <= 57 then c as nat - 48
    else if 97 <= c <= 122 then c as nat - 97 + 10
    else if 65 <= c <= 90 then c as nat - 65 + 10
    else 99
  }

  function Dig(d: nat, upper: bool): (c: byte)
    requires d < 16
    ensures DigitVal(c) == d && c != 0
  {
    if d < 10 then (48 + d) as byte else if upper then (55 + d) as byte else (87 + d) as byte
  }

  // The shortest numeral for v.
  function Digits(v: nat, base: nat, upper: bool): (s: seq<byte>)
    requires 2 <= base <= 16
    ensures s != []
  {
    if v < base then [Dig(v, upper)] else Digits(v / base, base, upper) + [Dig(v % base, upper)]
  }

  ghost predicate AllDigits(s: seq<byte>, base: nat) {
    forall i :: 0 <= i < |s| ==> DigitVal(s[i]) < base
  }

  // What the digits denote.
  function Val(s: seq<byte>, base: nat): nat {
    if s == [] then 0 else Val(s[..|s| - 1], base) * base + DigitVal(s[|s| - 1])
  }

  lemma ValAppend(s: seq<byte>, c: byte, base: nat)
    ensures Val(s + [c], base) == Val(s, base) * base + DigitVal(c)
  {
    assert (s + [c])[..|s|] == s;
  }

  lemma QuotRem(v: nat, base: nat)
    requires base > 1
    ensures v == v / base * base + v % base && v % base < base
    ensures v >= base ==> 0 < v / base < v
    ensures v < base ==> v / base == 0 && v % base == v
  {
    Quotient(v, v / base, v % base, base);
  }

  lemma Quotient(v: nat, q: int, r: int, base: nat)
    requires v == q * base + r && 0 <= r < base && base > 1
    ensures v >= base ==> 0 < q < v
    ensures v < base ==> q == 0 && r == v
  {
    if q > 0 {
      assert q * base == 2 * q + q * (base - 2);
      assert q * base == base + (q - 1) * base;
    }
  }

  lemma DigitsUnfold(v: nat, base: nat, upper: bool)
    requires 2 <= base <= 16
    ensures v < base ==> Digits(v, base, upper) == [Dig(v, upper)]
    ensures v >= base ==> Digits(v, base, upper) == Digits(v / base, base, upper) + [Dig(v % base, upper)]
  {}

  lemma ValOne(c: byte, base: nat)
    ensures Val([c], base) == DigitVal(c)
  {
    assert [c][..0] == [];
  }

  lemma AllDigitsAppend(s: seq<byte>, c: byte, base: nat)
    ensures AllDigits(s + [c], base) <==> AllDigits(s, base) && DigitVal(c) < base
  {
    if AllDigits(s + [c], base) {
      assert forall i :: 0 <= i < |s| ==> s[i] == (s + [c])[i];
      assert (s + [c])[|s|] == c;
    }
  }

  lemma {:induction false} DigitsDenote(v: nat, base: nat, upper: bool)
    requires 2 <= base <= 16
    ensures Val(Digits(v, base, upper), base) == v && AllDigits(Digits(v, base, upper), base)
    ensures v > 0 ==> DigitVal(Digits(v, base, upper)[0]) > 0
    decreases v
  {
    hide *;
    DigitsUnfold(v, base, upper);
    QuotRem(v, base);
    if v >= base {
      var s := Digits(v / base, base, upper);
      DigitsDenote(v / base, base, upper);
      ValAppend(s, Dig(v % base, upper), base);
      AllDigitsAppend(s, Dig(v % base, upper), base);
    } else {
      ValOne(Dig(v, upper), base);
      AllDigitsAppend([], Dig(v, upper), base);
      assert [] + [Dig(v, upper)] == [Dig(v, upper)];
      NoDigits(base);
    }
  }

  lemma NoDigits(base: nat)
    ensures AllDigits([], base) && Val([], base) == 0
  {}

  function Repeat(c: byte, n: nat): (s: seq<byte>)
    ensures |s| == n && forall i :: 0 <= i < n ==> s[i] == c
  {
    seq(n, i => c)
  }

  lemma {:induction false} LeadingZeros(n: nat, d: seq<byte>, base: nat)
    requires AllDigits(d, base) && base > 0
    ensures Val(Repeat(48, n) + d, base) == Val(d, base) && AllDigits(Repeat(48, n) + d, base)
  {
    if d != [] {
      LeadingZeros(n, d[..|d| - 1], base);
      assert (Repeat(48, n) + d)[..n + |d| - 1] == Repeat(48, n) + d[..|d| - 1];
    } else if n > 0 {
      LeadingZeros(n - 1, d, base);
      assert (Repeat(48, n) + d)[..n - 1] == Repeat(48, n - 1) + d;
    }
  }

  function EightTo(k: nat): nat {
    if k == 0 then 1 else 8 * EightTo(k - 1)
  }

  lemma {:induction false} DigitsShort(v: nat, base: nat, upper: bool, k: nat)
    requires 8 <= base <= 16 && v < EightTo(k) && k > 0
    ensures |Digits(v, base, upper)| <= k
  {
    if v >= base {
      Divided(v, base, EightTo(k - 1));
      assert k > 1;
      DigitsShort(v / base, base, upper, k - 1);
    }
  }

  lemma Divided(v: nat, base: nat, p: nat)
    requires 8 <= base <= v < 8 * p
    ensures v / base < p && p > 1
  {
    QuotRem(v, base);
    if v / base >= p {
      Product(8, base, p, v / base);
    }
  }

  lemma Product(a: nat, b: nat, p: nat, q: nat)
    requires a <= b && p <= q
    ensures a * p <= q * b
  {
    assert b * q == a * p + (b - a) * q + a * (q - p);
  }

  // The digit buffer has room for the longest 64-bit numeral and its NUL.
  lemma NumeralFits(v: nat, base: nat, upper: bool)
    requires 8 <= base <= 16 && v < TWO_64
    ensures |Digits(v, base, upper)| < NBUF - 1
  {
    assert EightTo(4) == 4096;
    assert EightTo(8) == 4096 * EightTo(4);
    assert EightTo(12) == 4096 * EightTo(8);
    assert EightTo(16) == 4096 * EightTo(12);
    assert EightTo(20) == 4096 * EightTo(16);
    assert EightTo(22) == 64 * EightTo(20);
    DigitsShort(v, base, upper, 22);
  }

  // Backwards from the end of the buffer, after its NUL.
  method Utoa(v: nat, buf: array<byte>, base: nat, upper: bool) returns (p: nat)
    requires v < TWO_64 && base in {8, 10, 16} && buf.Length == NBUF
    modifies buf
    ensures p < NBUF - 1 && buf[p..NBUF - 1] == Digits(v, base, upper) && buf[NBUF - 1] == 0
  {
    hide *;
    NumeralFits(v, base, upper);
    DigitsUnfold(0, base, upper);
    p := NBUF - 1;
    buf[p] := 0;
    if v == 0 {
      p := p - 1;
      buf[p] := Dig(0, upper);
      assert buf[p..NBUF - 1] == [Dig(0, upper)];
    }
    var u := v;
    ghost var tail := buf[p..NBUF - 1];
    while u > 0
      invariant buf[NBUF - 1] == 0 && p <= NBUF - 1 && buf[p..NBUF - 1] == tail
      invariant Digits(v, base, upper) == (if u > 0 then Digits(u, base, upper) else []) + tail
    {
      QuotRem(u, base);
      Peeled(v, u, base, upper, tail);
      p := p - 1;
      buf[p] := Dig(u % base, upper);
      tail := [Dig(u % base, upper)] + tail;
      u := u / base;
    }
  }

  lemma Peeled(v: nat, u: nat, base: nat, upper: bool, tail: seq<byte>)
    requires 2 <= base <= 16 && u > 0 && Digits(v, base, upper) == Digits(u, base, upper) + tail
    ensures Digits(v, base, upper)
            == (if u / base > 0 then Digits(u / base, base, upper) else []) + ([Dig(u % base, upper)] + tail)
  {
    hide *;
    DigitsUnfold(u, base, upper);
    QuotRem(u, base);
  }
}
