// Decimal literals as text: what number a mantissa and an exponent denote.
module DecimalText {
  import opened BigDecimal

  // The character at i; the text is NUL-terminated.
  function At(s: string, i: nat): char {
    if i < |s| then s[i] else '\0'
  }

  predicate IsDigit(c: char) {
    '0' <= c <= '9'
  }

  function DigitOf(c: char): nat
    requires IsDigit(c)
  {
    c as nat - '0' as nat
  }

  // The end of the maximal run of digits from i.
  function DigitEnd(s: string, i: nat): (e: nat)
    requires i <= |s|
    ensures i <= e <= |s| && !IsDigit(At(s, e))
    ensures forall k :: i <= k < e ==> IsDigit(s[k])
    decreases |s| - i
  {
    if IsDigit(At(s, i)) then DigitEnd(s, i + 1) else i
  }

  function IntPart(s: string): string {
    s[..DigitEnd(s, 0)]
  }

  predicate HasPoint(s: string) {
    At(s, DigitEnd(s, 0)) == '.'
  }

  function FracPart(s: string): string {
    var p := DigitEnd(s, 0);
    if HasPoint(s) then s[p + 1..DigitEnd(s, p + 1)] else ""
  }

  ghost predicate AllDigits(ds: string) {
    forall i :: 0 <= i < |ds| ==> IsDigit(ds[i])
  }

  // A run of digits read in base ten.
  ghost function DVal(ds: string): nat
    requires AllDigits(ds)
  {
    if ds == [] then 0 else DVal(ds[..|ds| - 1]) * 10 + DigitOf(ds[|ds| - 1])
  }

  // The number written: all digits read in base ten, the point moved left past
  // the fraction digits and right by the exponent.
  ghost function Literal(s: string, e10: int): real {
    DVal(IntPart(s) + FracPart(s)) as real * RPow(10.0, e10 - |FracPart(s)|)
  }

  function Pow10(n: nat): nat {
    if n == 0 then 1 else 10 * Pow10(n - 1)
  }

  lemma {:induction false} TenToThe(n: int, m: nat)
    ensures RPow(10.0, n + m) == Pow10(m) as real * RPow(10.0, n)
    decreases m
  {
    hide RPow;
    if m > 0 {
      TenToThe(n, m - 1);
      RPowSucc(10.0, n + m - 1);
      assert n + (m - 1) == n + m - 1;
      MulAssoc(10.0, Pow10(m - 1) as real, RPow(10.0, n));
    }
  }

  lemma Pow10Small(n: nat)
    requires n <= 9
    ensures 1 <= Pow10(n) <= 1_000_000_000 && (n <= 8 ==> Pow10(n) <= 100_000_000)
  {
    assert Pow10(0) == 1 && Pow10(1) == 10 && Pow10(2) == 100 && Pow10(3) == 1000 && Pow10(4) == 10000;
    assert Pow10(5) == 100000 && Pow10(6) == 1000000 && Pow10(7) == 10000000 && Pow10(8) == 100000000;
  }

  lemma {:induction false} Pow10Positive(n: nat)
    ensures Pow10(n) > 0
  {
    if n > 0 { Pow10Positive(n - 1); }
  }

  // The text before i, its point (if passed, at dot) left out.
  function Seen(s: string, i: nat, gotrad: bool, dot: nat): string
    requires i <= |s| && (gotrad ==> dot < i)
  {
    if gotrad then s[..dot] + s[dot + 1..i] else s[..i]
  }

  // Everything before i is digits, but for at most one point at dot.
  ghost predicate Scanned(s: string, i: nat, gotrad: bool, dot: nat) {
    i <= |s| && (gotrad ==> dot < i && s[dot] == '.') && AllDigits(Seen(s, i, gotrad, dot))
  }

  lemma {:induction false} DigitEndIs(s: string, i: nat, e: nat)
    requires i <= e <= |s| && !IsDigit(At(s, e))
    requires forall k :: i <= k < e ==> IsDigit(s[k])
    ensures DigitEnd(s, i) == e
    decreases e - i
  {
    if i < e {
      DigitEndIs(s, i + 1, e);
    }
  }

  // Where scanning stops, the digits seen are those of the literal.
  lemma ScanEnds(s: string, i: nat, gotrad: bool, dot: nat)
    requires Scanned(s, i, gotrad, dot)
    requires !IsDigit(At(s, i)) && (At(s, i) == '.' ==> gotrad)
    ensures Seen(s, i, gotrad, dot) == IntPart(s) + FracPart(s)
    ensures |FracPart(s)| == if gotrad then i - dot - 1 else 0
  {
    var ds := Seen(s, i, gotrad, dot);
    if gotrad {
      assert forall k :: 0 <= k < dot ==> s[k] == ds[k];
      assert forall k :: dot < k < i ==> s[k] == ds[k - 1];
      DigitEndIs(s, 0, dot);
      DigitEndIs(s, dot + 1, i);
    } else {
      assert forall k :: 0 <= k < i ==> s[k] == ds[k];
      DigitEndIs(s, 0, i);
      assert s[..i] + "" == s[..i];
    }
  }

  lemma SeenDigit(s: string, i: nat, gotrad: bool, dot: nat)
    requires Scanned(s, i, gotrad, dot) && IsDigit(At(s, i))
    ensures Scanned(s, i + 1, gotrad, dot)
    ensures DVal(Seen(s, i + 1, gotrad, dot)) == DVal(Seen(s, i, gotrad, dot)) * 10 + DigitOf(At(s, i))
    ensures Seen(s, i + 1, gotrad, dot) == Seen(s, i, gotrad, dot) + [s[i]]
  {
    var ds := Seen(s, i, gotrad, dot);
    assert Seen(s, i + 1, gotrad, dot) == ds + [s[i]];
    assert (ds + [s[i]])[..|ds|] == ds;
  }

  lemma SeenPoint(s: string, i: nat, dot: nat)
    requires Scanned(s, i, false, dot) && At(s, i) == '.'
    ensures Scanned(s, i + 1, true, i)
    ensures Seen(s, i + 1, true, i) == Seen(s, i, false, dot)
  {
    assert Seen(s, i + 1, true, i) == s[..i];
  }

  predicate AllZeros(ds: string) {
    forall i :: 0 <= i < |ds| ==> ds[i] == '0'
  }

  // How many zeros come before the first other digit.
  function LeadingZeros(ds: string): nat {
    if ds == "" || ds[0] != '0' then 0 else 1 + LeadingZeros(ds[1..])
  }

  // The digits from the first nonzero one on.
  function Significant(ds: string): (n: nat)
    ensures n <= |ds|
  {
    LeadingZerosBound(ds);
    |ds| - LeadingZeros(ds)
  }

  lemma {:induction false} LeadingZerosBound(ds: string)
    ensures LeadingZeros(ds) <= |ds|
  {
    if ds != "" && ds[0] == '0' {
      LeadingZerosBound(ds[1..]);
    }
  }

  lemma {:induction false} LeadingZerosIs(ds: string, z: nat)
    requires z <= |ds| && AllZeros(ds[..z]) && (z < |ds| ==> ds[z] != '0')
    ensures LeadingZeros(ds) == z
    decreases z
  {
    if z > 0 {
      assert ds[..z][0] == '0';
      assert ds[1..][..z - 1] == ds[..z][1..];
      LeadingZerosIs(ds[1..], z - 1);
    }
  }

  lemma {:induction false} ZeroDigits(ds: string)
    requires AllZeros(ds)
    ensures AllDigits(ds) && DVal(ds) == 0
  {
    if ds != "" {
      ZeroDigits(ds[..|ds| - 1]);
    }
  }
}
