// Numbers held as base-10^9 words, most significant word first, with a decimal
// radix position `rp` (digits left of the point) and a binary exponent `e2`.
module BigDecimal {
  import opened Bits

  const BASE: int := 1_000_000_000

  // `acc` followed by the words of `s`, read in base 10^9.
  function Horner(acc: nat, s: seq<nat>): nat
    decreases |s|
  {
    if s == [] then acc else Horner(acc * BASE + s[0], s[1..])
  }

  function Num(w: seq<nat>): nat {
    Horner(0, w)
  }

  lemma {:induction false} HornerAppend(acc: nat, s: seq<nat>, d: nat)
    ensures Horner(acc, s + [d]) == Horner(acc, s) * BASE + d
    decreases |s|
  {
    if s == [] {
      assert [] + [d] == [d];
      assert [d][1..] == [];
    } else {
      assert (s + [d])[1..] == s[1..] + [d];
      HornerAppend(acc * BASE + s[0], s[1..], d);
    }
  }

  // Integer powers over the reals.
  function RPow(b: real, n: int): real
    requires b > 0.0
    decreases if n < 0 then -n else n
  {
    if n == 0 then 1.0 else if n > 0 then b * RPow(b, n - 1) else RPow(b, n + 1) / b
  }

  lemma {:induction false} RPowPositive(b: real, n: int)
    requires b > 0.0
    ensures RPow(b, n) > 0.0
    decreases if n < 0 then -n else n
  {
    if n > 0 { RPowPositive(b, n - 1); } else if n < 0 { RPowPositive(b, n + 1); }
  }

  lemma RPowSucc(b: real, n: int)
    requires b > 0.0
    ensures RPow(b, n + 1) == b * RPow(b, n)
  {
    if n < 0 {
      assert RPow(b, n) == RPow(b, n + 1) / b;
    }
  }

  lemma MulAssoc(a: real, b: real, c: real)
    ensures a * (b * c) == (a * b) * c
  {}

  lemma TenToTheNine(n: int)
    ensures RPow(10.0, n + 9) == 1_000_000_000.0 * RPow(10.0, n)
  {
    RPowSucc(10.0, n); RPowSucc(10.0, n + 1); RPowSucc(10.0, n + 2);
    RPowSucc(10.0, n + 3); RPowSucc(10.0, n + 4); RPowSucc(10.0, n + 5);
    RPowSucc(10.0, n + 6); RPowSucc(10.0, n + 7); RPowSucc(10.0, n + 8);
  }

  lemma {:induction false} TwoToThe(n: int, m: nat)
    ensures RPow(2.0, n + m) == Pow2(m) as real * RPow(2.0, n)
    decreases m
  {
    hide RPow;
    if m == 0 {
      assert Pow2(m) as real == 1.0;
    } else {
      TwoToThe(n, m - 1);
      RPowSucc(2.0, n + (m - 1));
      assert RPow(2.0, n + m) == 2.0 * RPow(2.0, n + (m - 1));
      assert Pow2(m) as real == 2.0 * Pow2(m - 1) as real;
      MulAssoc(2.0, Pow2(m - 1) as real, RPow(2.0, n));
    }
  }

  // The number denoted by words, radix position and binary exponent.
  function Value(w: seq<nat>, rp: int, e2: int): real {
    Num(w) as real * RPow(10.0, rp - 9 * |w|) * RPow(2.0, e2)
  }

  // A trailing zero word carries no value.
  lemma ValueAppendZero(w: seq<nat>, rp: int, e2: int)
    ensures Value(w + [0], rp, e2) == Value(w, rp, e2)
  {
    hide RPow, Horner;
    HornerAppend(0, w, 0);
    var p := rp - 9 * |w + [0]|;
    TenToTheNine(p);
    Regroup(Num(w) as real, 1_000_000_000.0, RPow(10.0, p), RPow(2.0, e2));
  }

  // A leading zero word can be dropped if the radix position moves with it.
  lemma ValueDropLeadingZero(w: seq<nat>, rp: int, e2: int)
    requires |w| > 0 && w[0] == 0
    ensures Value(w[1..], rp - 9, e2) == Value(w, rp, e2)
  {
    assert Num(w) == Horner(0, w[1..]);
    assert rp - 9 * |w| == rp - 9 - 9 * |w[1..]|;
  }

  lemma {:induction false} ValueDropTrailingZeros(w: seq<nat>, m: nat, rp: int, e2: int)
    requires m <= |w|
    requires forall i :: m <= i < |w| ==> w[i] == 0
    ensures Value(w[..m], rp, e2) == Value(w, rp, e2)
    decreases |w| - m
  {
    if m == |w| {
      assert w[..m] == w;
    } else {
      ValueDropTrailingZeros(w, m + 1, rp, e2);
      assert w[..m + 1] == w[..m] + [0];
      ValueAppendZero(w[..m], rp, e2);
    }
  }

  // Multiplying the integer by 2^m and lowering the exponent by m keeps the value.
  lemma ValueScale(w: seq<nat>, v: seq<nat>, rp: int, rp': int, e2: int, m: nat)
    requires rp' - 9 * |v| == rp - 9 * |w| && Num(v) == Num(w) * Pow2(m)
    ensures Value(v, rp', e2 - m) == Value(w, rp, e2)
  {
    hide RPow, Horner, Pow2;
    TwoToThe(e2 - m, m);
    var n, f, t, q := Num(w) as real, Pow2(m) as real, RPow(10.0, rp - 9 * |w|), RPow(2.0, e2 - m);
    Regroup(n, f, t, q);
    Swap(n, f, t, q);
  }

  lemma Regroup(n: real, f: real, t: real, q: real)
    ensures (n * f) * t * q == n * (f * t) * q
  {
    MulAssoc(n, f, t);
  }

  lemma Swap(n: real, f: real, t: real, q: real)
    ensures n * (f * t) * q == n * t * (f * q)
  {
    MulAssoc(n, t, f);
    MulAssoc(n * t, f, q);
  }

  // Two integers over the same radix position and exponent denote the same value
  // exactly when they are equal.
  lemma ValueInjective(w: seq<nat>, v: seq<nat>, rp: int, rp': int, e2: int)
    requires rp' - 9 * |v| == rp - 9 * |w|
    ensures Value(w, rp, e2) == Value(v, rp', e2) <==> Num(w) == Num(v)
  {
    RPowPositive(10.0, rp - 9 * |w|);
    RPowPositive(2.0, e2);
    var t, q := RPow(10.0, rp - 9 * |w|), RPow(2.0, e2);
    if Num(w) != Num(v) {
      var d := Num(w) as real - Num(v) as real;
      assert d * t != 0.0;
      assert (d * t) * q != 0.0;
      assert d * t == Num(w) as real * t - Num(v) as real * t;
    }
  }
}
