// Moving the radix point to a word boundary: the digits shift within and across
// words, by a power of ten that divides 10^9.
module DecfloatAlign {
  import opened BigDecimal
  import opened DecimalText
  import opened DecfloatRing

  // p10s[8 - m] for the digit offset m: divide by 10^(9 - m), carry 10^m.
  predicate Splits(p: nat, q: nat) {
    p > 1 && q > 1 && p * q == BASE
  }

  function AlignCarry(w: seq<nat>, i: nat, p: nat, q: nat): nat
    requires Splits(p, q) && i <= |w|
  {
    if i == 0 then 0 else q * (w[i - 1] % p)
  }

  function AlignWord(w: seq<nat>, i: nat, p: nat, q: nat): nat
    requires Splits(p, q) && i < |w|
  {
    w[i] / p + AlignCarry(w, i, p, q)
  }

  function AlignWords(w: seq<nat>, p: nat, q: nat): seq<nat>
    requires Splits(p, q)
  {
    seq(|w|, i requires 0 <= i < |w| => AlignWord(w, i, p, q))
  }

  function AlignKept(w: seq<nat>, p: nat, q: nat): seq<nat>
    requires Splits(p, q)
  {
    if |w| > 0 && AlignWord(w, 0, p, q) == 0 then AlignWords(w, p, q)[1..] else AlignWords(w, p, q)
  }

  function AlignAll(w: seq<nat>, p: nat, q: nat): seq<nat>
    requires Splits(p, q)
  {
    var c := AlignCarry(w, |w|, p, q);
    if c == 0 then AlignKept(w, p, q) else AlignKept(w, p, q) + [c]
  }

  lemma {:induction false} AlignExact(w: seq<nat>, j: nat, p: nat, q: nat)
    requires Splits(p, q) && j <= |w|
    ensures p * (Num(AlignWords(w, p, q)[..j]) * BASE + AlignCarry(w, j, p, q)) == Num(w[..j]) * BASE
  {
    var v := AlignWords(w, p, q);
    if j > 0 {
      AlignExact(w, j - 1, p, q);
      hide Horner, AlignCarry;
      CarryIs(w, j, p, q);
      assert w[..j] == w[..j - 1] + [w[j - 1]] && v[..j] == v[..j - 1] + [v[j - 1]];
      HornerAppend(0, w[..j - 1], w[j - 1]);
      HornerAppend(0, v[..j - 1], v[j - 1]);
      AlignStep(Num(w[..j - 1]), Num(v[..j - 1]), AlignCarry(w, j - 1, p, q), w[j - 1], p, q);
    }
  }

  lemma CarryIs(w: seq<nat>, j: nat, p: nat, q: nat)
    requires Splits(p, q) && 0 < j <= |w|
    ensures AlignCarry(w, j, p, q) == q * (w[j - 1] % p)
  {}

  lemma AlignStep(n: nat, m: nat, c: nat, x: nat, p: nat, q: nat)
    requires Splits(p, q) && p * (m * BASE + c) == n * BASE
    ensures p * ((m * BASE + (x / p + c)) * BASE + q * (x % p)) == (n * BASE + x) * BASE
  {
    var t, u := x / p, x % p;
    assert x == p * t + u;
    assert p * (q * u) == BASE * u by { assert p * (q * u) == (p * q) * u; }
    assert p * ((m * BASE + (t + c)) * BASE + q * u) == p * (m * BASE + c) * BASE + p * t * BASE + p * (q * u);
  }

  lemma AlignBounds(w: seq<nat>, i: nat, p: nat, q: nat)
    requires Splits(p, q) && i <= |w| && AllBelow(w, BASE)
    ensures AlignCarry(w, i, p, q) <= BASE - q
    ensures i < |w| ==> w[i] / p < q && AlignWord(w, i, p, q) < BASE
    ensures i == 1 && w[0] > 0 && AlignWord(w, 0, p, q) == 0 ==> AlignCarry(w, 1, p, q) > 0
  {
    if i > 0 {
      RestBelow(w[i - 1] % p, p, q);
    }
    if i < |w| {
      QuotientBelow(w[i], p, q);
    }
    if i == 1 && w[0] > 0 && w[0] / p == 0 {
      WholeOrRest(w[0], p, q);
    }
  }

  lemma RestBelow(u: nat, p: nat, q: nat)
    requires Splits(p, q) && u < p
    ensures q * u <= BASE - q
  {
    MulMono(q, u, p - 1);
    assert q * (p - 1) == q * p - q;
  }

  lemma QuotientBelow(v: nat, p: nat, q: nat)
    requires Splits(p, q) && v < BASE
    ensures v / p < q
  {
    if v / p >= q {
      MulMono(p, q, v / p);
      assert false;
    }
  }

  lemma WholeOrRest(v: nat, p: nat, q: nat)
    requires Splits(p, q) && v > 0 && v / p == 0
    ensures q * (v % p) > 0
  {
    MulMono(q, 1, v % p);
  }

  lemma MulMono(a: nat, b: nat, c: nat)
    requires b <= c
    ensures a * b <= a * c
  {}

  // Same digits, radix point 9 - m to the right: 10^m * p == 10^9.
  lemma AlignValue(w: seq<nat>, p: nat, m: nat, rp: int)
    requires 0 < m < 9 && p == Pow10(9 - m) && Splits(p, Pow10(m)) && |w| > 0
    ensures var q := Pow10(m);
            Value(AlignAll(w, p, q), (if AlignWord(w, 0, p, q) == 0 then rp - m else rp + 9 - m), 0) == Value(w, rp, 0)
  {
    hide Value, Horner, AlignCarry, AlignWord, Pow10;
    var q := Pow10(m);
    var c, v := AlignCarry(w, |w|, p, q), AlignWords(w, p, q);
    AlignExact(w, |w|, p, q);
    assert w[..|w|] == w && v[..|v|] == v;
    HornerAppend(0, v, c);
    ScaleByTen(w, v + [c], p, m, rp);
    if c == 0 {
      ValueAppendZero(v, rp + 9 - m, 0);
    }
    var u := if c == 0 then v else v + [c];
    if AlignWord(w, 0, p, q) == 0 {
      ValueDropLeadingZero(u, rp + 9 - m, 0);
      assert u[1..] == AlignAll(w, p, q);
    } else {
      assert u == AlignAll(w, p, q);
    }
  }

  lemma ScaleByTen(w: seq<nat>, v: seq<nat>, p: nat, m: nat, rp: int)
    requires 0 < m < 9 && Splits(p, Pow10(m)) && |v| == |w| + 1
    requires p * Num(v) == Num(w) * BASE
    ensures Value(v, rp + 9 - m, 0) == Value(w, rp, 0)
  {
    hide Horner, RPow;
    var q, e := Pow10(m), rp - m - 9 * |w|;
    hide Pow10;
    TenToThe(e, m);
    Cancel(Num(v), Num(w), p, q);
    assert rp + 9 - m - 9 * |v| == e && e + m == rp - 9 * |w|;
    var n, f, t := Num(w) as real, q as real, RPow(10.0, e);
    assert Num(v) as real == n * f;
    MulAssoc(n, f, t);
  }

  lemma Cancel(a: nat, b: nat, p: nat, q: nat)
    requires Splits(p, q) && p * a == b * BASE
    ensures a == b * q
  {
    assert p * (b * q) == b * (p * q);
    assert p * (a - b * q) == 0;
  }

  // Slots before j hold the shifted words, the others the old ones.
  ghost predicate AlignedTo(x: array<u32>, w: seq<nat>, j: nat, p: nat, q: nat)
    requires x.Length == KMAX && |w| < KMAX && Splits(p, q)
    reads x
  {
    forall i {:trigger w[i]} {:trigger AlignWord(w, i, p, q)} :: 0 <= i < |w| ==>
      x[i] as int == if i < j then AlignWord(w, i, p, q) else w[i]
  }

  lemma KeptHolds(x: array<u32>, a: nat, w: seq<nat>, p: nat, q: nat)
    requires x.Length == KMAX && 0 < |w| < KMAX && Splits(p, q) && AlignedTo(x, w, |w|, p, q)
    requires a == if AlignWord(w, 0, p, q) == 0 then 1 else 0
    ensures Holds(x, a, AlignKept(w, p, q)) && |AlignKept(w, p, q)| == |w| - a
  {
    var v := AlignKept(w, p, q);
    forall i | 0 <= i < |v|
      ensures x[Wrap(a + i)] as int == v[i]
    {
      assert v[i] == AlignWord(w, i + a, p, q);
    }
  }

  lemma AlignShape(w: seq<nat>, p: nat, q: nat)
    requires Splits(p, q) && |w| > 0 && w[0] > 0 && AllBelow(w, BASE)
    ensures AllBelow(AlignAll(w, p, q), BASE) && |AlignAll(w, p, q)| <= |w| + 1
    ensures |AlignAll(w, p, q)| > 0 && AlignAll(w, p, q)[0] > 0
  {
    forall i | 0 <= i <= |w|
      ensures AlignCarry(w, i, p, q) < BASE && (i < |w| ==> AlignWord(w, i, p, q) < BASE)
    {
      AlignBounds(w, i, p, q);
    }
    AlignBounds(w, 1, p, q);
    hide Splits, AlignCarry, AlignWord;
    if |w| > 1 {
      SecondPositive(w, 1, p, q);
    }
  }

  lemma WordIs(w: seq<nat>, k: nat, p: nat, q: nat)
    requires Splits(p, q) && k < |w|
    ensures p > 1 && AlignWord(w, k, p, q) == w[k] / p + AlignCarry(w, k, p, q)
  {}

  method AlignOne(x: array<u32>, k: nat, above: u32, p: u32, q: u32, ghost w: seq<nat>) returns (carry: u32)
    requires x.Length == KMAX && k < |w| < KMAX && AllBelow(w, BASE) && Splits(p as nat, q as nat)
    requires AlignedTo(x, w, k, p as nat, q as nat) && above as int == AlignCarry(w, k, p as nat, q as nat)
    modifies x
    ensures AlignedTo(x, w, k + 1, p as nat, q as nat)
    ensures carry as int == AlignCarry(w, k + 1, p as nat, q as nat) && x[k] as int == AlignWord(w, k, p as nat, q as nat)
  {
    hide AlignCarry, AlignWord, Splits;
    assert x[k] as int == w[k];
    AlignBounds(w, k, p as nat, q as nat);
    AlignBounds(w, k + 1, p as nat, q as nat);
    CarryIs(w, k + 1, p as nat, q as nat);
    WordIs(w, k, p as nat, q as nat);
    var tmp := x[k] % p;
    x[k] := x[k] / p + above;
    carry := q * tmp;
  }

  method AlignWordsInPlace(r: Ring, p: u32, q: u32, ghost w: seq<nat>) returns (carry: u32)
    requires r.Valid() && r.a == 0 && w == r.words && AllBelow(w, BASE) && Splits(p as nat, q as nat)
    modifies r`a, r`rp, r.x
    ensures carry as int == AlignCarry(w, |w|, p as nat, q as nat)
    ensures r.a == (if AlignWord(w, 0, p as nat, q as nat) == 0 then 1 else 0) && r.rp == old(r.rp) - 9 * r.a
    ensures Holds(r.x, r.a, AlignKept(w, p as nat, q as nat)) && |AlignKept(w, p as nat, q as nat)| == |w| - r.a
  {
    hide AlignCarry, AlignWord, AlignKept;
    ghost var P, Q := p as nat, q as nat;
    assert AlignCarry(w, 0, P, Q) == 0 by { NoCarry(w, P, Q); }
    carry := 0;
    var k := 0;
    while k != r.z
      invariant k <= |w| && AlignedTo(r.x, w, k, P, Q)
      invariant carry as int == AlignCarry(w, k, P, Q)
      invariant r.a == (if k > 0 && AlignWord(w, 0, P, Q) == 0 then 1 else 0) && r.rp == old(r.rp) - 9 * r.a
      decreases |w| - k
    {
      SecondPositive(w, k, P, Q);
      carry := AlignOne(r.x, k, carry, p, q, w);
      if k == r.a && r.x[k] == 0 {
        r.a := Wrap(r.a + 1);
        r.rp := r.rp - 9;
      }
      k := k + 1;
    }
    KeptHolds(r.x, r.a, w, P, Q);
  }

  lemma NoCarry(w: seq<nat>, p: nat, q: nat)
    requires Splits(p, q)
    ensures AlignCarry(w, 0, p, q) == 0
  {}

  lemma SecondPositive(w: seq<nat>, k: nat, p: nat, q: nat)
    requires Splits(p, q) && k < |w| && w[0] > 0 && AllBelow(w, BASE)
    ensures k == 1 && AlignWord(w, 0, p, q) == 0 ==> AlignWord(w, 1, p, q) > 0
  {
    if k == 1 && AlignWord(w, 0, p, q) == 0 {
      AlignBounds(w, 1, p, q);
      var c := AlignCarry(w, 1, p, q);
      assert AlignWord(w, 1, p, q) == w[1] / p + c;
      hide Splits, AlignCarry, AlignWord;
      assert w[1] / p >= 0;
    }
  }

  // The point moved to a word boundary: rp becomes a multiple of nine.
  method AlignRadix(r: Ring)
    requires r.Valid() && r.a == 0 && r.e2 == 0 && |r.words| < KMAX - 2 && AllBelow(r.words, BASE)
    modifies r, r.x
    ensures r.Valid() && r.e2 == 0 && r.rp % 9 == 0 && old(r.rp) - 9 < r.rp < old(r.rp) + 9
    ensures AllBelow(r.words, BASE) && |r.words| <= |old(r.words)| + 1
    ensures 9 * |r.words| - r.rp <= 9 * |old(r.words)| - old(r.rp) + 8
    ensures r.Denotes() == old(r.Denotes())
  {
    hide Value, AlignCarry, AlignWord, AlignKept, Pow10, Splits, Holds, AllBelow;
    if r.rp % 9 != 0 {
      var rpm9 := r.rp % 9;
      ghost var w := r.words;
      SplitsAt(rpm9);
      Pow10Small(rpm9);
      Pow10Small(9 - rpm9);
      var p, q := Pow10(9 - rpm9) as u32, Pow10(rpm9) as u32;
      AlignValue(w, p as nat, rpm9, r.rp);
      AlignShape(w, p as nat, q as nat);
      var carry := AlignWordsInPlace(r, p, q, w);
      AppendCarry(r, carry, AlignKept(w, p as nat, q as nat));
      BelowMore(r.words);
      RadixMoved(old(r.rp), r.a);
      r.rp := r.rp + 9 - rpm9;
    }
  }

  lemma BelowMore(w: seq<nat>)
    requires AllBelow(w, BASE)
    ensures AllBelow(w, WORD_MAX)
  {}

  lemma RadixMoved(rp: int, a: nat)
    requires a <= 1
    ensures (rp - 9 * a + 9 - rp % 9) % 9 == 0 && 0 <= rp % 9 < 9
  {}

  // The last carry becomes a word of its own.
  method AppendCarry(r: Ring, carry: u32, ghost kept: seq<nat>)
    requires r.x.Length == KMAX && r.a < KMAX && r.z == r.a + |kept| < KMAX - 1 && Holds(r.x, r.a, kept)
    modifies r`z, r`words, r.x
    ensures r.words == if carry == 0 then kept else kept + [carry as int]
    ensures r.z == r.a + |r.words| && |r.words| < KMAX && Holds(r.x, r.a, r.words)
  {
    r.words := kept;
    if carry != 0 {
      r.x[r.z] := carry;
      r.z := r.z + 1;
      r.words := r.words + [carry as int];
    }
  }

  lemma SplitsAt(m: int)
    requires 0 < m < 9
    ensures Splits(Pow10(9 - m), Pow10(m))
  {
    assert Pow10(1) == 10 && Pow10(2) == 100 && Pow10(3) == 1000 && Pow10(4) == 10000;
    assert Pow10(5) == 100000 && Pow10(6) == 1000000 && Pow10(7) == 10000000 && Pow10(8) == 100000000;
  }
}
