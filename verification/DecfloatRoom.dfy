// Which literals the ring has room for, and what becomes of the others.
module DecfloatRoom {
  import opened BigDecimal
  import opened Bits
  import opened DecimalText
  import opened DecfloatRing
  import opened DecfloatIntake
  import opened DecfloatBounds
  import opened DecfloatPlaces
  import opened DecfloatScale

  function Digits(s: string): string {
    IntPart(s) + FracPart(s)
  }

  lemma DigitsAreDigits(s: string)
    ensures AllDigits(Digits(s))
  {}

  // A nonzero digit beyond the KEPT significant digits the ring has room for.
  ghost predicate Truncated(s: string) {
    Dropped(Digits(s), LeadingZeros(Digits(s)))
  }

  // Digits left of the point, leading zeros aside.
  function PointAt(s: string, e10: int): int {
    Significant(Digits(s)) - |FracPart(s)| + e10
  }

  function TrailingZeros(ds: string): (n: nat)
    ensures n <= |ds|
  {
    if ds == "" || ds[|ds| - 1] != '0' then 0 else 1 + TrailingZeros(ds[..|ds| - 1])
  }

  // Decimal places that are written, zeros at the end aside.
  function WrittenPlaces(s: string, e10: int): int {
    |FracPart(s)| - e10 - TrailingZeros(Digits(s))
  }

  // The digits without the zeros at the end.
  ghost function Stripped(ds: string): nat
    requires AllDigits(ds)
  {
    DVal(ds[..|ds| - TrailingZeros(ds)])
  }

  // The literal as an integer over so many places, its twos and fives told apart.
  ghost function Written(s: string, e10: int): Decimal {
    DigitsAreDigits(s);
    DecimalOf(Stripped(Digits(s)), WrittenPlaces(s, e10))
  }

  // A number of so many decimal places passes all loops without filling the ring: upscaling if the
  // places not owed to fives are few, downscaling if there are not too many bits for them but
  // those owed to twos.
  ghost predicate RoomFor(t: real, twos: nat, fives: nat, places: int) {
    t < RPow(2.0, 18498 + twos - places) && places - fives <= 18369
  }

  // Of a literal with digits cut, the words that are left are odd.
  ghost predicate HasRoom(s: string, e10: int) {
    if Truncated(s) then RoomFor(Literal(s, e10), 0, 0, KEPT - PointAt(s, e10))
    else RoomFor(Literal(s, e10), Written(s, e10).twos, Written(s, e10).fives, WrittenPlaces(s, e10))
  }

  // No two words are ever merged: the number is not upscaled, or with words to spare.
  ghost predicate NoMerge(t: real, fives: nat, places: int) {
    t >= RPow(10.0, 35) || places <= 18370 || places - fives <= 18369
  }

  ghost predicate Unmerged(s: string, e10: int) {
    if Truncated(s) then NoMerge(Literal(s, e10), 0, KEPT - PointAt(s, e10))
    else NoMerge(Literal(s, e10), Written(s, e10).fives, WrittenPlaces(s, e10))
  }

  // Digits from the first that is not zero to the last.
  function DigitCount(s: string): int {
    Significant(Digits(s)) - TrailingZeros(Digits(s))
  }

  // Nothing was merged, or the digits are too few for a merge to reach them.
  ghost predicate Comparable(s: string, e10: int) {
    Unmerged(s, e10) || DigitCount(s) <= 18398
  }

  function Larger(a: int, b: int): int {
    if a < b then b else a
  }

  // What the scaled words denote, with the literal t: the same number exactly when no digit was
  // cut, if there was room; a number that rounding cannot tell from it, be the precision that of
  // normal or of denormal numbers, if no words were merged or the digits are at most 18398; and in
  // any case one that agrees with it to 18397 digits.
  ghost predicate Carries(now: real, e2: int, s: string, e10: int, emin: int) {
    var t := Literal(s, e10);
    && (HasRoom(s, e10) ==> (now == t <==> !Truncated(s)))
    && (Comparable(s, e10) ==> Alike(t, now, RPow(2.0, Larger(e2, emin) - 1)))
    && now - t <= RPow(10.0, -18397) * t && t - now <= RPow(10.0, -18397) * t
  }

  lemma LiteralIs(s: string, e10: int)
    requires AllDigits(Digits(s))
    ensures Literal(s, e10) == DVal(Digits(s)) as real * RPow(10.0, e10 - |FracPart(s)|)
  {
    hide DVal, RPow, IntPart, FracPart;
  }

  // dc significant digits with the point n digits in: 10^(n-1) <= literal < 10^n.
  lemma LiteralBounds(s: string, e10: int, dc: nat, n: int)
    requires AllDigits(Digits(s)) && dc > 0 && Pow10(dc - 1) <= DVal(Digits(s)) < Pow10(dc)
    requires n == dc - |FracPart(s)| + e10
    ensures RPow(10.0, n - 1) <= Literal(s, e10) < RPow(10.0, n)
  {
    hide *;
    LiteralIs(s, e10);
    ScaleBounds(Pow10(dc - 1), DVal(Digits(s)), Pow10(dc), RPow(10.0, n - dc)) by {
      RPowPositive(10.0, n - dc);
    }
    assert RPow(10.0, n - 1) == Pow10(dc - 1) as real * RPow(10.0, n - dc) by {
      TenToThe(n - dc, dc - 1);
      assert n - dc + (dc - 1) == n - 1;
    }
    assert RPow(10.0, n) == Pow10(dc) as real * RPow(10.0, n - dc) by {
      TenToThe(n - dc, dc);
    }
  }

  lemma ScaleBounds(a: nat, b: nat, c: nat, t: real)
    requires a <= b < c && t > 0.0
    ensures a as real * t <= b as real * t < c as real * t
  {}

  lemma {:induction false} StrippedIs(ds: string)
    requires AllDigits(ds)
    ensures DVal(ds) == Stripped(ds) * Pow10(TrailingZeros(ds))
    decreases |ds|
  {
    hide Pow10, DVal;
    var z := TrailingZeros(ds);
    if z > 0 {
      var es := ds[..|ds| - 1];
      StrippedIs(es);
      assert es[..|es| - TrailingZeros(es)] == ds[..|ds| - z];
      LastZero(ds);
      Pow10Next(z - 1);
      TenMore(Stripped(ds), Pow10(z - 1));
    } else {
      assert ds[..|ds|] == ds;
      PowTenZero();
    }
  }

  lemma LastZero(ds: string)
    requires AllDigits(ds) && ds != "" && ds[|ds| - 1] == '0'
    ensures DVal(ds) == DVal(ds[..|ds| - 1]) * 10
  {}

  lemma TenMore(a: nat, t: nat)
    ensures a * t * 10 == a * (10 * t)
  {}

  lemma PowTenZero()
    ensures Pow10(0) == 1
  {}

  lemma Pow10Next(n: nat)
    ensures Pow10(n + 1) == 10 * Pow10(n)
  {}

  // A literal is its digits, zeros at the end left off, over 10 to its places.
  lemma LiteralPlaces(s: string, e10: int)
    requires AllDigits(Digits(s))
    ensures Literal(s, e10) == Stripped(Digits(s)) as real * RPow(10.0, -WrittenPlaces(s, e10))
  {
    hide *;
    WrittenIs(s, e10);
    var ds, z, f := Digits(s), TrailingZeros(Digits(s)), WrittenPlaces(s, e10);
    LiteralIs(s, e10);
    StrippedIs(ds);
    TenToThe(e10 - |FracPart(s)|, z);
    assert e10 - |FracPart(s)| + z == -f;
    MoveFactor(Stripped(ds), Pow10(z), RPow(10.0, e10 - |FracPart(s)|), RPow(10.0, -f));
  }

  lemma WrittenIs(s: string, e10: int)
    ensures WrittenPlaces(s, e10) == |FracPart(s)| - e10 - TrailingZeros(Digits(s))
    ensures AllDigits(Digits(s)) && Written(s, e10) == DecimalOf(Stripped(Digits(s)), WrittenPlaces(s, e10))
    ensures Written(s, e10).places == WrittenPlaces(s, e10)
  {}

  // Its last digit is not a zero.
  lemma LastDigit(ds: string)
    requires AllDigits(ds) && DVal(ds) > 0
    ensures Stripped(ds) % 10 != 0
  {
    hide DVal, Pow10;
    StrippedIs(ds);
    NoMoreZeros(ds);
    NoDigits();
    var es := ds[..|ds| - TrailingZeros(ds)];
    if es != "" {
      LastOf(es);
      NotTenfold(DVal(es[..|es| - 1]), DigitOf(es[|es| - 1]));
    }
  }

  lemma NoDigits()
    ensures DVal("") == 0
  {}

  lemma LastOf(ds: string)
    requires AllDigits(ds) && ds != ""
    ensures DVal(ds) == DVal(ds[..|ds| - 1]) * 10 + DigitOf(ds[|ds| - 1])
    ensures ds[|ds| - 1] != '0' ==> 0 < DigitOf(ds[|ds| - 1]) < 10
  {}

  lemma NotTenfold(a: nat, d: nat)
    requires 0 < d < 10
    ensures (a * 10 + d) % 10 != 0
  {}

  lemma {:induction false} NoMoreZeros(ds: string)
    ensures var n := |ds| - TrailingZeros(ds); n > 0 ==> ds[n - 1] != '0'
  {
    if ds != "" && ds[|ds| - 1] == '0' {
      NoMoreZeros(ds[..|ds| - 1]);
    }
  }

  lemma WrittenReal(s: string, e10: int)
    requires AllDigits(Digits(s)) && DVal(Digits(s)) > 0
    ensures Literal(s, e10) == Real(Written(s, e10)) && Reduced(Written(s, e10)) && NoZeroAtEnd(Written(s, e10))
  {
    hide *;
    WrittenIs(s, e10);
    LiteralPlaces(s, e10);
    LastDigit(Digits(s));
    DecimalOfIs(Stripped(Digits(s)), WrittenPlaces(s, e10));
    RealIs(Written(s, e10));
  }

  lemma RealIs(q: Decimal)
    ensures Real(q) == Whole(q) as real * RPow(10.0, -q.places) && (NoZeroAtEnd(q) <==> Whole(q) % 10 != 0)
  {}

  lemma MoveFactor(n: nat, t: nat, r1: real, r: real)
    requires t as real * r1 == r
    ensures (n * t) as real * r1 == n as real * r
  {
    assert (n * t) as real == n as real * t as real;
    MulAssoc(n as real, t as real, r1);
  }

  // A literal with digits cut, against the marked words it left: v is an odd number of units.
  lemma CutLiteral(s: string, e10: int, p: Packing, dc: nat, n: int)
    requires AllDigits(Digits(s)) && Kept(DVal(Digits(s)), p, dc, true) && n == dc - |FracPart(s)| + e10
    ensures var u := RPow(10.0, n - KEPT); var t, v := Literal(s, e10), Cut(p, n);
            && u > 0.0 && Packed(p) % 2 == 1 && t != v
            && (Packed(p) - 1) as real * u < t < (Packed(p) + 1) as real * u
            && RPow(10.0, n - 1) <= t < RPow(10.0, n)
  {
    hide *;
    KeptMarked(DVal(Digits(s)), p, dc);
    var m, unit := Packed(p), Pow10(dc - KEPT);
    LiteralBounds(s, e10, dc, n);
    LiteralIs(s, e10);
    TenToThe(n - dc, dc - KEPT);
    assert n - dc + (dc - KEPT) == n - KEPT;
    RPowPositive(10.0, n - dc);
    RPowPositive(10.0, n - KEPT);
    CutIs(p, n);
    MarkedReal(DVal(Digits(s)), m, unit, RPow(10.0, n - dc), RPow(10.0, n - KEPT));
  }

  lemma KeptMarked(n: nat, p: Packing, dc: nat)
    requires Kept(n, p, dc, true)
    ensures 0 < KEPT < dc && Marked(n, Packed(p), Pow10(dc - KEPT)) && Pow10(dc - 1) <= n < Pow10(dc) && Packed(p) % 2 == 1
    ensures |p.words| == KMAX - 3 && p.j == 0 && Wf(p)
  {}

  lemma MarkedReal(n: nat, m: nat, unit: nat, x: real, u: real)
    requires Marked(n, m, unit) && x > 0.0 && u == unit as real * x
    ensures n as real * x != m as real * u && (m - 1) as real * u < n as real * x < (m + 1) as real * u
  {
    UnitOrder(m - 1, unit, x, u, n);
    UnitOrder(m + 1, unit, x, u, n);
    UnitOrder(m, unit, x, u, n);
  }

  lemma UnitOrder(m: nat, unit: nat, x: real, u: real, n: nat)
    requires x > 0.0 && u == unit as real * x
    ensures m * unit < n ==> m as real * u < n as real * x
    ensures n < m * unit ==> n as real * x < m as real * u
  {
    MoveFactor(m, unit, x, u);
    if m * unit < n {
      Below((m * unit) as real, n as real, x);
    } else if n < m * unit {
      Below(n as real, (m * unit) as real, x);
    }
  }

  // Two units of the last of f decimal places.
  function DoubleUnit(f: int): real {
    2.0 * RPow(10.0, -f)
  }

  // The words left of a cut literal with its point n digits in.
  ghost function Cut(p: Packing, n: int): real {
    Packed(p) as real * RPow(10.0, n - KEPT)
  }

  // 2^e is a whole number of double units in the last of f places.
  lemma TwoGrid(f: int, e: int) returns (k: int)
    requires f >= 0 && e + f >= 1
    ensures RPow(2.0, e) == k as real * DoubleUnit(f)
  {
    hide RPow, Pow2, Pow5;
    k := Pow2(e + f - 1) * Pow5(f);
    TenIsTwoFives(-f);
    FiveToThe(-f, f);
    RPowZero(5.0);
    TwoToThe(-f, e + f - 1);
    assert -f + (e + f - 1) == e - 1;
    RPowSucc(2.0, e - 1);
    TwoGridArith(k, Pow2(e + f - 1), Pow5(f), RPow(2.0, -f), RPow(5.0, -f), RPow(2.0, e - 1), RPow(2.0, e), RPow(10.0, -f));
  }

  lemma TwoGridArith(k: int, a: nat, b: nat, x: real, y: real, h: real, d: real, t: real)
    requires k == a * b && b as real * y == 1.0 && h == a as real * x && d == 2.0 * h && t == x * y
    ensures d == k as real * (2.0 * t)
  {
    assert k as real == a as real * b as real;
    assert k as real * (x * y) == (a as real * x) * (b as real * y);
  }

  lemma TenGrid(f: int) returns (k: int)
    requires f >= -34
    ensures RPow(10.0, 35) == k as real * DoubleUnit(f)
  {
    hide RPow, Pow10;
    k := 5 * Pow10(34 + f);
    TenToThe(-f, 34 + f);
    assert -f + (34 + f) == 34;
    RPowSucc(10.0, 34);
    TenGridArith(k, Pow10(34 + f), RPow(10.0, -f), RPow(10.0, 34));
  }

  lemma TenGridArith(k: int, a: nat, t: real, h: real)
    requires k == 5 * a && h == a as real * t
    ensures 10.0 * h == k as real * (2.0 * t)
  {}

  // Numbers on both sides of an odd multiple of u, within one u, are alike at 2u.
  lemma CutAlike(m: nat, u: real, t: real, v: real, h: real)
    requires u > 0.0 && m % 2 == 1 && (m - 1) as real * u < t < (m + 1) as real * u && v == m as real * u && h == 2.0 * u
    ensures Alike(t, v, h) && v - t <= u && t - v <= u
  {
    hide Alike;
    var j := (m - 1) / 2;
    assert m == 2 * j + 1;
    Doubled(j, u);
    Doubled(j + 1, u);
    Below((m - 1) as real, m as real, u);
    Below(m as real, (m + 1) as real, u);
    SameCell(t, v, h, j);
    assert (m - 1) as real * u == v - u && (m + 1) as real * u == v + u;
  }

  lemma Doubled(j: int, u: real)
    ensures Multiple(j, 2.0 * u) == (2 * j) as real * u
  {}

  lemma AlikeOrder(a: real, b: real, h: real, k: int, x: real)
    requires Alike(a, b, h) && x == k as real * h
    ensures (a < x <==> b < x) && (a > x <==> b > x)
  {
    assert x == Multiple(k, h);
  }

  // What holds of a literal's size holds of the words that are left of it.
  lemma CutSize(t: real, v: real, f: int)
    requires f >= 0 && Alike(t, v, DoubleUnit(f))
    ensures t >= RPow(10.0, 35) <==> v >= RPow(10.0, 35)
    ensures RoomFor(t, 0, 0, f) <==> RoomFor(v, 0, 0, f)
    ensures NoMerge(t, 0, f) <==> NoMerge(v, 0, f)
  {
    hide RPow, Alike, DoubleUnit;
    var k := TenGrid(f);
    AlikeOrder(t, v, DoubleUnit(f), k, RPow(10.0, 35));
    var k2 := TwoGrid(f, 18498 - f);
    AlikeOrder(t, v, DoubleUnit(f), k2, RPow(2.0, 18498 - f));
  }

  // The words left of a cut literal are a speck away from it.
  lemma CutNear(t: real, v: real, n: int)
    requires t >= RPow(10.0, n - 1) && v - t <= RPow(10.0, n - KEPT) && t - v <= RPow(10.0, n - KEPT)
    ensures Near(t, v, 1)
  {
    hide RPow, Specks;
    assert KEPT == 18405;
    RPowPositive(10.0, n - 1);
    SpeckAtLeast(t, n);
    OneSpeck(t);
  }

  lemma SpeckAtLeast(t: real, n: int)
    requires t >= RPow(10.0, n - 1)
    ensures Speck(t) >= RPow(10.0, n - 18405)
  {
    hide RPow;
    RPowAdd(10.0, -18404, n - 1);
    assert -18404 + (n - 1) == n - 18405;
    RPowPositive(10.0, -18404);
    Ordered(RPow(10.0, n - 1), t, RPow(10.0, -18404));
  }

  lemma OneSpeck(t: real)
    ensures Specks(1, t) == Speck(t)
  {}

  lemma NearChain(t: real, d: real, now: real, k: int, k': int, n: int)
    requires Near(t, d, k) && Near(d, now, k') && 0 <= k <= 1_000_000 && k' >= 0 && n >= k + 2 * k'
    ensures Near(t, now, n)
  {
    hide Specks, Speck;
    NearHalf(t, d, k);
    SpecksDouble(t, d, k');
    SpecksSum(t, k, k', n);
  }

  lemma SpecksDouble(t: real, d: real, k: int)
    requires d <= 2.0 * t && k >= 0
    ensures Specks(k, d) <= Specks(2 * k, t)
  {
    SpeckGrows(d, t);
    hide Speck;
    Ordered(Speck(d), 2.0 * Speck(t), k as real);
  }

  lemma SpecksSum(t: real, k: int, k': int, n: int)
    requires t > 0.0 && n >= k + 2 * k'
    ensures Specks(k, t) + Specks(2 * k', t) <= Specks(n, t)
  {
    SpecksMore(k + 2 * k', n, t);
    hide Speck;
    assert (k + 2 * k') as real == k as real + (2 * k') as real;
  }

  // What the three loops make of a number v of so many places.
  ghost predicate Rescaled(v: real, q: Decimal, now: real, e2: int) {
    && (RoomFor(v, q.twos, q.fives, q.places) ==> now == v)
    && (NoMerge(v, q.fives, q.places) ==> Alike(v, now, RPow(2.0, e2 - 1)))
    && Near(v, now, 500_000)
    && (v >= RPow(10.0, 35) ==> e2 >= 0)
  }

  lemma AlikeLater(a: real, b: real, e: int, e': int)
    requires Alike(a, b, RPow(2.0, e - 1)) && e <= e'
    ensures Alike(a, b, RPow(2.0, e' - 1))
  {
    hide RPow, Alike;
    TwoToThe(e - 1, e' - e);
    assert e - 1 + (e' - e) == e' - 1;
    AlikeCoarser(a, b, RPow(2.0, e - 1), Pow2(e' - e), RPow(2.0, e' - 1));
  }

  lemma NearDigits(t: real, now: real, k: int)
    requires Near(t, now, k) && k <= 1_000_001
    ensures now - t <= RPow(10.0, -18397) * t && t - now <= RPow(10.0, -18397) * t
  {
    hide RPow;
    SpecksMore(k, 10_000_000, t);
    TenToThe(-18404, 7);
    assert -18404 + 7 == -18397;
    TenMillion();
    MulAssoc(10_000_000.0, RPow(10.0, -18404), t);
  }

  lemma TenMillion()
    ensures Pow10(7) == 10_000_000
  {}

  // Two numbers of units of 10^-f are a unit apart, and what merges change of fewer than 10^18398
  // units is less: only an equal multiple could be told apart, and none has so many places.
  lemma FewDigitsAlike(v: real, q: Decimal, n: nat, now: real, e: int)
    requires v == n as real * RPow(10.0, -q.places) && v == Real(q) && Reduced(q)
    requires n < Pow10(18398) && Near(v, now, 500_000) && e >= -16494 && q.places > 18370 && q.places - q.fives > 0
    ensures Alike(v, now, RPow(2.0, e - 1))
  {
    hide RPow, Pow10, Near, Real, DoubleUnit, Specks;
    var u, h := RPow(10.0, -q.places), RPow(2.0, e - 1);
    var j := TwoGrid(q.places, e - 1);
    RPowPositive(10.0, -q.places);
    UnderAUnit(v, n, u, now);
    DoubleUnitIs(q.places);
    forall k: int
      ensures (v < Multiple(k, h) <==> now < Multiple(k, h)) && (v > Multiple(k, h) <==> now > Multiple(k, h))
    {
      NotDyadic(v, q, k, e - 1);
      TwiceTimes(k, j, u, h);
      UnitsApart(n, 2 * (k * j), u, v, Multiple(k, h), now);
    }
  }

  lemma DoubleUnitIs(f: int)
    ensures DoubleUnit(f) == 2.0 * RPow(10.0, -f)
  {}

  lemma TwiceTimes(k: int, j: int, u: real, h: real)
    requires h == j as real * (2.0 * u)
    ensures Multiple(k, h) == (2 * (k * j)) as real * u
  {
    assert (k * j) as real == k as real * j as real;
    assert k as real * (j as real * (2.0 * u)) == k as real * j as real * (2.0 * u);
  }

  lemma UnitsApart(n: int, m: int, u: real, v: real, x: real, now: real)
    requires u > 0.0 && v == n as real * u && x == m as real * u && v != x && now - v < u && v - now < u
    ensures (v < x <==> now < x) && (v > x <==> now > x)
  {
    if n < m {
      OneUnitMore(n as real, m as real, u, v, x);
    } else if m < n {
      OneUnitMore(m as real, n as real, u, x, v);
    }
  }

  lemma OneUnitMore(a: real, b: real, u: real, x: real, y: real)
    requires a + 1.0 <= b && u > 0.0 && x == a * u && y == b * u
    ensures x + u <= y
  {
    Ordered(a + 1.0, b, u);
  }

  lemma UnderAUnit(v: real, n: nat, u: real, now: real)
    requires v == n as real * u && u > 0.0 && n < Pow10(18398) && Near(v, now, 500_000)
    ensures now - v < u && v - now < u && v > 0.0
  {
    hide RPow, Pow10;
    var s := RPow(10.0, -18404);
    TenToThe(-18404, 18398);
    TenToThe(-6, 6);
    RPowZero(10.0);
    PowTenSix();
    RPowPositive(10.0, -18404);
    Ordered(n as real, Pow10(18398) as real, s);
    assert -18404 + 18398 == -6;
    SmallPart(n as real, s, u, v);
    assert Specks(500_000, v) == 500_000.0 * (s * v);
  }

  lemma SmallPart(n: real, s: real, u: real, v: real)
    requires n * s <= 0.000_001 && u > 0.0 && v == n * u
    ensures 500_000.0 * (s * v) < u
  {
    Ordered(n * s, 0.000_001, u);
    assert s * (n * u) == n * s * u;
  }

  lemma PowTenSix()
    ensures Pow10(6) == 1_000_000
  {}

  // No multiple of a power of two needs a place for a five.
  lemma NotDyadic(v: real, q: Decimal, k: int, e: int)
    requires v == Real(q) && v > 0.0 && Reduced(q) && q.places - q.fives > 0
    ensures v != Multiple(k, RPow(2.0, e))
  {
    hide RPow, Real;
    if v == Multiple(k, RPow(2.0, e)) {
      RPowPositive(2.0, e);
      PositiveFactor(k, RPow(2.0, e));
      WordValue(k, e);
      FivesNeeded([k], 9, e, q);
    }
  }

  lemma PositiveFactor(k: int, p: real)
    requires p > 0.0 && k as real * p > 0.0
    ensures k > 0
  {}

  lemma WordValue(k: nat, e: int)
    ensures Value([k], 9, e) == Multiple(k, RPow(2.0, e))
  {
    RPowZero(10.0);
    HornerAppend(0, [], k);
    assert [] + [k] == [k];
  }

  lemma {:induction false} ZerosBehind(ds: string, i: nat)
    requires i < |ds| && ds[i] != '0'
    ensures TrailingZeros(ds) < |ds| - i
  {
    if ds[|ds| - 1] == '0' {
      ZerosBehind(ds[..|ds| - 1], i);
    }
  }

  lemma CutIsLong(s: string)
    requires Truncated(s)
    ensures DigitCount(s) > KEPT
  {
    hide IntPart, FracPart, LeadingZeros, TrailingZeros;
    var ds := Digits(s);
    var i :| LeadingZeros(ds) + KEPT <= i < |ds| && ds[i] != '0';
    ZerosBehind(ds, i);
  }

  lemma StrippedSize(s: string)
    requires AllDigits(Digits(s)) && DVal(Digits(s)) < Pow10(Significant(Digits(s))) && DigitCount(s) <= 18398
    ensures Stripped(Digits(s)) < Pow10(18398)
  {
    hide Pow10, DVal, IntPart, FracPart, Significant, TrailingZeros, Stripped;
    var ds := Digits(s);
    var n, z, dc := Stripped(ds), TrailingZeros(ds), Significant(ds);
    StrippedIs(ds);
    Pow10Grows(dc, 18398 + z);
    Pow10Product(18398, z);
    LessFactor(n, Pow10(18398), Pow10(z));
  }

  lemma LessFactor(a: nat, b: nat, c: nat)
    requires a * c < b * c
    ensures a < b
  {
    if a >= b {
      MoreTimes(b, a, c);
    }
  }

  lemma MoreTimes(a: nat, b: nat, c: nat)
    requires a <= b
    ensures a * c <= b * c
  {}

  lemma {:induction false} Pow10Product(n: nat, m: nat)
    ensures Pow10(n) * Pow10(m) == Pow10(n + m)
  {
    if m > 0 {
      Pow10Product(n, m - 1);
      var a, b := Pow10(n), Pow10(m - 1);
      assert a * (10 * b) == 10 * (a * b);
    } else {
      assert Pow10(0) == 1;
    }
  }

  lemma Pow10Grows(n: nat, m: nat)
    requires n <= m
    ensures Pow10(n) <= Pow10(m)
  {
    hide Pow10;
    Pow10Product(n, m - n);
    Pow10Positive(m - n);
    MoreTimes(1, Pow10(m - n), Pow10(n));
  }

  lemma CarriesUncut(s: string, e10: int, emin: int, now: real, e2: int)
    requires AllDigits(Digits(s)) && DVal(Digits(s)) < Pow10(Significant(Digits(s))) && emin >= -16494
    requires !Truncated(s) && Rescaled(Literal(s, e10), Written(s, e10), now, e2)
    ensures Carries(now, e2, s, e10, emin)
  {
    hide RPow, Alike, Near, RoomFor, NoMerge, Literal, Truncated, Unmerged, HasRoom, Written, WrittenPlaces, DVal, Pow10, Digits,
      Stripped, DigitCount, Significant;
    var t := Literal(s, e10);
    UncutRoom(s, e10);
    if Unmerged(s, e10) {
      AlikeLater(t, now, e2, Larger(e2, emin));
    } else if DigitCount(s) <= 18398 {
      MergedAlike(s, e10, now, Larger(e2, emin));
    }
    NearDigits(t, now, 500_000);
  }

  lemma MergedAlike(s: string, e10: int, now: real, e: int)
    requires AllDigits(Digits(s)) && DVal(Digits(s)) < Pow10(Significant(Digits(s))) && !Truncated(s)
    requires !Unmerged(s, e10) && DigitCount(s) <= 18398 && Near(Literal(s, e10), now, 500_000) && e >= -16494
    ensures Alike(Literal(s, e10), now, RPow(2.0, e - 1))
  {
    hide *;
    var t := Literal(s, e10);
    ManyPlaces(s, e10);
    NotZero(s, e10, now);
    WrittenReal(s, e10);
    WrittenIs(s, e10);
    LiteralPlaces(s, e10);
    StrippedSize(s);
    FewDigitsAlike(t, Written(s, e10), Stripped(Digits(s)), now, e);
  }

  lemma ManyPlaces(s: string, e10: int)
    requires !Truncated(s) && !Unmerged(s, e10)
    ensures Written(s, e10).places > 18370 && Written(s, e10).places - Written(s, e10).fives > 0
  {
    hide Literal, RPow, Digits, Truncated, Stripped;
  }

  lemma NotZero(s: string, e10: int, now: real)
    requires AllDigits(Digits(s)) && Near(Literal(s, e10), now, 500_000)
    ensures DVal(Digits(s)) > 0
  {
    hide RPow, DVal, Digits, FracPart;
    LiteralIs(s, e10);
  }

  lemma UncutRoom(s: string, e10: int)
    requires !Truncated(s)
    ensures var q := Written(s, e10);
            && (HasRoom(s, e10) <==> RoomFor(Literal(s, e10), q.twos, q.fives, q.places))
            && (Unmerged(s, e10) <==> NoMerge(Literal(s, e10), q.fives, q.places))
  {}

  lemma CutRoom(s: string, e10: int)
    requires Truncated(s)
    ensures HasRoom(s, e10) <==> RoomFor(Literal(s, e10), 0, 0, KEPT - PointAt(s, e10))
    ensures Comparable(s, e10) <==> NoMerge(Literal(s, e10), 0, KEPT - PointAt(s, e10))
  {
    hide DigitCount, NoMerge, RoomFor;
    CutIsLong(s);
  }

  // A cut literal against what is left of it: not the same, but a speck away, and alike at two
  // units of the last digit kept.
  lemma CutFacts(s: string, e10: int, p: Packing, dc: nat, n: int)
    requires AllDigits(Digits(s)) && Kept(DVal(Digits(s)), p, dc, true) && n == dc - |FracPart(s)| + e10
    ensures var t, v := Literal(s, e10), Cut(p, n);
            && t != v && Near(t, v, 1) && Alike(t, v, DoubleUnit(KEPT - n)) && RPow(10.0, n - 1) <= t < RPow(10.0, n)
  {
    hide RPow, Alike, Near, Literal, Kept, Digits, Packed, Cut, DoubleUnit;
    var t, u, v := Literal(s, e10), RPow(10.0, n - KEPT), Cut(p, n);
    CutLiteral(s, e10, p, dc, n);
    CutIs(p, n);
    CutAlike(Packed(p), u, t, v, DoubleUnit(KEPT - n));
    CutNear(t, v, n);
  }

  lemma CutIs(p: Packing, n: int)
    ensures Cut(p, n) == Packed(p) as real * RPow(10.0, n - KEPT) && DoubleUnit(KEPT - n) == 2.0 * RPow(10.0, n - KEPT)
    ensures |p.words| == KMAX - 3 && p.j == 0 ==> 9 * |p.words| + p.j == KEPT
  {
    assert -(KEPT - n) == n - KEPT;
  }

  // What is left of a cut literal, as a decimal.
  ghost function CutDecimal(p: Packing, n: int): Decimal {
    Decimal(0, 0, Packed(p), KEPT - n)
  }

  lemma CutReal(p: Packing, n: int)
    ensures Real(CutDecimal(p, n)) == Cut(p, n) && (Packed(p) % 2 == 1 ==> NoZeroAtEnd(CutDecimal(p, n)))
    ensures var q := CutDecimal(p, n); q.twos == q.fives == 0 && q.places == KEPT - n
  {
    hide Packed, RPow;
    NoPowers();
    assert -(KEPT - n) == n - KEPT;
  }

  lemma CarriesCut(s: string, e10: int, emin: int, p: Packing, dc: nat, n: int, now: real, e2: int)
    requires AllDigits(Digits(s)) && Kept(DVal(Digits(s)), p, dc, true) && dc == Significant(Digits(s)) && n == PointAt(s, e10)
    requires Truncated(s) && emin >= -16494 && n <= 8300
    requires Rescaled(Cut(p, n), CutDecimal(p, n), now, e2)
    ensures Carries(now, e2, s, e10, emin)
  {
    hide RPow, Alike, Near, RoomFor, NoMerge, Literal, Truncated, HasRoom, Comparable, Kept, Digits, Packed, Cut, CutDecimal,
      DoubleUnit, Larger;
    var t, v, f := Literal(s, e10), Cut(p, n), KEPT - n;
    CutReal(p, n);
    CutRoom(s, e10);
    CutFacts(s, e10, p, dc, n);
    CutSize(t, v, f);
    if NoMerge(t, 0, f) {
      var e := Larger(e2, emin);
      CutExponent(t, n, e2, emin);
      var k := TwoGrid(f, e - 1);
      AlikeCoarser(t, v, DoubleUnit(f), k, RPow(2.0, e - 1));
      AlikeLater(v, now, e2, e);
      AlikeChain(t, v, now, RPow(2.0, e - 1));
    }
    NearChain(t, v, now, 1, 500_000, 1_000_001);
    NearDigits(t, now, 1_000_001);
  }

  // The digits kept reach beyond the last bit that rounding can look at.
  lemma CutExponent(t: real, n: int, e2: int, emin: int)
    requires t >= RPow(10.0, n - 1) && n <= 8300 && emin >= -16494 && (t >= RPow(10.0, 35) ==> e2 >= 0)
    ensures Larger(e2, emin) - 1 + (KEPT - n) >= 1 && e2 <= Larger(e2, emin)
  {
    hide RPow;
    if t < RPow(10.0, 35) {
      if n > 35 {
        RPowMonotone(10.0, 35, n - 1);
      }
    }
  }

  // 36 digits left of the point are enough to need no upscaling.
  lemma NoScaling(w: seq<nat>, rp: int)
    requires |w| > 0 && AllBelow(w, WORD_MAX) && rp % 9 == 0 && Value(w, rp, 0) >= RPow(10.0, 35)
    ensures rp > 36 || (rp == 36 && w[0] >= Th(0))
  {
    hide RPow, Value, AllBelow, Num;
    TenTo36();
    RPowSucc(10.0, 35);
    RPowZero(2.0);
    if rp <= 27 {
      LeadBelow(w);
      LeadBounds(w, rp, 0, 1_073_741_826.0);
      RPowMonotone(10.0, rp - 9, 18);
      TenToTheNine(18);
      Ordered(RPow(10.0, rp - 9), RPow(10.0, 18), 1_073_741_826.0);
    } else if rp == 36 && w[0] < Th(0) {
      LeadBounds(w, rp, 0, 10_384_594.0);
    }
  }

  // Room is enough for both loops, the point of the aligned words being at rp0.
  lemma EnoughRoom(v: real, q: Decimal, rp0: int, rp: int)
    requires v == Real(q) && RoomFor(v, q.twos, q.fives, q.places) && q.places + rp0 <= 18414 && (rp <= 45 || rp == rp0)
    ensures FewPlaces(q, rp0) && Enough(v, q, rp)
  {
    hide RPow;
  }

  // The loops taken together.
  lemma RescaledIs(v: real, q: Decimal, d: real, e0: int, now: real, e2: int, up: bool, down: bool)
    requires Near(v, d, -e0) && -67400 <= e0 <= 0 && Follows(d, e0, now, e2)
    requires (up ==> d == v) && (down ==> now == d) && (NoMerge(v, q.fives, q.places) ==> up)
    requires RoomFor(v, q.twos, q.fives, q.places) && up ==> down
    requires v >= RPow(10.0, 35) ==> e0 == 0
    ensures Rescaled(v, q, now, e2)
    ensures RoomFor(v, q.twos, q.fives, q.places) ==> up && down
  {
    hide RPow, Near, Alike;
    NearChain(v, d, now, -e0, 2 * (e2 - e0), 500_000);
  }

  // What a literal must meet for the ring's words ever to denote it: as above, but for three bits
  // and eighteen places.
  ghost predicate MayHold(s: string, e10: int) {
    var q := Written(s, e10);
    Literal(s, e10) < RPow(2.0, 18501 + q.twos - q.places) && q.places - q.fives <= 18387
  }

  lemma OnlyWithRoom(s: string, e10: int, w: seq<nat>, e2: int)
    requires AllDigits(Digits(s)) && DVal(Digits(s)) > 0
    requires 0 < |w| < KMAX && AllBelow(w, WORD_MAX) && Top4(w) < TWO_113 && Value(w, 36, e2) == Literal(s, e10)
    ensures MayHold(s, e10) && Written(s, e10).places + e2 - Written(s, e10).twos <= 18387
  {
    hide RPow, Literal, Value, Top4, AllBelow, Written, Real;
    var q := Written(s, e10);
    WrittenReal(s, e10);
    TwosNeeded(w, 36, e2, q);
    FivesNeeded(w, 36, e2, q);
    TopBounds(w, e2);
    TwoToThe(e2, 114);
    Pow2Of114();
    RPowPositive(2.0, e2);
    LessThan(Literal(s, e10), Top4(w), RPow(2.0, e2), Pow2(114), RPow(2.0, e2 + 114));
    RPowMonotone(2.0, e2 + 114, 18501 + q.twos - q.places);
  }

  lemma LessThan(v: real, top: nat, b: real, c: nat, d: real)
    requires v <= (top as real + 1.08) * b && top + 2 <= c && b > 0.0 && d == c as real * b
    ensures v < d
  {
    Below(top as real + 1.08, c as real, b);
  }

  lemma Pow2Of114()
    ensures Pow2(114) == 2 * TWO_113
  {
    Pow2Of119();
  }
}
