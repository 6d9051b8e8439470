// How many decimal places a number takes, by the twos and fives in its digits.
module DecfloatPlaces {
  import opened BigDecimal
  import opened Bits
  import opened DecimalText
  import opened DecfloatRing
  import opened DecfloatBounds

  // The number 2^twos 5^fives rest / 10^places.
  datatype Decimal = Decimal(twos: nat, fives: nat, rest: nat, places: int)

  function Whole(q: Decimal): nat {
    Pow2(q.twos) * (Pow5(q.fives) * q.rest)
  }

  ghost function Real(q: Decimal): real {
    Whole(q) as real * RPow(10.0, -q.places)
  }

  // No two and no five left out.
  predicate Reduced(q: Decimal) {
    q.rest % 2 == 1 && q.rest % 5 != 0
  }

  // Its digits do not end in a zero.
  predicate NoZeroAtEnd(q: Decimal) {
    Whole(q) % 10 != 0
  }

  function Up(x: int): nat {
    if x > 0 then x else 0
  }

  // The twos, and the fives, by which the decimal exceeds what the words' unit has.
  function SpareTwos(w: seq<nat>, rp: int, e2: int, q: Decimal): int {
    q.twos - q.places - (e2 + rp - 9 * |w|)
  }

  function SpareFives(w: seq<nat>, rp: int, q: Decimal): int {
    q.fives - q.places - (rp - 9 * |w|)
  }

  // Equal numbers, as an equation of integers.
  lemma IntegerForm(w: seq<nat>, rp: int, e2: int, q: Decimal)
    requires Value(w, rp, e2) == Real(q)
    ensures var x, y := SpareTwos(w, rp, e2, q), SpareFives(w, rp, q);
            Num(w) * Pow2(Up(-x)) * Pow5(Up(-y)) == q.rest * Pow2(Up(x)) * Pow5(Up(y))
  {
    hide RPow, Num, Value, Real, Pow2, Pow5;
    var g, x, y := 9 * |w| - rp, SpareTwos(w, rp, e2, q), SpareFives(w, rp, q);
    WordParts(w, rp, e2);
    DecimalParts(q);
    var t, u := RPow(2.0, e2 - g - Up(-x)), RPow(5.0, -g - Up(-y));
    RPowPositive(2.0, e2 - g - Up(-x));
    RPowPositive(5.0, -g - Up(-y));
    TwoToThe(e2 - g - Up(-x), Up(-x));
    TwoToThe(e2 - g - Up(-x), Up(x));
    FiveToThe(-g - Up(-y), Up(-y));
    FiveToThe(-g - Up(-y), Up(y));
    assert e2 - g - Up(-x) + Up(-x) == e2 - g && e2 - g - Up(-x) + Up(x) == q.twos - q.places;
    assert -g - Up(-y) + Up(-y) == -g && -g - Up(-y) + Up(y) == q.fives - q.places;
    SameIntegers(Num(w), Pow2(Up(-x)), Pow5(Up(-y)), q.rest, Pow2(Up(x)), Pow5(Up(y)), t, u);
  }

  lemma WordParts(w: seq<nat>, rp: int, e2: int)
    ensures Value(w, rp, e2) == Num(w) as real * RPow(2.0, e2 + rp - 9 * |w|) * RPow(5.0, rp - 9 * |w|)
  {
    hide RPow, Num;
    var n := rp - 9 * |w|;
    TenIsTwoFives(n);
    RPowAdd(2.0, n, e2);
    assert n + e2 == e2 + rp - 9 * |w|;
    PartsTurned(Num(w) as real, RPow(2.0, n), RPow(5.0, n), RPow(2.0, e2));
  }

  lemma PartsTurned(n: real, a: real, b: real, c: real)
    ensures n * (a * b) * c == n * (a * c) * b
  {
    MulAssoc(n, a, b);
    MulAssoc(n, a, c);
    MulAssoc(n * a, b, c);
    MulAssoc(n * a, c, b);
  }

  lemma DecimalParts(q: Decimal)
    ensures Real(q) == q.rest as real * RPow(2.0, q.twos - q.places) * RPow(5.0, q.fives - q.places)
  {
    hide RPow, Pow2, Pow5;
    TenIsTwoFives(-q.places);
    TwoToThe(-q.places, q.twos);
    FiveToThe(-q.places, q.fives);
    assert -q.places + q.twos == q.twos - q.places && -q.places + q.fives == q.fives - q.places;
    WholeReal(q);
    PartsMixed(Pow2(q.twos) as real, Pow5(q.fives) as real, q.rest as real, RPow(2.0, -q.places), RPow(5.0, -q.places));
  }

  lemma WholeReal(q: Decimal)
    ensures Whole(q) as real == Pow2(q.twos) as real * (Pow5(q.fives) as real * q.rest as real)
  {
    hide Pow2, Pow5;
    assert (Pow5(q.fives) * q.rest) as real == Pow5(q.fives) as real * q.rest as real;
  }

  lemma PartsMixed(a: real, b: real, c: real, t: real, u: real)
    ensures a * (b * c) * (t * u) == c * (a * t) * (b * u)
  {
    assert a * (b * c) == c * a * b;
    MulAssoc(c * a * b, t, u);
    MulAssoc(c, a, t);
    MulAssoc(c * a * t, b, u);
    assert c * a * b * t == c * a * t * b;
  }

  lemma SameIntegers(n: nat, p: nat, v: nat, c: nat, p': nat, v': nat, t: real, u: real)
    requires t > 0.0 && u > 0.0
    requires n as real * (p as real * t) * (v as real * u) == c as real * (p' as real * t) * (v' as real * u)
    ensures n * p * v == c * p' * v'
  {
    PartsOut(n, p, v, t, u);
    PartsOut(c, p', v', t, u);
    Positives(t, u);
    SameFactor((n * p * v) as real, (c * p' * v') as real, t * u);
  }

  lemma PartsOut(n: nat, p: nat, v: nat, t: real, u: real)
    ensures n as real * (p as real * t) * (v as real * u) == (n * p * v) as real * (t * u)
  {
    assert (n * p * v) as real == n as real * p as real * v as real;
    MulAssoc(n as real, p as real, t);
    MulAssoc(n as real * p as real * t, v as real, u);
    MulAssoc(n as real * p as real * v as real, t, u);
    assert n as real * p as real * t * v as real == n as real * p as real * v as real * t;
  }

  // Words that do not end in zero take few more places than the decimal needs: one more for each
  // halving beyond its twos, or as many as its fives leave.
  lemma PlacesNeeded(w: seq<nat>, rp: int, e2: int, q: Decimal)
    requires |w| > 0 && 0 < w[|w| - 1] < BASE && Value(w, rp, e2) == Real(q)
    ensures 9 * |w| - rp <= q.places + e2 - q.twos + 8 || 9 * |w| - rp <= q.places - q.fives + 8
  {
    hide RPow, Num, Value, Real, Pow2, Pow5;
    var x, y := SpareTwos(w, rp, e2, q), SpareFives(w, rp, q);
    if x >= 9 && y >= 9 {
      IntegerForm(w, rp, e2, q);
      NoPowers();
      var k := NineTens(q.rest, x, y);
      LastWord(w);
      NotZeros(Num(w[..|w| - 1]), w[|w| - 1], k);
    }
  }

  lemma NoPowers()
    ensures Pow2(0) == 1 && Pow5(0) == 1
  {}

  lemma NotZeros(h: nat, last: nat, k: nat)
    requires 0 < last < BASE
    ensures h * BASE + last != k * BASE
  {}

  lemma {:induction false} TwosAdd(a: nat, b: nat)
    ensures Pow2(a + b) == Pow2(a) * Pow2(b)
  {
    if b > 0 {
      TwosAdd(a, b - 1);
      Doubled(Pow2(a), Pow2(b - 1));
    }
  }

  lemma {:induction false} FivesAdd(a: nat, b: nat)
    ensures Pow5(a + b) == Pow5(a) * Pow5(b)
  {
    if b > 0 {
      FivesAdd(a, b - 1);
      Doubled(Pow5(a), Pow5(b - 1));
    }
  }

  lemma Doubled(a: nat, b: nat)
    ensures a * (2 * b) == 2 * (a * b) && a * (5 * b) == 5 * (a * b)
  {}

  // Nine twos and nine fives make nine zeros.
  lemma NineTens(c: nat, x: int, y: int) returns (k: nat)
    requires x >= 9 && y >= 9
    ensures c * Pow2(Up(x)) * Pow5(Up(y)) == k * BASE
    ensures k == c * Pow2(Up(x - 9)) * Pow5(Up(y - 9))
  {
    hide Pow2, Pow5;
    TwosAdd(x - 9, 9);
    FivesAdd(y - 9, 9);
    NinePowers();
    k := c * Pow2(x - 9) * Pow5(y - 9);
    TensOut(c, Pow2(x - 9), Pow5(y - 9));
  }

  lemma NinePowers()
    ensures Pow2(9) == 512 && Pow5(9) == 1_953_125
  {
    assert Pow5(4) == 625;
    assert Pow5(8) == 390_625;
  }

  lemma TensOut(c: nat, p: nat, v: nat)
    ensures c * (p * 512) * (v * 1_953_125) == c * p * v * BASE
  {
    assert c * (p * 512) == c * p * 512;
    assert c * p * 512 * (v * 1_953_125) == c * p * v * (512 * 1_953_125);
  }

  // A word of exactly 10^9 at the end counts for nine places more, if the one before it is a
  // multiple of 512.
  lemma PlacesNeededFull(w: seq<nat>, rp: int, e2: int, q: Decimal)
    requires |w| > 1 && w[|w| - 1] == BASE && w[|w| - 2] % 512 == 0 && Value(w, rp, e2) == Real(q)
    ensures 9 * |w| - rp <= q.places + e2 - q.twos + 17 || 9 * |w| - rp <= q.places - q.fives + 17
  {
    hide RPow, Num, Value, Real, Pow2, Pow5;
    var x, y := SpareTwos(w, rp, e2, q), SpareFives(w, rp, q);
    if x >= 18 && y >= 18 {
      IntegerForm(w, rp, e2, q);
      NoPowers();
      var k := NineTens(q.rest, x, y);
      var k' := NineTens(q.rest, x - 9, y - 9);
      LastWord(w);
      LastWord(w[..|w| - 1]);
      NotMoreZeros(Num(w[..|w| - 1][..|w| - 2]), w[|w| - 2], k');
    }
  }

  lemma NotMoreZeros(h: nat, p: nat, k: nat)
    requires p % 512 == 0
    ensures (h * BASE + p) * BASE + BASE != (k * BASE) * BASE
  {
    assert h * BASE + p + 1 != k * BASE by {
      assert h * BASE == 512 * (h * 1_953_125) && k * BASE == 512 * (k * 1_953_125);
    }
  }

  // Conversely, words can hold a number only with a place for each two and each five it lacks.
  lemma TwosNeeded(w: seq<nat>, rp: int, e2: int, q: Decimal)
    requires Reduced(q) && Value(w, rp, e2) == Real(q)
    ensures q.places + e2 - q.twos <= 9 * |w| - rp
  {
    hide RPow, Num, Value, Real, Pow2, Pow5;
    var x, y := SpareTwos(w, rp, e2, q), SpareFives(w, rp, q);
    if x < 0 {
      IntegerForm(w, rp, e2, q);
      NoPowers();
      EvenPower(Up(-x));
      FiveOdd(Up(y));
      OddProduct(q.rest, Pow5(Up(y)));
      EvenProduct(Num(w), Pow2(Up(-x)), Pow5(Up(-y)));
    }
  }

  lemma FivesNeeded(w: seq<nat>, rp: int, e2: int, q: Decimal)
    requires Reduced(q) && Value(w, rp, e2) == Real(q)
    ensures q.places - q.fives <= 9 * |w| - rp
  {
    hide RPow, Num, Value, Real, Pow2, Pow5;
    var x, y := SpareTwos(w, rp, e2, q), SpareFives(w, rp, q);
    if y < 0 {
      IntegerForm(w, rp, e2, q);
      NoPowers();
      FivefoldPower(Up(-y));
      NoFive(q.rest, Up(x));
      FivefoldProduct(Num(w) * Pow2(Up(-x)), Pow5(Up(-y)));
    }
  }

  lemma EvenPower(k: nat)
    requires k > 0
    ensures Pow2(k) % 2 == 0
  {}

  lemma FivefoldPower(k: nat)
    requires k > 0
    ensures Pow5(k) % 5 == 0
  {}

  lemma {:induction false} FiveOdd(n: nat)
    ensures Pow5(n) % 2 == 1
  {
    if n > 0 {
      FiveOdd(n - 1);
    }
  }

  lemma OddProduct(a: nat, b: nat)
    requires a % 2 == 1 && b % 2 == 1
    ensures a * b % 2 == 1
  {
    var h, k := a / 2, b / 2;
    assert a * b == 2 * (2 * (h * k) + h + k) + 1;
  }

  lemma EvenProduct(n: nat, p: nat, v: nat)
    requires p % 2 == 0
    ensures n * p * v % 2 == 0
  {
    var h := p / 2;
    assert n * p * v == 2 * (n * h * v);
  }

  lemma FivefoldProduct(n: nat, v: nat)
    requires v % 5 == 0
    ensures n * v % 5 == 0
  {
    var h := v / 5;
    assert n * v == 5 * (n * h);
  }

  lemma {:induction false} NoFive(c: nat, k: nat)
    requires c % 5 != 0
    ensures c * Pow2(k) % 5 != 0
  {
    if k > 0 {
      NoFive(c, k - 1);
      Doubled(c, Pow2(k - 1));
      TwiceNoFive(c * Pow2(k - 1));
    } else {
      NoPowers();
    }
  }

  lemma TwiceNoFive(z: nat)
    requires z % 5 != 0
    ensures 2 * z % 5 != 0
  {}

  // Words that fill all of the ring with the point scaled down hold a number of too many places
  // for its fives, or too many bits for its twos.
  lemma FullNeeds(w: seq<nat>, rp: int, e2: int, q: Decimal)
    requires |w| == KMAX && w[0] > 0 && AllBelow(w, WORD_MAX) && 0 < w[KMAX - 1] < BASE
    requires rp >= 36 && rp % 9 == 0 && (rp == 36 ==> Top4(w) >= TWO_112) && Value(w, rp, e2) == Real(q)
    ensures q.places - q.fives + rp >= 18424 || Real(q) >= RPow(2.0, 18498 + q.twos - q.places)
  {
    hide Top4, RPow, Num, Value, AllBelow, Real;
    PlacesNeeded(w, rp, e2, q);
    ScaledSize(w, rp, e2);
    var n := e2 + if rp == 36 then 112 else 119 + 29 * ((rp - 45) / 9);
    if 18498 + q.twos - q.places <= n {
      RPowMonotone(2.0, 18498 + q.twos - q.places, n);
    }
  }

  // Words to be merged while upscaling, on the trip that brings e2 down to this, from a number
  // with its point at rp0 before.
  lemma MergeNeeds(all: seq<nat>, rp: int, e2: int, q: Decimal, rp0: int)
    requires |all| == KMAX && 0 < all[KMAX - 1] <= BASE && (all[KMAX - 1] == BASE ==> all[KMAX - 2] % 512 == 0)
    requires Value(all, rp, e2) == Real(q) && rp <= 45 && e2 <= -29 && 29 * (rp - rp0) <= -9 * e2
    ensures q.places - q.fives > 18369 || q.places + rp0 > 18414
  {
    hide RPow, Num, Value, Real;
    if all[KMAX - 1] < BASE {
      PlacesNeeded(all, rp, e2, q);
    } else {
      PlacesNeededFull(all, rp, e2, q);
    }
  }

  // A decimal that does not end in a zero has no more places than words that hold it.
  lemma PlacesHeld(w: seq<nat>, rp: int, q: Decimal)
    requires NoZeroAtEnd(q) && Value(w, rp, 0) == Real(q)
    ensures q.places <= 9 * |w| - rp
  {
    hide RPow, Num, Value, Whole, Pow10;
    var g := 9 * |w| - rp;
    if q.places > g {
      ValueUnfold(w, rp, 0);
      RPowZero(2.0);
      TenToThe(-q.places, q.places - g);
      assert -q.places + (q.places - g) == -g;
      RPowPositive(10.0, -q.places);
      SameWhole(Num(w), Pow10(q.places - g), Whole(q), RPow(10.0, -q.places));
      TensPower(q.places - g);
      Tenfold(Num(w), Pow10(q.places - g));
    }
  }

  lemma SameWhole(n: nat, p: nat, m: nat, t: real)
    requires t > 0.0 && n as real * (p as real * t) == m as real * t
    ensures n * p == m
  {
    assert (n * p) as real == n as real * p as real;
    MulAssoc(n as real, p as real, t);
    SameFactor((n * p) as real, m as real, t);
  }

  lemma TensPower(k: nat)
    requires k > 0
    ensures Pow10(k) % 10 == 0
  {}

  lemma Tenfold(n: nat, p: nat)
    requires p % 10 == 0
    ensures n * p % 10 == 0
  {
    var h := p / 10;
    assert n * p == 10 * (n * h);
  }

  function TwosIn(n: nat): nat {
    if n > 0 && n % 2 == 0 then 1 + TwosIn(n / 2) else 0
  }

  function WithoutTwos(n: nat): nat {
    if n > 0 && n % 2 == 0 then WithoutTwos(n / 2) else n
  }

  function FivesIn(n: nat): nat {
    if n > 0 && n % 5 == 0 then 1 + FivesIn(n / 5) else 0
  }

  function WithoutFives(n: nat): nat {
    if n > 0 && n % 5 == 0 then WithoutFives(n / 5) else n
  }

  // n / 10^places with its twos and fives told apart.
  function DecimalOf(n: nat, places: int): Decimal {
    var odd := WithoutTwos(n);
    Decimal(TwosIn(n), FivesIn(odd), WithoutFives(odd), places)
  }

  lemma {:induction false} TwosOut(n: nat)
    requires n > 0
    ensures n == Pow2(TwosIn(n)) * WithoutTwos(n) && WithoutTwos(n) % 2 == 1
  {
    if n % 2 == 0 {
      TwosOut(n / 2);
      MulOut(2, Pow2(TwosIn(n / 2)), WithoutTwos(n / 2));
    }
  }

  lemma {:induction false} FivesOut(n: nat)
    requires n > 0
    ensures n == Pow5(FivesIn(n)) * WithoutFives(n) && WithoutFives(n) % 5 != 0
    ensures n % 2 == 1 ==> WithoutFives(n) % 2 == 1
  {
    if n % 5 == 0 {
      FivesOut(n / 5);
      OddFifth(n, n / 5);
      MulOut(5, Pow5(FivesIn(n / 5)), WithoutFives(n / 5));
    }
  }

  lemma OddFifth(n: nat, k: nat)
    requires n == 5 * k
    ensures n % 2 == k % 2
  {
    assert n == 2 * (2 * k) + k;
  }

  lemma MulOut(a: nat, b: nat, c: nat)
    ensures (a * b) * c == a * (b * c)
  {}

  lemma DecimalOfIs(n: nat, places: int)
    requires n > 0
    ensures Whole(DecimalOf(n, places)) == n && Reduced(DecimalOf(n, places))
  {
    TwosOut(n);
    FivesOut(WithoutTwos(n));
  }
}
