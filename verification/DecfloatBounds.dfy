// What a number needs of the ring, and how far a full ring can take the words from it.
module DecfloatBounds {
  import opened BigDecimal
  import opened Bits
  import opened DecimalText
  import opened DecfloatRing

  lemma {:induction false} RPowAdd(b: real, n: int, m: int)
    requires b > 0.0
    ensures RPow(b, n + m) == RPow(b, n) * RPow(b, m)
    decreases if m < 0 then -m else m
  {
    hide RPow;
    if m > 0 {
      RPowAdd(b, n, m - 1);
      RPowSucc(b, n + m - 1);
      RPowSucc(b, m - 1);
      assert n + (m - 1) == n + m - 1;
      Shuffle(b, RPow(b, n), RPow(b, m - 1));
    } else if m < 0 {
      RPowAdd(b, n, m + 1);
      RPowSucc(b, n + m);
      RPowSucc(b, m);
      assert n + (m + 1) == n + m + 1;
      CancelFactor(b, RPow(b, n + m), RPow(b, n), RPow(b, m));
    } else {
      RPowZero(b);
    }
  }

  lemma RPowZero(b: real)
    requires b > 0.0
    ensures RPow(b, 0) == 1.0
  {}

  lemma Shuffle(b: real, y: real, z: real)
    ensures b * (y * z) == y * (b * z)
  {
    MulAssoc(b, y, z);
    MulAssoc(y, b, z);
  }

  lemma CancelFactor(b: real, x: real, y: real, z: real)
    requires b > 0.0 && b * x == y * (b * z)
    ensures x == y * z
  {
    Shuffle(b, y, z);
    SameFactor(x, y * z, b);
  }

  lemma {:induction false} RPowMonotone(b: real, n: int, m: int)
    requires b >= 1.0 && n <= m
    ensures RPow(b, n) <= RPow(b, m)
    decreases m - n
  {
    hide RPow;
    if n < m {
      RPowMonotone(b, n + 1, m);
      RPowSucc(b, n);
      RPowPositive(b, n);
      Ordered(1.0, b, RPow(b, n));
    }
  }

  lemma PowerBelow(n: int, m: int)
    requires RPow(2.0, n) < RPow(2.0, m)
    ensures n < m
  {
    if n >= m {
      RPowMonotone(2.0, m, n);
    }
  }

  function Pow5(n: nat): nat {
    if n == 0 then 1 else 5 * Pow5(n - 1)
  }

  lemma {:induction false} TenIsTwoFives(n: int)
    ensures RPow(10.0, n) == RPow(2.0, n) * RPow(5.0, n)
    decreases if n < 0 then -n else n
  {
    if n > 0 {
      TenIsTwoFives(n - 1);
      TwoFives(RPow(2.0, n - 1), RPow(5.0, n - 1));
    } else if n < 0 {
      TenIsTwoFives(n + 1);
      RPowSucc(2.0, n);
      RPowSucc(5.0, n);
      TwoFives(RPow(2.0, n), RPow(5.0, n));
    }
  }

  lemma TwoFives(a: real, b: real)
    ensures (2.0 * a) * (5.0 * b) == 10.0 * (a * b)
  {}

  lemma {:induction false} FiveToThe(n: int, m: nat)
    ensures RPow(5.0, n + m) == Pow5(m) as real * RPow(5.0, n)
    decreases m
  {
    hide RPow;
    if m > 0 {
      FiveToThe(n, m - 1);
      RPowSucc(5.0, n + m - 1);
      assert n + (m - 1) == n + m - 1;
      MulAssoc(5.0, Pow5(m - 1) as real, RPow(5.0, n));
    }
  }

  lemma {:induction false} Pow2Positive(n: nat)
    ensures Pow2(n) > 0
  {
    if n > 0 {
      Pow2Positive(n - 1);
    }
  }

  lemma ValueUnfold(w: seq<nat>, rp: int, e2: int)
    ensures Value(w, rp, e2) == Num(w) as real * RPow(10.0, rp - 9 * |w|) * RPow(2.0, e2)
  {}

  lemma Positives(t: real, u: real)
    requires t > 0.0 && u > 0.0
    ensures t * u > 0.0
  {}

  lemma SameFactor(a: real, b: real, c: real)
    requires c > 0.0 && a * c == b * c
    ensures a == b
  {
    assert (a - b) * c == 0.0;
  }

  lemma LastWord(w: seq<nat>)
    requires |w| > 0
    ensures Num(w) == Num(w[..|w| - 1]) * BASE + w[|w| - 1]
  {
    assert w == w[..|w| - 1] + [w[|w| - 1]];
    HornerAppend(0, w[..|w| - 1], w[|w| - 1]);
  }

  // `acc` and then words below the point: at least acc, and not much more than acc + 1 as long
  // as no word is much more than 10^9.
  lemma {:induction false} TailBounds(acc: nat, s: seq<nat>, bound: nat, c: real)
    requires AllBelow(s, bound + 1) && bound as real + c <= 1_000_000_000.0 * c
    ensures acc as real <= Horner(acc, s) as real * RPow(10.0, -9 * |s|) <= acc as real + c
    decreases |s|
  {
    hide *;
    HornerUnfold(acc, s, bound);
    if s != [] {
      var h, t := Horner(acc, s), RPow(10.0, -9 * |s|);
      TailBounds(acc * BASE + s[0], s[1..], bound, c);
      TenToTheNine(-9 * |s|);
      assert -9 * |s| + 9 == -9 * |s[1..]|;
      Divide(h as real, t, (acc * BASE + s[0]) as real, acc as real, s[0] as real, bound as real, c);
    } else {
      RPowZero(10.0);
    }
  }

  lemma HornerUnfold(acc: nat, s: seq<nat>, bound: nat)
    requires AllBelow(s, bound + 1)
    ensures s == [] ==> Horner(acc, s) == acc
    ensures s != [] ==> Horner(acc, s) == Horner(acc * BASE + s[0], s[1..]) && s[0] <= bound && AllBelow(s[1..], bound + 1)
                        && (acc * BASE + s[0]) as real == acc as real * 1_000_000_000.0 + s[0] as real
  {}

  lemma Divide(h: real, t: real, b: real, acc: real, d: real, bound: real, c: real)
    requires b == acc * 1_000_000_000.0 + d && 0.0 <= d <= bound && bound + c <= 1_000_000_000.0 * c
    requires b <= h * (1_000_000_000.0 * t) <= b + c
    ensures acc <= h * t <= acc + c
  {
    var u := h * t;
    assert h * (1_000_000_000.0 * t) == u * 1_000_000_000.0;
  }


  // The leading word gives the size of the number.
  lemma LeadBounds(w: seq<nat>, rp: int, e2: int, hi: real)
    requires |w| > 0 && AllBelow(w, WORD_MAX) && hi >= w[0] as real + 1.08
    ensures RPow(10.0, rp - 9) * RPow(2.0, e2) > 0.0
    ensures w[0] as real * (RPow(10.0, rp - 9) * RPow(2.0, e2)) <= Value(w, rp, e2)
    ensures Value(w, rp, e2) <= hi * (RPow(10.0, rp - 9) * RPow(2.0, e2))
  {
    hide RPow, Num, Horner, Value, AllBelow;
    LeadAndTail(w);
    TailBounds(w[0], w[1..], 0x3FFF_FFFF, 1.08);
    ValueUnfold(w, rp, e2);
    RPowAdd(10.0, -9 * |w[1..]|, rp - 9);
    assert -9 * |w[1..]| + (rp - 9) == rp - 9 * |w|;
    RPowPositive(10.0, rp - 9);
    RPowPositive(2.0, e2);
    ScaledBy(Num(w) as real, RPow(10.0, -9 * |w[1..]|), RPow(10.0, rp - 9), RPow(2.0, e2), w[0] as real, hi);
  }

  lemma LeadAndTail(w: seq<nat>)
    requires |w| > 0 && AllBelow(w, WORD_MAX)
    ensures Num(w) == Horner(w[0], w[1..]) && AllBelow(w[1..], 0x3FFF_FFFF + 1)
    ensures 0x3FFF_FFFF as real + 1.08 <= 1_000_000_000.0 * 1.08
  {}

  lemma ScaledBy(n: real, t: real, a: real, b: real, lo: real, hi: real)
    requires a > 0.0 && b > 0.0 && lo <= n * t <= hi
    ensures a * b > 0.0 && lo * (a * b) <= n * (t * a) * b <= hi * (a * b)
  {
    MulAssoc(n, t, a);
    MulAssoc(n * t, a, b);
    Positives(a, b);
    Ordered(lo, n * t, a * b);
    Ordered(n * t, hi, a * b);
  }

  lemma Ordered(a: real, b: real, c: real)
    requires a <= b && c >= 0.0
    ensures a * c <= b * c
  {
    assert (b - a) * c >= 0.0;
  }

  lemma {:induction false} TenAboveTwo(i: nat)
    ensures RPow(10.0, 36 + 9 * i) >= RPow(2.0, 119 + 29 * i)
  {
    hide RPow;
    if i > 0 {
      TenAboveTwo(i - 1);
      TenToTheNine(36 + 9 * (i - 1));
      TwoToThe(119 + 29 * (i - 1), 29);
      Pow2Values();
      RPowPositive(2.0, 119 + 29 * (i - 1));
    } else {
      TenTo36();
      RPowZero(2.0);
      TwoToThe(0, 119);
      assert Pow2(119) == 0x80_0000_0000_0000_0000_0000_0000_0000 by { Pow2Of119(); }
    }
  }

  lemma Pow2Of119()
    ensures Pow2(112) == TWO_112 && Pow2(113) == TWO_113 && Pow2(119) == 0x80_0000_0000_0000_0000_0000_0000_0000
  {
    Pow2Of60();
    assert Pow2(65) == 32 * Pow2(60);
    assert Pow2(75) == 1024 * Pow2(65);
    assert Pow2(85) == 1024 * Pow2(75);
    assert Pow2(95) == 1024 * Pow2(85);
    assert Pow2(105) == 1024 * Pow2(95);
    assert Pow2(112) == 128 * Pow2(105);
    assert Pow2(119) == 128 * Pow2(112);
  }

  lemma Pow2Of60()
    ensures Pow2(60) == 0x1000_0000_0000_0000
  {
    Pow2Values();
    assert Pow2(40) == 256 * Pow2(32);
    assert Pow2(50) == 1024 * Pow2(40);
  }

  lemma TenTo36()
    ensures RPow(10.0, 27) == 1_000_000_000_000_000_000_000_000_000.0
    ensures RPow(10.0, 36) == 1_000_000_000_000_000_000_000_000_000_000_000_000.0
  {
    RPowZero(10.0);
    hide RPow;
    TenToTheNine(0);
    TenToTheNine(9);
    TenToTheNine(18);
    TenToTheNine(27);
  }

  // The number the words denote with the point after the fourth; the value is
  // this times 2^e2.
  function FourWordValue(w: seq<nat>): real {
    Num(w) as real * RPow(10.0, 36 - 9 * |w|)
  }

  // The four leading words are its integer part, but for what words beyond 10^9 can add.
  lemma IntegerPart(w: seq<nat>, bound: nat, c: real)
    requires AllBelow(w, bound + 1) && c >= 0.0 && bound as real + c <= 1_000_000_000.0 * c
    ensures Top4(w) as real <= FourWordValue(w) <= Top4(w) as real + c
    decreases 4 - |w|
  {
    hide Top4, FourWordValue, RPow, Horner, Num;
    if |w| >= 4 {
      FourAndTail(w);
      TailBounds(Top4(w), w[4..], bound, c);
    } else {
      IntegerPart(w + [0], bound, c);
      ZeroAtEnd(w);
      FourWordZero(w);
    }
  }

  lemma FourWordZero(w: seq<nat>)
    ensures FourWordValue(w + [0]) == FourWordValue(w)
  {
    hide RPow, Num;
    ValueAppendZero(w, 36, 0);
    RPowZero(2.0);
  }

  lemma FourAndTail(w: seq<nat>)
    requires |w| >= 4
    ensures FourWordValue(w) == Horner(Top4(w), w[4..]) as real * RPow(10.0, -9 * |w[4..]|)
  {
    LeadingFour(w);
    assert 36 - 9 * |w| == -9 * |w[4..]|;
  }

  lemma ZeroAtEnd(w: seq<nat>)
    ensures Top4(w + [0]) == Top4(w)
  {
    assert forall i: nat :: WordAt(w + [0], i) == WordAt(w, i);
  }

  lemma LeadingFour(w: seq<nat>)
    requires |w| >= 4
    ensures Num(w) == Horner(Top4(w), w[4..])
  {
    assert w[1..][1..] == w[2..] && w[2..][1..] == w[3..] && w[3..][1..] == w[4..];
    assert Num(w) == Horner(w[0], w[1..]);
    assert Horner(w[0], w[1..]) == Horner(w[0] * BASE + w[1], w[2..]);
    var a := w[0] * BASE + w[1];
    assert Horner(a, w[2..]) == Horner(a * BASE + w[2], w[3..]);
    var b := a * BASE + w[2];
    assert Horner(b, w[3..]) == Horner(b * BASE + w[3], w[4..]);
  }

  // Top4 and the exponent give the size of the number.
  lemma TopBounds(w: seq<nat>, e2: int)
    requires AllBelow(w, WORD_MAX)
    ensures Top4(w) as real * RPow(2.0, e2) <= Value(w, 36, e2) <= (Top4(w) as real + 1.08) * RPow(2.0, e2)
  {
    hide Top4, RPow, Num;
    WordsBelow(w);
    IntegerPart(w, 0x3FFF_FFFF, 1.08);
    RPowPositive(2.0, e2);
    Ordered(Top4(w) as real, FourWordValue(w), RPow(2.0, e2));
    Ordered(FourWordValue(w), Top4(w) as real + 1.08, RPow(2.0, e2));
  }

  lemma WordsBelow(w: seq<nat>)
    requires AllBelow(w, WORD_MAX)
    ensures AllBelow(w, 0x3FFF_FFFF + 1) && 0x3FFF_FFFF as real + 1.08 <= 1_000_000_000.0 * 1.08
  {}

  // Downscaled this far, the number is at least 2^(112 + e2), and more with more words.
  lemma ScaledSize(w: seq<nat>, rp: int, e2: int)
    requires |w| > 0 && w[0] > 0 && AllBelow(w, WORD_MAX) && rp >= 36 && rp % 9 == 0
    requires rp == 36 ==> Top4(w) >= TWO_112
    ensures Value(w, rp, e2) >= RPow(2.0, e2 + if rp == 36 then 112 else 119 + 29 * ((rp - 45) / 9))
  {
    hide Top4, RPow, Num, Value, AllBelow;
    RPowPositive(2.0, e2);
    if rp == 36 {
      TopBounds(w, e2);
      TwoToThe(e2, 112);
      Pow2Of119();
      Chain(Value(w, 36, e2), 1.0, Top4(w) as real, RPow(2.0, e2), TWO_112 as real, RPow(2.0, e2 + 112));
    } else {
      var i := (rp - 45) / 9;
      LeadBounds(w, rp, e2, w[0] as real + 1.08);
      assert rp - 9 == 36 + 9 * i;
      TenAboveTwo(i);
      RPowAdd(2.0, e2, 119 + 29 * i);
      Chain(Value(w, rp, e2), w[0] as real, RPow(10.0, rp - 9), RPow(2.0, e2), RPow(2.0, 119 + 29 * i), RPow(2.0, e2 + (119 + 29 * i)));
    }
  }

  lemma Chain(v: real, w: real, a: real, b: real, c: real, d: real)
    requires w >= 1.0 && a >= c && b > 0.0 && a >= 0.0 && v >= w * (a * b) && d == c * b
    ensures v >= d
  {
    Ordered(c, a, b);
    Ordered(1.0, w, a * b);
  }

  lemma Below(a: real, b: real, c: real)
    requires a < b && c > 0.0
    ensures a * c < b * c
  {
    assert (b - a) * c > 0.0;
  }

  function Multiple(k: int, h: real): real {
    k as real * h
  }

  // Two numbers that no multiple of h tells apart: each is as far as rounding at h can see where
  // the other is.
  ghost predicate Alike(a: real, b: real, h: real) {
    forall k: int {:trigger Multiple(k, h)} ::
      (a < Multiple(k, h) <==> b < Multiple(k, h)) && (a > Multiple(k, h) <==> b > Multiple(k, h))
  }

  lemma AlikeChain(a: real, b: real, c: real, h: real)
    requires Alike(a, b, h) && Alike(b, c, h)
    ensures Alike(a, c, h)
  {}

  lemma AlikeSelf(a: real, h: real)
    ensures Alike(a, a, h)
  {}

  // What a grid does not tell apart a coarser one does not either.
  lemma AlikeCoarser(a: real, b: real, h: real, j: int, h2: real)
    requires Alike(a, b, h) && h2 == j as real * h
    ensures Alike(a, b, h2)
  {
    forall k: int
      ensures (a < Multiple(k, h2) <==> b < Multiple(k, h2)) && (a > Multiple(k, h2) <==> b > Multiple(k, h2))
    {
      MultipleOf(k, j, h, h2);
      assert Multiple(k, h2) == Multiple(k * j, h);
    }
  }

  lemma MultipleOf(k: int, j: int, h: real, h2: real)
    requires h2 == j as real * h
    ensures Multiple(k, h2) == Multiple(k * j, h)
  {
    assert (k * j) as real == k as real * j as real;
    MulAssoc(k as real, j as real, h);
  }

  lemma SameCell(a: real, b: real, h: real, j: int)
    requires h > 0.0 && Multiple(j, h) < a < Multiple(j + 1, h) && Multiple(j, h) < b < Multiple(j + 1, h)
    ensures Alike(a, b, h)
  {
    forall k: int
      ensures (a < Multiple(k, h) <==> b < Multiple(k, h)) && (a > Multiple(k, h) <==> b > Multiple(k, h))
    {
      hide Multiple;
      if k <= j {
        MultipleOrder(k, j, h);
      } else {
        MultipleOrder(j + 1, k, h);
      }
    }
  }

  lemma MultipleOrder(k: int, j: int, h: real)
    requires k <= j && h > 0.0
    ensures Multiple(k, h) <= Multiple(j, h)
  {
    Ordered(k as real, j as real, h);
  }

  // What one trip with a full ring, or the cut at intake, can change at most of a number t.
  function Speck(t: real): real {
    RPow(10.0, -18404) * t
  }

  function Specks(k: int, t: real): real {
    k as real * Speck(t)
  }

  // At most k specks apart.
  ghost predicate Near(t: real, r: real, k: int) {
    t > 0.0 && r - t <= Specks(k, t) && t - r <= Specks(k, t)
  }

  lemma SpeckIsSmall(t: real)
    requires t > 0.0
    ensures 0.0 < Speck(t) <= 0.000_000_001 * t
  {
    hide RPow;
    RPowPositive(10.0, -18404);
    RPowMonotone(10.0, -18404, -9);
    TenToTheNine(-9);
    RPowZero(10.0);
    Positives(RPow(10.0, -18404), t);
    Ordered(RPow(10.0, -18404), 0.000_000_001, t);
  }

  lemma SpeckGrows(r: real, t: real)
    requires r <= 2.0 * t
    ensures Speck(r) <= 2.0 * Speck(t)
  {
    hide RPow;
    RPowPositive(10.0, -18404);
    var e := RPow(10.0, -18404);
    Ordered(r, 2.0 * t, e);
    assert 2.0 * t * e == 2.0 * (e * t);
  }

  lemma SpecksBound(k: int, t: real)
    requires t > 0.0 && k <= 1_000_000
    ensures Specks(k, t) <= 0.5 * t
  {
    SpeckIsSmall(t);
    hide Speck;
    Ordered(k as real, 1_000_000.0, Speck(t));
  }

  lemma SpecksMore(k: int, k': int, t: real)
    requires t > 0.0 && k <= k'
    ensures Specks(k, t) <= Specks(k', t)
    ensures k + 2 <= k' ==> Specks(k, t) + 2.0 * Speck(t) <= Specks(k', t)
  {
    SpeckIsSmall(t);
    hide Speck;
    Ordered(k as real, k' as real, Speck(t));
    if k + 2 <= k' {
      Ordered(k as real + 2.0, k' as real, Speck(t));
    }
  }

  lemma NearSelf(t: real)
    requires t > 0.0
    ensures Near(t, t, 0)
  {
    hide Speck;
  }

  lemma NearHalf(t: real, r: real, k: int)
    requires Near(t, r, k) && k <= 1_000_000
    ensures 0.5 * t <= r <= 2.0 * t && r > 0.0
  {
    hide Specks;
    SpecksBound(k, t);
  }

  lemma NearStep(t: real, r: real, r': real, k: int, k': int)
    requires Near(t, r, k) && k <= 1_000_000 && k' >= k + 2
    requires r' - r <= Speck(r) && r - r' <= Speck(r)
    ensures Near(t, r', k')
  {
    hide Specks, Speck;
    NearHalf(t, r, k);
    SpeckGrows(r, t);
    SpecksMore(k, k', t);
  }

  lemma NearMore(t: real, r: real, k: int, k': int)
    requires Near(t, r, k) && k <= k'
    ensures Near(t, r, k')
  {
    hide Specks;
    SpecksMore(k, k', t);
  }

  // A change of up to 10^10 units, in a number of 18415 digits and more before the last one.
  lemma SmallChange(v: real, u: real, change: real)
    requires u > 0.0 && v >= RPow(10.0, 18414) * u
    requires -10_000_000_000.0 * u <= change <= 10_000_000_000.0 * u
    ensures -Speck(v) <= change <= Speck(v)
  {
    hide RPow;
    TenTo10();
    RPowAdd(10.0, -18404, 18414);
    RPowPositive(10.0, -18404);
    ChangeArith(RPow(10.0, -18404), RPow(10.0, 18414), u, v);
  }

  lemma ChangeArith(e: real, p: real, u: real, v: real)
    requires e > 0.0 && v >= p * u && e * p == 10_000_000_000.0
    ensures e * v >= 10_000_000_000.0 * u
  {
    Ordered(p * u, v, e);
    MulAssoc(e, p, u);
  }

  lemma TenTo10()
    ensures RPow(10.0, 10) == 10_000_000_000.0
  {
    RPowZero(10.0);
    hide RPow;
    TenToTheNine(0);
    RPowSucc(10.0, 9);
  }

  // One unit of the n-th word.
  function Unit(rp: int, n: int, e2: int): real {
    RPow(10.0, rp - 9 * n) * RPow(2.0, e2)
  }

  lemma InUnits(w: seq<nat>, rp: int, e2: int)
    ensures Unit(rp, |w|, e2) > 0.0 && Value(w, rp, e2) == Num(w) as real * Unit(rp, |w|, e2)
  {
    hide RPow, Num;
    RPowPositive(10.0, rp - 9 * |w|);
    RPowPositive(2.0, e2);
    Positives(RPow(10.0, rp - 9 * |w|), RPow(2.0, e2));
    MulAssoc(Num(w) as real, RPow(10.0, rp - 9 * |w|), RPow(2.0, e2));
  }

  // The words are worth at least so many units.
  lemma ManyUnits(w: seq<nat>, rp: int, e2: int, n: int)
    requires |w| > 0 && w[0] > 0 && AllBelow(w, WORD_MAX)
    ensures Value(w, rp, e2) >= RPow(10.0, 9 * n - 9) * Unit(rp, n, e2) && Unit(rp, n, e2) > 0.0
  {
    hide RPow, Num, Value, AllBelow;
    LeadBounds(w, rp, e2, w[0] as real + 1.08);
    RPowAdd(10.0, 9 * n - 9, rp - 9 * n);
    RPowPositive(10.0, rp - 9 * n);
    RPowPositive(2.0, e2);
    assert 9 * n - 9 + (rp - 9 * n) == rp - 9;
    ManyArith(Value(w, rp, e2), w[0] as real, RPow(10.0, rp - 9), RPow(2.0, e2), RPow(10.0, 9 * n - 9), RPow(10.0, rp - 9 * n));
  }

  lemma ManyArith(v: real, w: real, a: real, b: real, c: real, d: real)
    requires v >= w * (a * b) && w >= 1.0 && a == c * d && a * b > 0.0 && d > 0.0 && b > 0.0
    ensures v >= c * (d * b) && d * b > 0.0
  {
    Ordered(1.0, w, a * b);
    MulAssoc(c, d, b);
    Positives(d, b);
  }

  lemma UnitNine(rp: int, n: int, e2: int)
    ensures Unit(rp, n, e2) == 1_000_000_000.0 * Unit(rp, n + 1, e2)
  {
    hide RPow;
    TenToTheNine(rp - 9 * (n + 1));
    MulAssoc(1_000_000_000.0, RPow(10.0, rp - 9 * (n + 1)), RPow(2.0, e2));
  }

  // Merging the last two words changes the number by a speck at most.
  lemma MergeClose(all: seq<nat>, rp: int, e2: int)
    requires |all| == KMAX && all[0] > 0 && AllBelow(all, WORD_MAX)
    ensures var v, v' := Value(all, rp, e2), Value(MergeTail(all), rp, e2); v' - v <= Speck(v) && v - v' <= Speck(v)
  {
    hide RPow, Num, Value, AllBelow, Speck, BitOr, Unit;
    var p, q, h := all[KMAX - 2], all[KMAX - 1], all[..KMAX - 2];
    assert all == h + [p] + [q];
    var m := MergeTail(all);
    MergeSize(all, p, q);
    MergedNum(h, p, q);
    InUnits(all, rp, e2);
    InUnits(m, rp, e2);
    ManyUnits(all, rp, e2, KMAX - 1);
    UnitNine(rp, KMAX - 1, e2);
    assert 9 * (KMAX - 1) - 9 == 18414;
    ChangeInUnits(Num(m), Num(all), Unit(rp, KMAX - 1, e2), Unit(rp, KMAX, e2));
    SmallChange(Value(all, rp, e2), Unit(rp, KMAX - 1, e2), Value(m, rp, e2) - Value(all, rp, e2));
  }

  lemma ChangeInUnits(m: nat, n: nat, big: real, small: real)
    requires small > 0.0 && big == 1_000_000_000.0 * small
    requires -10_000_000_000 * BASE <= m * BASE - n <= 10_000_000_000 * BASE
    ensures -10_000_000_000.0 * big <= m as real * big - n as real * small <= 10_000_000_000.0 * big
  {
    var d := m * BASE - n;
    assert m as real * big - n as real * small == d as real * small;
    Ordered(-10_000_000_000_000_000_000.0, d as real, small);
    Ordered(d as real, 10_000_000_000_000_000_000.0, small);
  }

  // So does marking the last word instead of adding one.
  lemma MarkClose(w: seq<nat>, c: nat, rp: int, e2: int)
    requires |w| == KMAX - 1 && w[0] > 0 && AllBelow(w, WORD_MAX) && 0 < c < BASE
    ensures var v, v' := Value(w + [c], rp, e2), Value(MarkTail(w), rp, e2); v' - v <= Speck(v) && v - v' <= Speck(v)
  {
    hide RPow, Num, Value, AllBelow, Speck, Unit, MarkTail;
    MarkedNum(w, c);
    WordsOf(w, c);
    InUnits(w + [c], rp, e2);
    InUnits(MarkTail(w), rp, e2);
    ManyUnits(w + [c], rp, e2, KMAX - 1);
    UnitNine(rp, KMAX - 1, e2);
    assert 9 * (KMAX - 1) - 9 == 18414;
    ChangeInUnits(Num(MarkTail(w)), Num(w + [c]), Unit(rp, KMAX - 1, e2), Unit(rp, KMAX, e2));
    SmallChange(Value(w + [c], rp, e2), Unit(rp, KMAX - 1, e2), Value(MarkTail(w), rp, e2) - Value(w + [c], rp, e2));
  }

  lemma WordsOf(w: seq<nat>, c: nat)
    requires |w| > 0 && AllBelow(w, WORD_MAX) && c < BASE
    ensures AllBelow(w + [c], WORD_MAX)
  {}

  // With n the number before, the marked words are n, or n + 1 if that is odd.
  lemma MarkedNum(w: seq<nat>, c: nat)
    requires |w| > 0 && c < BASE
    ensures |MarkTail(w)| == |w| && Num(MarkTail(w)) == Num(w) + 1 - Num(w) % 2 && Num(w + [c]) == Num(w) * BASE + c
  {
    hide Horner, BitOr;
    var h, p := w[..|w| - 1], w[|w| - 1];
    BitOrOne(p);
    assert w == h + [p];
    HornerAppend(0, h, p);
    HornerAppend(0, w, c);
    HornerAppend(0, h, BitOr(p, 1));
    LastParity(Num(h), p);
  }

  lemma LastParity(n: nat, p: nat)
    ensures (n * BASE + p) % 2 == p % 2
  {
    assert n * BASE + p == 2 * (n * 500_000_000) + p;
  }

  // Rounding at half a unit of the integer part, or anything coarser, does not see the mark.
  lemma MarkAlike(w: seq<nat>, c: nat, rp: int, e2: int)
    requires |w| == KMAX - 1 && 0 < c < BASE && rp <= 18000
    ensures Alike(Value(w + [c], rp, e2), Value(MarkTail(w), rp, e2), RPow(2.0, e2 - 1))
  {
    hide RPow, Num, Value, AllBelow, Unit, MarkTail, Alike;
    MarkedNum(w, c);
    InUnits(w + [c], rp, e2);
    InUnits(MarkTail(w), rp, e2);
    UnitNine(rp, KMAX - 1, e2);
    var u := Unit(rp, KMAX - 1, e2);
    TwoUnitCell(Num(w), c, u, Unit(rp, KMAX, e2));
    SameCell(Value(w + [c], rp, e2), Value(MarkTail(w), rp, e2), 2.0 * u, Num(w) / 2);
    var k := GridOfUnits(rp, e2);
    AlikeCoarser(Value(w + [c], rp, e2), Value(MarkTail(w), rp, e2), 2.0 * u, k, RPow(2.0, e2 - 1));
  }

  // A mark can also undo what came before it: words a little above an odd number of units, or a
  // little below the next, come to denote just that number.
  lemma MarkRestores(w: seq<nat>, c: nat, rp: int, e2: int, m: nat)
    requires |w| == KMAX - 1 && 0 < c < BASE && m % 2 == 1
    ensures Value(MarkTail(w), rp, e2) == m as real * Unit(rp, KMAX - 1, e2) <==> m * BASE - BASE < Num(w + [c]) < m * BASE + BASE
  {
    hide RPow, Num, Value, Unit, MarkTail;
    MarkedNum(w, c);
    InUnits(MarkTail(w), rp, e2);
    UnitsDiffer(Num(MarkTail(w)), m, Unit(rp, KMAX - 1, e2));
    Bracketed(Num(w), c, m);
  }

  lemma UnitsDiffer(a: nat, b: nat, u: real)
    requires u > 0.0
    ensures a as real * u == b as real * u <==> a == b
  {
    if a as real * u == b as real * u {
      SameFactor(a as real, b as real, u);
    }
  }

  lemma Bracketed(n: nat, c: nat, m: nat)
    requires 0 < c < BASE && m % 2 == 1
    ensures n + 1 - n % 2 == m <==> m * BASE - BASE < n * BASE + c < m * BASE + BASE
  {}

  lemma TwoUnitCell(n: nat, c: nat, u: real, v: real)
    requires 0 < c < BASE && v > 0.0 && u == 1_000_000_000.0 * v
    ensures var lo, hi := Multiple(n / 2, 2.0 * u), Multiple(n / 2 + 1, 2.0 * u);
            lo < (n * BASE + c) as real * v < hi && lo < (n + 1 - n % 2) as real * u < hi
  {
    var j := n / 2;
    assert Multiple(j, 2.0 * u) == (2 * j * BASE) as real * v by { Cells(j, u, v); }
    assert Multiple(j + 1, 2.0 * u) == (2 * (j + 1) * BASE) as real * v by { Cells(j + 1, u, v); }
    assert (n + 1 - n % 2) as real * u == ((2 * j + 1) * BASE) as real * v by { assert n + 1 - n % 2 == 2 * j + 1; }
    Below((2 * j * BASE) as real, (n * BASE + c) as real, v);
    Below((n * BASE + c) as real, (2 * (j + 1) * BASE) as real, v);
    Below((2 * j * BASE) as real, ((2 * j + 1) * BASE) as real, v);
    Below(((2 * j + 1) * BASE) as real, (2 * (j + 1) * BASE) as real, v);
  }

  lemma Cells(j: nat, u: real, v: real)
    requires u == 1_000_000_000.0 * v
    ensures Multiple(j, 2.0 * u) == (2 * j * BASE) as real * v
  {}

  // 2^(e2 - 1) is a whole number of double units.
  lemma GridOfUnits(rp: int, e2: int) returns (k: int)
    requires rp <= 18000
    ensures RPow(2.0, e2 - 1) == k as real * (2.0 * Unit(rp, KMAX - 1, e2))
  {
    hide RPow, Pow10;
    var p := 9 * (KMAX - 1) - rp;
    k := 25 * Pow10(p - 2);
    TenToThe(-p, p - 2);
    TenToThe(-2, 2);
    TwoSquared();
    RPowSucc(2.0, e2 - 1);
    GridArith(k, Pow10(p - 2), RPow(10.0, -p), RPow(2.0, e2 - 1), RPow(2.0, e2));
  }

  lemma TwoSquared()
    ensures Pow10(2) == 100 && RPow(10.0, 0) == 1.0
  {}

  lemma GridArith(k: int, q: int, t: real, h: real, d: real)
    requires k == 25 * q && q as real * t == 0.01 && d == 2.0 * h
    ensures h == k as real * (2.0 * (t * d))
  {
    assert k as real * t == 0.25;
    MulAssoc(k as real, t, 4.0 * h);
  }

  lemma MergeSize(all: seq<nat>, p: nat, q: nat)
    requires |all| >= 2 && AllBelow(all, WORD_MAX) && p == all[|all| - 2] && q == all[|all| - 1]
    ensures p < WORD_MAX && q < WORD_MAX && BitOr(p, q) < WORD_MAX && MergeTail(all) == all[..|all| - 2] + [BitOr(p, q)]
  {
    Pow2Values();
    BitOrBounds(p, q, 30);
  }

  lemma MergedNum(h: seq<nat>, p: nat, q: nat)
    requires p < WORD_MAX && q < WORD_MAX && BitOr(p, q) < WORD_MAX
    ensures var d := Num(h + [BitOr(p, q)]) * BASE - Num(h + [p] + [q]); -10_000_000_000 * BASE <= d <= 10_000_000_000 * BASE
  {
    hide Horner, BitOr;
    HornerAppend(0, h, p);
    HornerAppend(0, h + [p], q);
    HornerAppend(0, h, BitOr(p, q));
  }

  // A merge stays within its word, and so below every higher one, exactly when the two words
  // or-ed together are less than 10^9.
  lemma MergeStays(h: seq<nat>, p: nat, q: nat)
    requires p < BASE && q < BASE
    ensures Num(h + [p] + [q]) / (BASE * BASE) == Num(h)
    ensures Num(MergeTail(h + [p] + [q])) / BASE == Num(h) <==> BitOr(p, q) < BASE
  {
    hide Horner, BitOr;
    assert (h + [p] + [q])[..|h|] == h;
    Pow2Values();
    BitOrBounds(p, q, 30);
    HornerAppend(0, h, p);
    HornerAppend(0, h + [p], q);
    HornerAppend(0, h, BitOr(p, q));
    Divided(Num(h), BitOr(p, q));
    DividedTwice(Num(h), p, q);
  }

  lemma Divided(n: nat, b: nat)
    ensures (n * BASE + b) / BASE == n <==> b < BASE
  {}

  lemma DividedTwice(n: nat, p: nat, q: nat)
    requires p < BASE && q < BASE
    ensures ((n * BASE + p) * BASE + q) / (BASE * BASE) == n
  {}

  lemma {:induction false} OrPower(p: nat, k: nat, u: nat, r: nat)
    requires p == 2 * (u * Pow2(k)) + r && r < Pow2(k)
    ensures BitOr(p, Pow2(k)) == p + Pow2(k)
  {
    if k == 0 {
      BitOrOne(p);
    } else if p != 0 {
      var a := Pow2(k - 1);
      assert p == 2 * (2 * (u * a)) + r by { TwiceOut(u, a); }
      OrPower(p / 2, k - 1, u, r / 2);
    }
  }

  lemma TwiceOut(u: nat, a: nat)
    ensures u * (2 * a) == 2 * (u * a)
  {}

  // It need not: these two words or-ed make more than 10^9.
  lemma MergeMoves(h: seq<nat>)
    ensures Num(MergeTail(h + [999_999_999] + [67_108_864])) / BASE > Num(h + [999_999_999] + [67_108_864]) / (BASE * BASE)
  {
    hide BitOr, Horner;
    Pow2Values();
    assert Pow2(26) == 67_108_864 by { assert Pow2(29) == 8 * Pow2(26); }
    OrPower(999_999_999, 26, 7, 60_475_903);
    MergeStays(h, 999_999_999, 67_108_864);
    assert (h + [999_999_999] + [67_108_864])[..|h|] == h;
    HornerAppend(0, h, BitOr(999_999_999, 67_108_864));
  }
}
