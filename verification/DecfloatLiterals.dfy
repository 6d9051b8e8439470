// Literals by their digits: which are denoted exactly, and some that are not.
module DecfloatLiterals {
  import opened BigDecimal
  import opened Bits
  import opened DecimalText
  import opened DecfloatRing
  import opened DecfloatIntake
  import opened DecfloatBounds
  import opened DecfloatPlaces
  import opened DecfloatRoom
  import opened Decfloat

  // The significant digits give the size of the integer they write.
  lemma {:induction false} SignificantBounds(ds: string)
    requires AllDigits(ds)
    ensures Significant(ds) == 0 ==> DVal(ds) == 0
    ensures Significant(ds) > 0 ==> Pow10(Significant(ds) - 1) <= DVal(ds) < Pow10(Significant(ds))
    decreases |ds|
  {
    if ds != "" {
      var es, z := ds[..|ds| - 1], LeadingZeros(ds);
      SignificantBounds(es);
      ZerosBefore(ds);
      assert Pow10(0) == 1;
      if Significant(es) > 0 {
        Pow10Next(Significant(es) - 1);
        Pow10Next(Significant(es));
      }
      assert ds[|ds| - 1] == '0' <==> DigitOf(ds[|ds| - 1]) == 0;
    }
  }

  lemma ZerosBefore(ds: string)
    requires ds != ""
    ensures var es := ds[..|ds| - 1];
            LeadingZeros(ds) == if LeadingZeros(es) < |es| then LeadingZeros(es)
                                else if ds[|es|] == '0' then |ds| else |es|
  {
    var es := ds[..|ds| - 1];
    LeadingZerosBound(es);
    ZerosLead(es);
    if LeadingZeros(es) < |es| {
      assert ds[..LeadingZeros(es)] == es[..LeadingZeros(es)];
      LeadingZerosIs(ds, LeadingZeros(es));
    } else {
      assert es[..|es|] == es == ds[..|es|];
      if ds[|es|] == '0' {
        assert ds[..|ds|] == ds;
        LeadingZerosIs(ds, |ds|);
      } else {
        LeadingZerosIs(ds, |es|);
      }
    }
  }

  lemma {:induction false} ZerosLead(ds: string)
    ensures LeadingZeros(ds) <= |ds| && AllZeros(ds[..LeadingZeros(ds)])
    ensures LeadingZeros(ds) < |ds| ==> ds[LeadingZeros(ds)] != '0'
    decreases |ds|
  {
    LeadingZerosBound(ds);
    if ds != "" && ds[0] == '0' {
      ZerosLead(ds[1..]);
      var z := LeadingZeros(ds[1..]);
      assert ds[..z + 1] == ['0'] + ds[1..][..z];
    }
  }

  lemma {:induction false} TenInBits(n: nat)
    ensures RPow(10.0, n) <= RPow(2.0, (10 * n + 2) / 3)
    decreases n
  {
    if n >= 3 {
      hide RPow;
      TenInBits(n - 3);
      var b := (10 * (n - 3) + 2) / 3;
      assert (10 * n + 2) / 3 == b + 10;
      TenToThe(n - 3, 3);
      TwoToThe(b, 10);
      ThreeDigits();
      RPowPositive(2.0, b);
    } else {
      SmallTens();
    }
  }

  lemma ThreeDigits()
    ensures Pow10(3) == 1000 && Pow2(10) == 1024
  {}

  lemma SmallTens()
    ensures RPow(10.0, 0) == 1.0 && RPow(10.0, 1) == 10.0 && RPow(10.0, 2) == 100.0
    ensures RPow(2.0, 0) == 1.0 && RPow(2.0, 4) == 16.0 && RPow(2.0, 7) == 128.0
  {
    assert RPow(2.0, 2) == 4.0;
    assert RPow(2.0, 5) == 32.0;
  }

  // Room by counting: n digits left of the point, the decimal places, and how many of these are
  // owed to twos and to fives.
  lemma RoomByDigits(s: string, e10: int)
    requires !Truncated(s) && Significant(Digits(s)) > 0
    requires var n, q := PointAt(s, e10), Written(s, e10);
             if n < 36 then q.places - q.fives <= 18369 && q.places - q.twos <= 18381
             else q.places - q.twos + (10 * n + 2) / 3 <= 18498
    ensures HasRoom(s, e10)
  {
    hide RPow, Literal, DVal, Truncated, Written, WrittenPlaces, HasRoom;
    WrittenIs(s, e10);
    var n, q := PointAt(s, e10), Written(s, e10);
    UncutRoom(s, e10);
    UncutDigits(s, e10);
    PointBits(s, e10, n, 18498 + q.twos - q.places);
  }

  lemma PointBits(s: string, e10: int, n: int, b: int)
    requires Significant(Digits(s)) > 0 && n == PointAt(s, e10)
    requires if n < 36 then b >= 117 else b >= (10 * n + 2) / 3
    ensures Literal(s, e10) < RPow(2.0, b)
  {
    hide RPow, Literal, Digits;
    PointBounds(s, e10);
    if n < 36 {
      RPowMonotone(10.0, n, 35);
      TenInBits(35);
      RPowMonotone(2.0, 117, b);
    } else {
      TenInBits(n);
      RPowMonotone(2.0, (10 * n + 2) / 3, b);
    }
  }

  // Digits and zeros at the end: no more than are kept, unless some were cut.
  lemma UncutDigits(s: string, e10: int)
    ensures WrittenPlaces(s, e10) + PointAt(s, e10) > KEPT <==> Truncated(s)
  {
    var ds := Digits(s);
    var z, n := LeadingZeros(ds), |ds| - TrailingZeros(ds);
    LeadingZerosBound(ds);
    NoMoreZeros(ds);
    OnlyZerosAfter(ds);
    assert WrittenPlaces(s, e10) + PointAt(s, e10) == n - z;
    if n - z > KEPT {
      assert ds[n - 1] != '0';
    }
  }

  lemma {:induction false} OnlyZerosAfter(ds: string)
    ensures forall i :: |ds| - TrailingZeros(ds) <= i < |ds| ==> ds[i] == '0'
  {
    if ds != "" && ds[|ds| - 1] == '0' {
      OnlyZerosAfter(ds[..|ds| - 1]);
    }
  }

  lemma PointBounds(s: string, e10: int)
    requires Significant(Digits(s)) > 0
    ensures RPow(10.0, PointAt(s, e10) - 1) <= Literal(s, e10) < RPow(10.0, PointAt(s, e10))
  {
    hide RPow, Literal, DVal, Digits, Pow10;
    DigitsAreDigits(s);
    SignificantBounds(Digits(s));
    LiteralBounds(s, e10, Significant(Digits(s)), PointAt(s, e10));
  }

  // Every integer of up to 5549 digits, in full or with an exponent: all those of the format.
  lemma IntegersHaveRoom(s: string, e10: int)
    requires Significant(Digits(s)) > 0 && e10 >= |FracPart(s)| && PointAt(s, e10) <= 5549
    ensures HasRoom(s, e10) && !Truncated(s)
  {
    hide Literal, Truncated, HasRoom, Written, WrittenPlaces;
    UncutDigits(s, e10);
    NoPlaces(s, e10);
    RoomByDigits(s, e10);
  }

  lemma NoPlaces(s: string, e10: int)
    requires e10 >= |FracPart(s)|
    ensures WrittenPlaces(s, e10) <= 0 && Written(s, e10).places == WrittenPlaces(s, e10)
  {}

  // Of the literals with too many digits, all those with 36 to 39 left of the point are scaled
  // without further loss, and so miss the number written.
  lemma CutHasRoom(s: string, e10: int)
    requires Truncated(s) && 36 <= PointAt(s, e10) <= 39
    ensures HasRoom(s, e10)
  {
    assert Significant(Digits(s)) > 0;
    hide Literal, Truncated, HasRoom;
    CutRoom(s, e10);
    PointBits(s, e10, PointAt(s, e10), 18498 - (KEPT - PointAt(s, e10)));
  }

  // Digits that rule out room: too many bits left of the point, or too many places, for the twos
  // and the fives there are.
  lemma NoRoomByDigits(s: string, e10: int)
    requires Significant(Digits(s)) > 0
    requires var n, q := PointAt(s, e10), Written(s, e10);
             (n > 0 && 93 * ((n - 1) / 28) >= 18501 + q.twos - q.places) || q.places - q.fives > 18387
    ensures !MayHold(s, e10)
  {
    hide RPow, Literal, Written, Digits;
    var n, q := PointAt(s, e10), Written(s, e10);
    PointBounds(s, e10);
    if n > 0 && 93 * ((n - 1) / 28) >= 18501 + q.twos - q.places {
      BitsOfTens(n - 1);
      RPowMonotone(2.0, 18501 + q.twos - q.places, 93 * ((n - 1) / 28));
    }
  }

  lemma {:induction false} BitsOfTens(m: nat)
    ensures RPow(10.0, m) >= RPow(2.0, 93 * (m / 28))
  {
    hide RPow;
    if m >= 28 {
      BitsOfTens(m - 28);
      assert m / 28 == (m - 28) / 28 + 1;
      var b := 93 * ((m - 28) / 28);
      TwoToThe(b, 93);
      RPowAdd(10.0, m - 28, 28);
      TenTo28();
      RPowPositive(2.0, b);
      BothGrow(RPow(10.0, m - 28), RPow(10.0, 28), RPow(2.0, b), Pow2(93) as real);
    } else {
      RPowMonotone(10.0, 0, m);
      RPowZero(10.0);
      RPowZero(2.0);
    }
  }

  lemma BothGrow(a: real, b: real, c: real, d: real)
    requires a >= c > 0.0 && b >= d > 0.0
    ensures a * b >= d * c
  {
    Ordered(c, a, b);
    Ordered(d, b, c);
  }

  lemma TenTo28()
    ensures RPow(10.0, 28) >= Pow2(93) as real > 0.0
  {
    hide RPow;
    TenTo36();
    RPowSucc(10.0, 27);
    Pow2Of60();
    assert Pow2(65) == 32 * Pow2(60);
    assert Pow2(75) == 1024 * Pow2(65);
    assert Pow2(85) == 1024 * Pow2(75);
    assert Pow2(93) == 256 * Pow2(85);
  }

  // An integer with an odd last digit and 5573 digits or more is never denoted exactly.
  lemma LongOddInteger(s: string, e10: int)
    requires WrittenPlaces(s, e10) == 0 && PointAt(s, e10) >= 5573
    requires AllDigits(Digits(s)) && Stripped(Digits(s)) % 2 == 1
    ensures !MayHold(s, e10)
  {
    hide Literal, Stripped, WrittenPlaces, Digits, DecimalOf;
    SomeDigit(s);
    WrittenIs(s, e10);
    NoTwos(Stripped(Digits(s)), WrittenPlaces(s, e10));
    NoRoomByDigits(s, e10);
  }

  lemma NoTwos(n: nat, places: int)
    ensures n % 2 == 1 ==> DecimalOf(n, places).twos == 0
    ensures n % 5 != 0 ==> DecimalOf(n, places).fives == 0
    ensures DecimalOf(n, places).places == places
  {
    if n > 0 {
      NoFiveLeft(n);
    }
  }

  lemma {:induction false} NoFiveLeft(n: nat)
    requires n > 0
    ensures n % 5 != 0 ==> FivesIn(WithoutTwos(n)) == 0
  {
    if n % 2 == 0 {
      NoFiveLeft(n / 2);
      HalfNoFive(n / 2);
    }
  }

  lemma HalfNoFive(k: nat)
    ensures 2 * k % 5 != 0 ==> k % 5 != 0
  {}

  // Literals with digits cut: with an odd last digit and 43 digits left of the point or more, or a
  // last digit other than 5 and 18 or fewer, they miss the number written as well.
  lemma CutMissed(s: string, e10: int)
    requires AllDigits(Digits(s)) && Truncated(s)
    requires (Stripped(Digits(s)) % 2 == 1 && PointAt(s, e10) >= 43) || (Stripped(Digits(s)) % 5 != 0 && PointAt(s, e10) <= 18)
    ensures !MayHold(s, e10)
  {
    assert Significant(Digits(s)) > 0;
    hide Literal, Stripped, WrittenPlaces, Digits, DecimalOf, Truncated, RPow;
    var n := PointAt(s, e10);
    UncutDigits(s, e10);
    WrittenIs(s, e10);
    NoTwos(Stripped(Digits(s)), WrittenPlaces(s, e10));
    PointBounds(s, e10);
    if Stripped(Digits(s)) % 2 == 1 && n >= 43 {
      CutBits(n);
      RPowMonotone(2.0, 18501 - WrittenPlaces(s, e10), 95 + n);
    }
  }

  lemma {:induction false} CutBits(n: int)
    requires n >= 43
    ensures RPow(10.0, n - 1) >= RPow(2.0, 95 + n)
  {
    hide RPow;
    if n > 43 {
      CutBits(n - 1);
      RPowSucc(10.0, n - 2);
      RPowSucc(2.0, 94 + n);
      RPowPositive(2.0, 94 + n);
    } else {
      TenTo42();
    }
  }

  lemma TenTo42()
    ensures RPow(10.0, 42) >= RPow(2.0, 138)
  {
    hide RPow;
    TenTo36();
    TenToThe(36, 6);
    Pow2Of119();
    TwoToThe(0, 138);
    RPowZero(2.0);
    assert Pow10(6) == 1_000_000;
    assert Pow2(131) == 0x1000 * Pow2(119);
    assert Pow2(138) == 128 * Pow2(131);
  }

  lemma SomeDigit(s: string)
    requires AllDigits(Digits(s)) && Stripped(Digits(s)) % 2 == 1
    ensures Significant(Digits(s)) > 0
  {
    hide DVal, Digits, Stripped;
    var ds := Digits(s);
    StrippedIs(ds);
    SignificantBounds(ds);
    Pow10Positive(TrailingZeros(ds));
    PositiveProduct(Stripped(ds), Pow10(TrailingZeros(ds)));
  }

  lemma PositiveProduct(a: nat, b: nat)
    requires a > 0 && b > 0
    ensures a * b > 0
  {}

  function Ones(n: nat): (s: string)
    ensures |s| == n && forall i :: 0 <= i < n ==> s[i] == '1'
  {
    seq(n, i => '1')
  }

  lemma OnesAre(n: nat)
    ensures Digits(Ones(n)) == Ones(n) && FracPart(Ones(n)) == "" && LeadingZeros(Ones(n)) == 0
  {
    var s := Ones(n);
    DigitEndIs(s, 0, n);
    assert s[..n] + "" == s;
  }

  // One of them: 18406 ones, the point after the 36th.
  method FailingLiteral() returns (o: Outcome)
    ensures o.Scaled? && o.r.Denotes() != Literal(Ones(18406), -18370)
  {
    hide RPow, Literal, Truncated, HasRoom, DVal, Digits, Top4, Ones;
    OnesCut();
    o := Decfloat.Decfloat(Ones(18406), -18370, 113, -16494);
    CutHasRoom(Ones(18406), -18370);
    OnesInRange(o);
  }

  lemma OnesCut()
    ensures Truncated(Ones(18406)) && PointAt(Ones(18406), -18370) == 36 && Significant(Digits(Ones(18406))) == 18406
  {
    OnesAre(18406);
    var s := Ones(18406);
    assert s[18405] != '0';
  }

  // A literal with 36 digits left of the point is neither too big nor too small.
  lemma OnesInRange(o: Outcome)
    requires PointAt(Ones(18406), -18370) == 36 && Significant(Digits(Ones(18406))) == 18406
    requires Says(o, Literal(Ones(18406), -18370), 113, -16494)
    ensures !o.TooBig? && !o.TooSmall?
  {
    hide RPow, Literal, Digits, Ones;
    PointBounds(Ones(18406), -18370);
    TenInBits(36);
    RPowMonotone(2.0, (10 * 36 + 2) / 3, 16384);
    RPowMonotone(2.0, -16720, 0);
    RPowZero(2.0);
    RPowZero(10.0);
    RPowMonotone(10.0, 0, 35);
  }
}
