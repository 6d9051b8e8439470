// decfloat up to the point where floating-point assembly starts: what each way
// out says about the number written.
module Decfloat {
  import opened BigDecimal
  import opened Bits
  import opened DecimalText
  import opened DecfloatRing
  import opened DecfloatIntake
  import opened DecfloatAlign
  import opened DecfloatBounds
  import opened DecfloatPlaces
  import opened DecfloatScale
  import opened DecfloatRoom

  datatype Outcome =
    | NoDigits
    | Zero
    | Exact(n: nat)                  // the first word
    | Quotient(n: nat, d: nat)       // the first word, divided by a power of ten
    | Product(n: nat, d: nat)        // the first word, multiplied by one
    | TooBig
    | TooSmall
    | Scaled(r: Ring)

  // Leading zeros, before and just after the point, take no room.
  method SkipZeros(s: string) returns (i: nat, gotdig: bool, gotrad: bool, lrp: int, ghost dot: nat)
    ensures Scanned(s, i, gotrad, dot) && AllZeros(Seen(s, i, gotrad, dot))
    ensures lrp == if gotrad then -(i - dot - 1) else 0
    ensures At(s, i) != '0' && (At(s, i) == '.' ==> gotrad)
    ensures gotdig <==> |Seen(s, i, gotrad, dot)| > 0
  {
    i, gotdig, gotrad, lrp, dot := 0, false, false, 0, 0;
    while At(s, i) == '0'
      invariant i <= |s| && AllZeros(s[..i]) && (gotdig <==> i > 0)
      decreases |s| - i
    {
      gotdig := true;
      i := i + 1;
    }
    if At(s, i) == '.' {
      gotrad := true;
      dot := i;
      i := i + 1;
      while At(s, i) == '0'
        invariant dot < i <= |s| && s[dot] == '.' && AllZeros(s[..dot]) && AllZeros(s[dot + 1..i])
        invariant lrp == -(i - dot - 1) && (gotdig <==> dot + (i - dot - 1) > 0)
        decreases |s| - i
      {
        assert s[dot + 1..i + 1] == s[dot + 1..i] + ['0'];
        gotdig := true;
        lrp := lrp - 1;
        i := i + 1;
      }
    }
  }

  // All digits of the literal, packed.
  method Intake(s: string, x: array<u32>)
    returns (k: nat, j: nat, dc: nat, lnz: nat, lrp: int, gotdig: bool, ghost p: Packing, ghost sticky: bool)
    requires x.Length == KMAX
    modifies x
    ensures gotdig <==> Digits(s) != ""
    ensures AllDigits(Digits(s)) && Kept(DVal(Digits(s)), p, dc, sticky) && Stored(x, p) && k == |p.words| && j == p.j
    ensures lnz < 9 ==> OneWord(p) && !sticky
    ensures dc > 0 ==> lnz > 0
    ensures lrp == dc - |FracPart(s)| && dc == Significant(Digits(s))
    ensures sticky <==> Truncated(s)
    ensures dc == 0 ==> x[0] == 0
  {
    var i0, gotrad0, lrp0;
    ghost var dot0;
    i0, gotdig, gotrad0, lrp0, dot0 := SkipZeros(s);
    ghost var zs := Seen(s, i0, gotrad0, dot0);
    ZeroDigits(zs);
    ghost var i, gotrad, dot;
    k, j, dc, lnz, lrp, gotrad, i, dot, p, sticky := ReadDigits(s, i0, gotrad0, lrp0, dot0, x);
    ghost var ds := Seen(s, i, gotrad, dot);
    ScanEnds(s, i, gotrad, dot);
    assert ds == Digits(s);
    CountZeros(ds, zs, dc);
    gotdig := gotdig || dc > 0;
  }

  lemma CountZeros(ds: string, zs: string, dc: nat)
    requires AllZeros(zs) && |ds| == |zs| + dc
    requires if dc > 0 then FirstSignificant(ds, zs) else ds == zs
    ensures LeadingZeros(ds) == |zs| && Significant(ds) == dc
  {
    if dc == 0 {
      assert ds[..|zs|] == zs;
    }
    LeadingZerosIs(ds, |zs|);
  }

  // The packed words, the last one padded with zeros to nine digits.
  function Padded(p: Packing): seq<nat>
    requires p.j < 9
  {
    if p.j == 0 then p.words else p.words + [p.part * Pow10(9 - p.j)]
  }

  lemma PaddedNum(p: Packing)
    requires Wf(p) && (p.j == 0 ==> p.part == 0)
    ensures var m := if p.j == 0 then 0 else 9 - p.j;
            Num(Padded(p)) == Packed(p) * Pow10(m) && 9 * |Padded(p)| == 9 * |p.words| + p.j + m
    ensures AllBelow(Padded(p), BASE)
  {
    if p.j == 0 {
      assert Pow10(0) == 1;
    } else {
      SplitsAt(p.j);
      PadArith(Num(p.words), Pow10(p.j), Pow10(9 - p.j), p.part);
      hide Horner, Pow10;
      HornerAppend(0, p.words, p.part * Pow10(9 - p.j));
    }
  }

  lemma PadArith(n: nat, a: nat, b: nat, part: nat)
    requires a * b == BASE && part < a
    ensures (n * a + part) * b == n * BASE + part * b
    ensures part * b < BASE
  {
    assert (n * a) * b == n * (a * b);
    MulMono(b, part, a - 1);
    assert b * (a - 1) == BASE - b;
  }

  // The packed words denote the number written exactly when no nonzero digit was dropped; one
  // that was leaves them less than a unit of their last digit away.
  lemma LiteralIsPadded(s: string, e10: int, p: Packing, dc: nat, rp: int, sticky: bool)
    requires Kept(DVal(Digits(s)), p, dc, sticky) && (p.j == 0 ==> p.part == 0)
    requires rp == dc - |FracPart(s)| + e10 && AllDigits(Digits(s))
    ensures Value(Padded(p), rp, 0) == Literal(s, e10) <==> !sticky
    ensures sticky ==> Value(Padded(p), rp, 0) == Cut(p, rp)
    ensures sticky ==> var v, t := Value(Padded(p), rp, 0), Literal(s, e10);
                       v - t <= RPow(10.0, rp - KEPT) && t - v <= RPow(10.0, rp - KEPT)
  {
    hide *;
    KeptWf(DVal(Digits(s)), p, dc, sticky);
    PaddedValue(p, rp);
    if sticky {
      KeptMarked(DVal(Digits(s)), p, dc);
      CutLiteral(s, e10, p, dc, rp);
      CutIs(p, rp);
      CutAlike(Packed(p), RPow(10.0, rp - KEPT), Literal(s, e10), Cut(p, rp), DoubleUnit(KEPT - rp));
    } else {
      LiteralIs(s, e10);
      KeptIs(DVal(Digits(s)), p, dc);
      var kept := 9 * |p.words| + p.j;
      TenToThe(rp - dc, dc - kept);
      assert rp - dc + (dc - kept) == rp - kept;
      MoveFactor(Packed(p), Pow10(dc - kept), RPow(10.0, rp - dc), RPow(10.0, rp - kept));
    }
  }

  lemma KeptWf(n: nat, p: Packing, dc: nat, sticky: bool)
    requires Kept(n, p, dc, sticky)
    ensures Wf(p)
  {}

  lemma KeptIs(n: nat, p: Packing, dc: nat)
    requires Kept(n, p, dc, false)
    ensures dc >= 9 * |p.words| + p.j && n == Packed(p) * Pow10(dc - 9 * |p.words| - p.j)
  {}

  lemma PaddedValue(p: Packing, rp: int)
    requires Wf(p) && (p.j == 0 ==> p.part == 0)
    ensures Value(Padded(p), rp, 0) == Packed(p) as real * RPow(10.0, rp - 9 * |p.words| - p.j)
  {
    hide *;
    WfShort(p);
    PaddedNum(p);
    var m := if p.j == 0 then 0 else 9 - p.j;
    ShiftValue(Padded(p), Packed(p), m, rp, rp - 9 * |p.words| - p.j);
  }

  lemma WfShort(p: Packing)
    requires Wf(p)
    ensures p.j < 9
  {}

  lemma ShiftValue(w: seq<nat>, n: nat, m: nat, rp: int, e: int)
    requires Num(w) == n * Pow10(m) && e == rp - 9 * |w| + m
    ensures Value(w, rp, 0) == n as real * RPow(10.0, e)
  {
    hide *;
    ValueAtZero(w, rp);
    TenToThe(rp - 9 * |w|, m);
    MoveFactor(n, Pow10(m), RPow(10.0, rp - 9 * |w|), RPow(10.0, e));
  }

  lemma ValueAtZero(w: seq<nat>, rp: int)
    ensures Value(w, rp, 0) == Num(w) as real * RPow(10.0, rp - 9 * |w|)
  {
    OneAtZero();
  }

  lemma OneAtZero()
    ensures RPow(2.0, 0) == 1.0
  {}

  // Fewer than ten significant digits, the point right after them.
  lemma ShortInteger(s: string, e10: int, p: Packing, dc: nat, x0: nat)
    requires AllDigits(Digits(s)) && Kept(DVal(Digits(s)), p, dc, false) && 0 < dc < 10 && (p.j == 0 ==> p.part == 0)
    requires e10 == |FracPart(s)| && x0 == if |p.words| > 0 then p.words[0] else p.part
    ensures Literal(s, e10) == x0 as real
  {
    hide DVal;
    LiteralIs(s, e10);
    assert Pow10(0) == 1 && RPow(10.0, 0) == 1.0;
    assert Num([]) == 0;
    if |p.words| > 0 {
      assert p.words == [p.words[0]];
      NumOne(p.words[0]);
    }
  }

  // 10^n against powers of two: beyond -emin/2 the number overflows the format.
  lemma {:induction false} TenBeatsEight(n: nat)
    ensures RPow(10.0, n) >= RPow(2.0, 3 * n)
  {
    if n > 0 {
      TenBeatsEight(n - 1);
      RPowSucc(2.0, 3 * n - 3);
      RPowSucc(2.0, 3 * n - 2);
      RPowSucc(2.0, 3 * n - 1);
      RPowPositive(2.0, 3 * n - 3);
    }
  }

  lemma {:induction false} TenthsBelowHalves(n: int)
    requires n <= 0
    ensures RPow(10.0, n) <= RPow(2.0, n)
    decreases -n
  {
    if n < 0 {
      TenthsBelowHalves(n + 1);
      RPowPositive(10.0, n + 1);
      RPowPositive(2.0, n + 1);
      assert RPow(10.0, n) == RPow(10.0, n + 1) / 10.0;
      assert RPow(2.0, n) == RPow(2.0, n + 1) / 2.0;
    }
  }

  lemma Overflows(n: int, emin: int, bits: nat)
    requires emin < -3 && bits >= 3 && n > -emin / 2
    ensures RPow(10.0, n - 1) >= RPow(2.0, -emin - bits + 3)
  {
    TenBeatsEight(n - 1);
    RPowMonotone(2.0, -emin - bits + 3, 3 * (n - 1));
  }

  lemma Underflows(n: int, emin: int)
    requires emin < 0 && n < emin - 226
    ensures RPow(10.0, n) <= RPow(2.0, emin - 226)
  {
    TenthsBelowHalves(n);
    RPowMonotone(2.0, n, emin - 226);
  }

  lemma OneWordValue(s: string, e10: int, p: Packing, dc: nat, rp: int)
    requires AllDigits(Digits(s)) && Kept(DVal(Digits(s)), p, dc, false) && OneWord(p) && dc > 0
    requires (p.j == 0 ==> p.part == 0) && rp == dc - |FracPart(s)| + e10
    ensures |Padded(p)| > 0 && Literal(s, e10) == Padded(p)[0] as real * RPow(10.0, rp - 9)
  {
    hide *;
    OneWordShape(s, p, dc);
    var w := Padded(p);
    LiteralIsPadded(s, e10, p, dc, rp, false);
    ValueDropTrailingZeros(w, 1, rp, 0);
    NumOne(w[0]);
    ValueAtZero([w[0]], rp);
  }

  lemma OneWordShape(s: string, p: Packing, dc: nat)
    requires AllDigits(Digits(s)) && Kept(DVal(Digits(s)), p, dc, false) && OneWord(p) && dc > 0
    requires p.j == 0 ==> p.part == 0
    ensures p.j < 9
    ensures var w := Padded(p); |w| > 0 && w[..1] == [w[0]] && forall i :: 1 <= i < |w| ==> w[i] == 0
  {
    hide Pow10, Horner, DVal;
  }

  lemma NumOne(d: nat)
    ensures Num([d]) == d
  {
    var t: seq<nat> := [d];
    assert t[1..] == [];
    assert Horner(0, t) == Horner(d, t[1..]);
  }

  // The last word is brought up to nine digits.
  method PadLast(x: array<u32>, k: nat, j0: nat, ghost p: Packing)
    requires x.Length == KMAX && Wf(p) && Stored(x, p) && k == |p.words| && j0 == p.j > 0
    modifies x
    ensures x[k] as int == p.part * Pow10(9 - p.j)
    ensures forall i :: 0 <= i < k ==> x[i] == old(x[i])
  {
    var j := j0;
    Pow10Small(j0);
    assert Pow10(0) == 1;
    while j < 9
      invariant j0 <= j <= 9 && x[k] as int == p.part * Pow10(j - j0)
      invariant forall i :: 0 <= i < k ==> x[i] == old(x[i])
    {
      PadStep(p.part, j0, j);
      x[k] := x[k] * 10;
      j := j + 1;
    }
  }

  lemma PadStep(part: nat, j0: nat, j: nat)
    requires 0 < j0 <= j < 9 && part < Pow10(j0)
    ensures part * Pow10(j - j0) * 10 == part * Pow10(j + 1 - j0) < BASE
  {
    hide *;
    var a, b := Pow10(j0), Pow10(j - j0);
    Pow10Product(j0, j - j0);
    Pow10Small(j);
    Pow10Next(j - j0);
    Pow10Small(j - j0);
    BelowBase(part, a, b);
  }

  lemma BelowBase(part: nat, a: nat, b: nat)
    requires part < a && b > 0 && a * b <= 100_000_000
    ensures part * b * 10 == part * (10 * b) < BASE
  {
    MulMono(b, part, a - 1);
    assert b * (a - 1) == a * b - b;
    TenTimes(part, b);
  }

  lemma TenTimes(part: nat, b: nat)
    ensures part * b * 10 == part * (10 * b)
  {}

  // Zero words at the end are dropped.
  method DropZeros(x: array<u32>, k: nat, ghost w: seq<nat>) returns (z: nat)
    requires x.Length == KMAX && 0 < k == |w| <= KMAX && w[0] > 0
    requires forall i {:trigger w[i]} :: 0 <= i < k ==> x[i] as int == w[i]
    ensures 0 < z <= k && w[z - 1] > 0 && forall i :: z <= i < k ==> w[i] == 0
  {
    z := k;
    assert x[0] as int == w[0];
    while x[z - 1] == 0
      invariant 0 < z <= k && forall i :: z <= i < k ==> w[i] == 0
      decreases z
    {
      assert x[z - 1] as int == w[z - 1];
      z := z - 1;
    }
    assert x[z - 1] as int == w[z - 1];
  }

  // All three rescaling loops, from a ring with its first word in slot 0 that denotes q.
  method Rescale(r: Ring, ghost q: Decimal)
    requires r.Valid() && r.a == 0 && r.e2 == 0 && |r.words| < KMAX - 2 && AllBelow(r.words, BASE) && r.rp <= 8300
    requires r.words[|r.words| - 1] > 0 && r.Denotes() == Real(q) && NoZeroAtEnd(q) && InRange(r.Denotes())
    modifies r, r.x
    ensures r.Valid() && r.rp == 36 && TWO_112 <= Top4(r.words) < TWO_113
    ensures Rescaled(old(r.Denotes()), q, r.Denotes(), r.e2)
    ensures RoomFor(old(r.Denotes()), q.twos, q.fives, q.places) ==> AllBelow(r.words, BASE + 1)
  {
    hide Value, Top4, RPow, RoomFor, NoMerge, Rescaled, InRange, Near, Enough, FewPlaces, Follows, Upscaled, Real, NoZeroAtEnd,
      Holds, Th;
    ghost var v := r.Denotes();
    PlacesNeeded(r.words, r.rp, 0, q);
    AlignRadix(r);
    SizedBelow(r);
    PlacesHeld(r.words, r.rp, q);
    ghost var rp0 := r.rp;
    if v >= RPow(10.0, 35) {
      NoScaling(r.words, r.rp);
    }
    RoomWords(v, q, rp0);
    ghost var up := Upscale(r, q);
    ghost var d, e0 := r.Denotes(), r.e2;
    UpscaledRange(v, d, -e0);
    SizedBelow(r);
    LeadBits(r.words, r.rp);
    if RoomFor(v, q.twos, q.fives, q.places) {
      EnoughRoom(v, q, rp0, r.rp);
    }
    ghost var down := Downscale(r, q);
    RescaledIs(v, q, d, e0, r.Denotes(), r.e2, up, down);
  }

  lemma RoomWords(v: real, q: Decimal, rp0: int)
    requires q.places + rp0 <= 18414
    ensures NoMerge(v, q.fives, q.places) && v < RPow(10.0, 35) ==> q.places <= 18370 || FewPlaces(q, rp0)
    ensures RoomFor(v, q.twos, q.fives, q.places) ==> FewPlaces(q, rp0)
  {}

  lemma UpscaledRange(v: real, d: real, k: int)
    requires InRange(v) && Near(v, d, k) && k <= 67400
    ensures 0.0 < d <= RPow(2.0, 33201)
  {
    hide RPow, Near, InRange;
    RangeBits(v);
    NearHalf(v, d, k);
    RPowSucc(2.0, 33200);
  }

  lemma LeadBits(w: seq<nat>, rp: int)
    requires |w| > 0
    ensures w[0] >= Th(0) ==> Top4(w) >= TWO_112
  {}

  predicate Format(bits: nat, emin: int) {
    (bits == 24 && emin == -149) || (bits == 53 && emin == -1074) || (bits == 113 && emin == -16494)
  }

  // The digits packed and padded: the number is x[0], x[1], ... with the point at lrp.
  method Pack(x: array<u32>, k0: nat, j: nat, ghost p: Packing) returns (k: nat)
    requires x.Length == KMAX && Wf(p) && Stored(x, p) && k0 == |p.words| && j == p.j
    modifies x
    ensures k == |Padded(p)| <= KMAX - 3
    ensures forall i {:trigger Padded(p)[i]} :: 0 <= i < k ==> x[i] as int == Padded(p)[i]
  {
    k := k0;
    if j != 0 {
      PadLast(x, k, j, p);
      k := k + 1;
    }
  }

  // The ring from the packed words, which denote q, trailing zero words dropped, rescaled.
  method ScaleWords(x: array<u32>, k: nat, rp: int, ghost w: seq<nat>, ghost q: Decimal) returns (r: Ring)
    requires x.Length == KMAX && 0 < k == |w| <= KMAX - 3 && w[0] > 0 && AllBelow(w, BASE) && rp <= 8300
    requires forall i {:trigger w[i]} :: 0 <= i < k ==> x[i] as int == w[i]
    requires Value(w, rp, 0) == Real(q) && NoZeroAtEnd(q) && InRange(Value(w, rp, 0))
    modifies x
    ensures fresh(r) && r.Valid() && r.rp == 36 && TWO_112 <= Top4(r.words) < TWO_113
    ensures Rescaled(Value(w, rp, 0), q, r.Denotes(), r.e2)
    ensures RoomFor(Value(w, rp, 0), q.twos, q.fives, q.places) ==> AllBelow(r.words, BASE + 1)
  {
    hide Value, Top4, RPow, Rescaled, RoomFor, InRange, Real, NoZeroAtEnd;
    var z := DropZeros(x, k, w);
    ValueDropTrailingZeros(w, z, rp, 0);
    r := new Ring(x, z, rp, w[..z]);
    Rescale(r, q);
  }

  lemma PaddedShape(n: nat, p: Packing, dc: nat)
    requires Kept(n, p, dc, false) || Kept(n, p, dc, true)
    requires (p.j == 0 ==> p.part == 0) && dc > 0
    ensures Wf(p) && AllBelow(Padded(p), BASE) && 0 < |Padded(p)| <= dc / 9 + 1 && 0 < Padded(p)[0] < BASE
    ensures if |p.words| > 0 then p.words[0] > 0 else p.part > 0 && p.j > 0
  {
    PaddedNum(p);
    if |p.words| == 0 {
      Pow10Positive(9 - p.j);
      assert Padded(p)[0] == p.part * Pow10(9 - p.j);
      MulMono(p.part, 1, Pow10(9 - p.j));
    }
  }

  lemma KeptFacts(n: nat, p: Packing, dc: nat, sticky: bool)
    requires Kept(n, p, dc, sticky)
    ensures Wf(p) && (n == 0 <==> dc == 0) && (sticky ==> dc > KEPT)
    ensures dc > 0 ==> Pow10(dc - 1) <= n < Pow10(dc)
  {
    if dc > 0 {
      Pow10Positive(dc - 1);
    }
  }

  // What each way out says about the number written, `lit`.
  // m, of so many bits at most, and t zero bits behind it.
  ghost predicate HasBits(v: nat, m: nat, t: nat, bits: nat) {
    v == m * Pow2(t) && m < Pow2(bits)
  }

  // 10^k is 2^k times what three bits for each five hold.
  lemma {:induction false} FivePart(k: nat) returns (f: nat)
    ensures Pow10(k) == f * Pow2(k) && f <= Pow2(3 * k)
  {
    f := 1;
    if k > 0 {
      var g := FivePart(k - 1);
      assert Pow2(3 * k) == 2 * Pow2(3 * k - 1) == 4 * Pow2(3 * k - 2) == 8 * Pow2(3 * (k - 1));
      f := 5 * g;
    }
  }

  lemma {:induction false} Pow2Sum(a: nat, b: nat)
    ensures Pow2(a + b) == Pow2(a) * Pow2(b) && Pow2(a) > 0
  {
    if a > 0 {
      Pow2Sum(a - 1, b);
      assert Pow2(a + b) == 2 * Pow2(a - 1 + b);
      Regroup(2, Pow2(a - 1), Pow2(b));
    }
  }

  lemma ProductFits(n: nat, k: nat, bits: nat)
    requires n < Pow2(30) && 3 * k <= bits && (bits - 3 * k > 30 || n < Pow2(bits - 3 * k))
    ensures exists m, t :: HasBits(n * Pow10(k), m, t, bits)
  {
    hide *;
    var room := bits - 3 * k;
    var f := FivePart(k);
    Pow2Sum(room, 3 * k);
    Pow2Sum(3 * k, 0);
    if room > 30 {
      Pow2Sum(room - 30, 30);
      Longer(Pow2(room - 30), Pow2(30));
    }
    BothSmall(n, Pow2(room), f, Pow2(3 * k));
    BitsAre(n, f, k, bits);
  }

  lemma Longer(a: nat, b: nat)
    requires a > 0
    ensures b <= a * b
  {}

  lemma BitsAre(n: nat, f: nat, k: nat, bits: nat)
    requires Pow10(k) == f * Pow2(k) && n * f < Pow2(bits)
    ensures HasBits(n * Pow10(k), n * f, k, bits)
  {
    hide Pow2, Pow10;
    Regroup(n, f, Pow2(k));
  }

  lemma Regroup(n: nat, f: nat, p: nat)
    ensures n * (f * p) == (n * f) * p
  {}

  lemma BothSmall(n: nat, p: nat, f: nat, q: nat)
    requires n < p && f <= q && q > 0
    ensures n * f < p * q
  {
    assert n * f <= n * q < p * q;
  }

  ghost predicate Says(o: Outcome, lit: real, bits: nat, emin: int) {
    match o
    case NoDigits => true
    case Zero => lit == 0.0
    case Exact(n) => lit == n as real
    case Quotient(n, d) => d > 0 && lit == n as real / d as real
    case Product(n, d) => lit == n as real * d as real && exists m, t :: HasBits(n * d, m, t, bits)
    case TooBig => lit >= RPow(2.0, -emin - bits + 3)
    case TooSmall => 0.0 < lit < RPow(2.0, emin - 226)
    case Scaled(_) => true
  }

  // The way out for integers short enough to need no scaling at all.
  lemma ShortWay(s: string, e10: int, p: Packing, dc: nat, rp: int, x0: nat, bits: nat, emin: int)
    requires AllDigits(Digits(s)) && Kept(DVal(Digits(s)), p, dc, false) && OneWord(p) && dc > 0
    requires (p.j == 0 ==> p.part == 0) && rp == dc - |FracPart(s)| + e10 && 0 < rp < 18
    requires |Padded(p)| > 0 && x0 == Padded(p)[0]
    ensures rp == 9 ==> Says(Exact(x0), Literal(s, e10), bits, emin)
    ensures rp < 9 ==> Says(Quotient(x0, Pow10(9 - rp)), Literal(s, e10), bits, emin)
    ensures rp > 9 ==> Literal(s, e10) == x0 as real * Pow10(rp - 9) as real
  {
    hide Literal, DVal, Padded, Kept, OneWord, RPow, Pow10;
    OneWordValue(s, e10, p, dc, rp);
    RPowZero(10.0);
    if rp < 9 {
      TenToThe(rp - 9, 9 - rp);
      Pow10Positive(9 - rp);
      Invert(x0 as real, RPow(10.0, rp - 9), Pow10(9 - rp) as real);
    } else {
      TenToThe(0, rp - 9);
    }
  }

  lemma ProductSays(lit: real, x0: nat, k: nat, bits: nat, emin: int)
    requires lit == x0 as real * Pow10(k) as real && x0 < WORD_MAX
    requires 3 * k <= bits && (bits - 3 * k > 30 || x0 < Pow2(bits - 3 * k))
    ensures Says(Product(x0, Pow10(k)), lit, bits, emin)
  {
    hide Pow2, Pow10, HasBits;
    Pow2Values();
    ProductFits(x0, k, bits);
  }

  lemma Invert(a: real, t: real, d: real)
    requires d > 0.0 && d * t == 1.0
    ensures a * t == a / d
  {
    assert t == 1.0 / d;
  }

  lemma OutOfRange(s: string, e10: int, dc: nat, n: int, emin: int, bits: nat)
    requires AllDigits(Digits(s)) && dc > 0 && Pow10(dc - 1) <= DVal(Digits(s)) < Pow10(dc)
    requires n == dc - |FracPart(s)| + e10 && Format(bits, emin)
    ensures n > -emin / 2 ==> Says(TooBig, Literal(s, e10), bits, emin)
    ensures n < emin - 226 ==> Says(TooSmall, Literal(s, e10), bits, emin)
  {
    hide Literal, DVal, RPow, Pow10;
    LiteralBounds(s, e10, dc, n);
    RPowPositive(10.0, n - 1);
    if n > -emin / 2 {
      Overflows(n, emin, bits);
    }
    if n < emin - 226 {
      Underflows(n, emin);
    }
  }

  lemma ShortSays(s: string, e10: int, p: Packing, dc: nat, x0: nat, bits: nat, emin: int)
    requires AllDigits(Digits(s)) && Kept(DVal(Digits(s)), p, dc, false) && 0 < dc < 10 && (p.j == 0 ==> p.part == 0)
    requires e10 == |FracPart(s)| && x0 == if |p.words| > 0 then p.words[0] else p.part
    ensures Says(Exact(x0), Literal(s, e10), bits, emin)
  {
    ShortInteger(s, e10, p, dc, x0);
  }

  lemma ZeroSays(s: string, e10: int, bits: nat, emin: int)
    requires AllDigits(Digits(s)) && DVal(Digits(s)) == 0
    ensures Says(Zero, Literal(s, e10), bits, emin)
  {
    hide DVal;
    LiteralIs(s, e10);
  }

  // The packed words as a decimal.
  ghost function Left(s: string, e10: int, p: Packing, n: int, sticky: bool): Decimal {
    if sticky then CutDecimal(p, n) else Written(s, e10)
  }

  lemma LeftIs(s: string, e10: int, p: Packing, n: int)
    ensures Left(s, e10, p, n, true) == CutDecimal(p, n) && Left(s, e10, p, n, false) == Written(s, e10)
  {}

  lemma PlacesOf(s: string, e10: int, p: Packing, dc: nat, n: int, sticky: bool)
    requires AllDigits(Digits(s)) && Kept(DVal(Digits(s)), p, dc, sticky) && dc > 0 && (p.j == 0 ==> p.part == 0)
    requires n == dc - |FracPart(s)| + e10 && (sticky <==> Truncated(s)) && -16720 <= n <= 8300
    ensures Value(Padded(p), n, 0) == Real(Left(s, e10, p, n, sticky)) && NoZeroAtEnd(Left(s, e10, p, n, sticky))
    ensures n <= 8247 ==> InRange(Value(Padded(p), n, 0))
  {
    hide *;
    LeftIs(s, e10, p, n);
    KeptWf(DVal(Digits(s)), p, dc, sticky);
    KeptFacts(DVal(Digits(s)), p, dc, sticky);
    LiteralIsPadded(s, e10, p, dc, n, sticky);
    LiteralBounds(s, e10, dc, n);
    RPowPositive(10.0, n - 1);
    if sticky {
      KeptMarked(DVal(Digits(s)), p, dc);
      CutReal(p, n);
      CutFacts(s, e10, p, dc, n);
    } else {
      WrittenReal(s, e10);
      NearSelf(Literal(s, e10));
      NearMore(Literal(s, e10), Literal(s, e10), 0, 1);
    }
    if n <= 8247 {
      PointInRange(Literal(s, e10), Value(Padded(p), n, 0), n);
    }
  }

  lemma PointInRange(t: real, v: real, n: int)
    requires RPow(10.0, n - 1) <= t < RPow(10.0, n) && Near(t, v, 1) && -16720 <= n <= 8247
    ensures InRange(v)
  {
    hide RPow, Near;
    NearHalf(t, v, 1);
    RPowMonotone(10.0, -16799, n - 1);
    RPowMonotone(10.0, n, 8299);
    RPowSucc(10.0, -16800);
    RPowSucc(10.0, 8299);
    RPowPositive(10.0, -16800);
  }

  // The packed number, neither too big nor too small: a short way out or the ring.
  method Settle(s: string, e10: int, bits: nat, ghost emin: int, x: array<u32>, k0: nat, j: nat, ghost dc: nat, lnz: nat,
                rp: int, ghost p: Packing, ghost sticky: bool) returns (o: Outcome)
    requires Format(bits, emin) && x.Length == KMAX && AllDigits(Digits(s))
    requires Kept(DVal(Digits(s)), p, dc, sticky) && Stored(x, p) && k0 == |p.words| && j == p.j
    requires 0 < lnz && 0 < dc == Significant(Digits(s)) && (lnz < 9 ==> OneWord(p) && !sticky)
    requires rp == dc - |FracPart(s)| + e10 && (sticky <==> Truncated(s)) && emin - 226 <= rp <= -emin / 2
    modifies x
    ensures o.Exact? || o.Quotient? || o.Product? || o.Scaled?
    ensures Says(o, Literal(s, e10), bits, emin) && (Truncated(s) ==> o.Scaled?)
    ensures o.Scaled? ==> o.r.Valid() && o.r.rp == 36 && TWO_112 <= Top4(o.r.words) < TWO_113
    ensures o.Scaled? ==> Carries(o.r.Denotes(), o.r.e2, s, e10, emin)
    ensures o.Scaled? && HasRoom(s, e10) ==> AllBelow(o.r.words, BASE + 1)
  {
    hide Value, Top4, Literal, DVal, Pow10, RPow, Num, Horner, Kept, OneWord, Padded, Truncated, Says, Carries, HasRoom, AllBelow,
      Format;
    FormatRange(bits, emin, rp);
    PaddedShape(DVal(Digits(s)), p, dc);
    var k := Pack(x, k0, j, p);
    assert x[0] as int == Padded(p)[0];
    if lnz < 9 && lnz <= rp && rp < 18 {
      ShortWay(s, e10, p, dc, rp, x[0] as nat, bits, emin);
      if rp == 9 {
        return Exact(x[0] as nat);
      }
      if rp < 9 {
        return Quotient(x[0] as nat, Pow10(9 - rp));
      }
      var bitlim := bits - 3 * (rp - 9);
      if bitlim > 30 || x[0] as int < Pow2(bitlim) {
        ProductSays(Literal(s, e10), x[0] as nat, rp - 9, bits, emin);
        return Product(x[0] as nat, Pow10(rp - 9));
      }
    }
    var r := IntoRing(s, e10, emin, x, k, dc, rp, p, sticky);
    o := Scaled(r);
    ScaledSays(r, Literal(s, e10), bits, emin);
  }

  // The way through the ring.
  method IntoRing(s: string, e10: int, ghost emin: int, x: array<u32>, k: nat, ghost dc: nat, rp: int, ghost p: Packing,
                  ghost sticky: bool) returns (r: Ring)
    requires x.Length == KMAX && AllDigits(Digits(s)) && Kept(DVal(Digits(s)), p, dc, sticky) && (p.j == 0 ==> p.part == 0)
    requires 0 < dc == Significant(Digits(s)) && rp == dc - |FracPart(s)| + e10 && (sticky <==> Truncated(s))
    requires -16720 <= rp <= 8247 && emin >= -16494 && p.j < 9 && k == |Padded(p)| <= KMAX - 3
    requires forall i {:trigger Padded(p)[i]} :: 0 <= i < k ==> x[i] as int == Padded(p)[i]
    modifies x
    ensures r.Valid() && r.rp == 36 && TWO_112 <= Top4(r.words) < TWO_113
    ensures Carries(r.Denotes(), r.e2, s, e10, emin) && (HasRoom(s, e10) ==> AllBelow(r.words, BASE + 1))
  {
    hide Value, Top4, Literal, DVal, Pow10, RPow, Num, Horner, Kept, Padded, Truncated, Carries, HasRoom, Left, Real,
      NoZeroAtEnd, Rescaled, RoomFor, InRange, Packed, Cut, AllBelow;
    PaddedShape(DVal(Digits(s)), p, dc);
    PlacesOf(s, e10, p, dc, rp, sticky);
    r := ScaleWords(x, k, rp, Padded(p), Left(s, e10, p, rp, sticky));
    LiteralIsPadded(s, e10, p, dc, rp, sticky);
    ScaledCarries(s, e10, emin, p, dc, rp, sticky, r.Denotes(), r.e2);
  }

  lemma FormatRange(bits: nat, emin: int, rp: int)
    requires Format(bits, emin) && emin - 226 <= rp <= -emin / 2
    ensures -16720 <= rp <= 8247 && emin >= -16494 && bits >= 24
  {}

  lemma ScaledCarries(s: string, e10: int, emin: int, p: Packing, dc: nat, n: int, sticky: bool, now: real, e2: int)
    requires AllDigits(Digits(s)) && Kept(DVal(Digits(s)), p, dc, sticky) && dc == Significant(Digits(s)) && n == PointAt(s, e10)
    requires (sticky <==> Truncated(s)) && emin >= -16494 && n <= 8300
    requires Rescaled(if sticky then Cut(p, n) else Literal(s, e10), Left(s, e10, p, n, sticky), now, e2)
    ensures Carries(now, e2, s, e10, emin)
    ensures var q := Left(s, e10, p, n, sticky);
            HasRoom(s, e10) ==> RoomFor(if sticky then Cut(p, n) else Literal(s, e10), q.twos, q.fives, q.places)
  {
    hide RPow, Kept, Truncated, Literal, Cut, Rescaled, Carries, HasRoom, RoomFor, Near, Alike, NoMerge, Comparable, Left, Written,
      CutDecimal, Packed;
    LeftIs(s, e10, p, n);
    if sticky {
      CutRoom(s, e10);
      CarriesCut(s, e10, emin, p, dc, n, now, e2);
      KeptMarked(DVal(Digits(s)), p, dc);
      CutReal(p, n);
      CutFacts(s, e10, p, dc, n);
      CutSize(Literal(s, e10), Cut(p, n), KEPT - n);
    } else {
      UncutRoom(s, e10);
      KeptBelow(DVal(Digits(s)), p, dc);
      CarriesUncut(s, e10, emin, now, e2);
    }
  }

  lemma KeptBelow(n: nat, p: Packing, dc: nat)
    requires Kept(n, p, dc, false)
    ensures n < Pow10(dc)
  {
    hide Packed, Pow10, Wf;
    PowTenZero();
  }

  lemma ScaledSays(r: Ring, lit: real, bits: nat, emin: int)
    ensures Says(Scaled(r), lit, bits, emin)
  {}

  // decfloat, up to where floating-point assembly starts.
  method Decfloat(s: string, e10: int, bits: nat, emin: int) returns (o: Outcome)
    requires Format(bits, emin)
    ensures AllDigits(Digits(s)) && Says(o, Literal(s, e10), bits, emin)
    ensures o.NoDigits? <==> Digits(s) == ""
    ensures o.Zero? <==> Digits(s) != "" && DVal(Digits(s)) == 0
    ensures Truncated(s) ==> o.Scaled? || o.TooBig? || o.TooSmall?
    ensures o.Scaled? ==> o.r.Valid() && o.r.rp == 36 && TWO_112 <= Top4(o.r.words) < TWO_113
    ensures o.Scaled? ==> Carries(o.r.Denotes(), o.r.e2, s, e10, emin)
    ensures o.Scaled? && HasRoom(s, e10) ==> AllBelow(o.r.words, BASE + 1)
    ensures o.Scaled? && o.r.Denotes() == Literal(s, e10) ==> MayHold(s, e10)
    ensures o.Scaled? ==> var top, unit := Top4(o.r.words) as real, RPow(2.0, o.r.e2);
                          top * unit <= o.r.Denotes() <= (top + 1.08) * unit
    ensures o.Scaled? && emin <= o.r.e2 && Comparable(s, e10) ==>
              TopOf(Literal(s, e10), Top4(o.r.words), o.r.e2)
  {
    hide Top4, Literal, DVal, Pow10, RPow, Num, Horner, Carries, HasRoom, Truncated, Says, Digits, TopOf, Comparable, MayHold, Written;
    var x := new u32[KMAX];
    var k, j, dc, lnz, lrp, gotdig;
    ghost var p, sticky;
    k, j, dc, lnz, lrp, gotdig, p, sticky := Intake(s, x);
    ghost var n := DVal(Digits(s));
    KeptFacts(n, p, dc, sticky);
    if !gotdig {
      NoSays(Literal(s, e10), bits, emin);
      return NoDigits;
    }
    if dc > 0 {
      PaddedShape(n, p, dc);
    }
    hide Kept, Padded;
    if x[0] == 0 {
      ZeroSays(s, e10, bits, emin);
      return Zero;
    }
    lrp := lrp + e10;
    OutOfRange(s, e10, dc, lrp, emin, bits);
    if lrp == dc && dc < 10 && (bits > 30 || x[0] as int < Pow2(bits)) {
      ShortSays(s, e10, p, dc, x[0] as nat, bits, emin);
      return Exact(x[0] as nat);
    }
    if lrp > -emin / 2 {
      return TooBig;
    }
    if lrp < emin - 2 * 113 {
      return TooSmall;
    }
    o := Settle(s, e10, bits, emin, x, k, j, dc, lnz, lrp, p, sticky);
    if o.Scaled? {
      SizedBelow(o.r);
      ScaledWords(s, e10, emin, o.r.words, o.r.e2);
    }
  }

  lemma ScaledWords(s: string, e10: int, emin: int, w: seq<nat>, e2: int)
    requires AllDigits(Digits(s)) && DVal(Digits(s)) > 0 && Carries(Value(w, 36, e2), e2, s, e10, emin)
    requires 0 < |w| < KMAX && AllBelow(w, WORD_MAX) && Top4(w) < TWO_113
    ensures Value(w, 36, e2) == Literal(s, e10) ==> MayHold(s, e10)
    ensures Top4(w) as real * RPow(2.0, e2) <= Value(w, 36, e2) <= (Top4(w) as real + 1.08) * RPow(2.0, e2)
    ensures emin <= e2 && Comparable(s, e10) ==> TopOf(Literal(s, e10), Top4(w), e2)
  {
    hide *;
    TopBounds(w, e2);
    TopIsLiterals(s, e10, emin, Top4(w), e2, Value(w, 36, e2));
    if Value(w, 36, e2) == Literal(s, e10) {
      OnlyWithRoom(s, e10, w, e2);
    }
  }

  // From top * 2^e2 up to, but not, (top + 3/2) * 2^e2.
  ghost predicate TopOf(t: real, top: nat, e2: int) {
    Multiple(2 * top, RPow(2.0, e2 - 1)) <= t < Multiple(2 * top + 3, RPow(2.0, e2 - 1))
  }

  lemma TopIsLiterals(s: string, e10: int, emin: int, top: nat, e2: int, now: real)
    requires Carries(now, e2, s, e10, emin)
    requires top as real * RPow(2.0, e2) <= now <= (top as real + 1.08) * RPow(2.0, e2)
    ensures emin <= e2 && Comparable(s, e10) ==> TopOf(Literal(s, e10), top, e2)
  {
    hide RPow, Literal, Comparable, HasRoom, Truncated;
    RPowSucc(2.0, e2 - 1);
    RPowPositive(2.0, e2 - 1);
    TopMultiples(top, RPow(2.0, e2 - 1), RPow(2.0, e2), now);
  }

  lemma TopMultiples(top: nat, h: real, unit: real, now: real)
    requires unit == 2.0 * h && h > 0.0 && top as real * unit <= now <= (top as real + 1.08) * unit
    ensures Multiple(2 * top, h) <= now < Multiple(2 * top + 3, h)
  {
    assert Multiple(2 * top, h) == top as real * unit;
    assert (top as real + 1.08) * unit == (2.0 * top as real + 2.16) * h;
    Below(2.0 * top as real + 2.16, (2 * top + 3) as real, h);
  }

  lemma NoSays(lit: real, bits: nat, emin: int)
    ensures Says(NoDigits, lit, bits, emin)
  {}
}
