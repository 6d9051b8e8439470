// The three rescaling loops run to completion.
module DecfloatScale {
  import opened BigDecimal
  import opened Bits
  import opened DecfloatRing
  import opened DecfloatBounds
  import opened DecfloatPlaces

  // Lexicographic comparison with the words of 2^113 - 1 decides the integer
  // comparison, even though words may exceed 10^9.
  lemma LexDecides(w: seq<nat>, i: nat)
    requires i < 4 && AllBelow(w, WORD_MAX)
    requires forall j: nat :: j < i ==> WordAt(w, j) == Th(j)
    ensures WordAt(w, i) < Th(i) ==> Top4(w) < TWO_113
    ensures WordAt(w, i) > Th(i) ==> Top4(w) >= TWO_113
  {
    assert i > 0 ==> WordAt(w, 0) == Th(0);
    assert i > 1 ==> WordAt(w, 1) == Th(1);
    assert i > 2 ==> WordAt(w, 2) == Th(2);
    assert WordAt(w, 1) < WORD_MAX && WordAt(w, 2) < WORD_MAX && WordAt(w, 3) < WORD_MAX;
  }

  lemma LexEqual(w: seq<nat>)
    requires forall j: nat :: j < 4 ==> WordAt(w, j) == Th(j)
    ensures Top4(w) == TWO_113 - 1
  {
    assert WordAt(w, 0) == Th(0) && WordAt(w, 1) == Th(1) && WordAt(w, 2) == Th(2) && WordAt(w, 3) == Th(3);
  }

  // The four leading words against the largest 113-bit number, word by word from the front.
  method TopFits(r: Ring) returns (fits: bool)
    requires r.Valid()
    ensures fits <==> Top4(r.words) < TWO_113
  {
    hide Top4;
    var i := 0;
    while i < 4
      invariant 0 <= i <= 4 && i <= |r.words|
      invariant forall j: nat {:trigger WordAt(r.words, j)} :: j < i ==> WordAt(r.words, j) == Th(j)
    {
      LexDecides(r.words, i);
      var k := Wrap(r.a + i);
      if k == r.z || r.x[k] as int < Th(i) {
        return true;
      }
      if r.x[k] as int > Th(i) {
        return false;
      }
      i := i + 1;
    }
    LexEqual(r.words);
    return true;
  }

  // One downscaling trip keeps at least 112 bits left of the radix point.
  lemma DownKeepsBits(w: seq<nat>, v: seq<nat>)
    requires Top4(w) >= TWO_113
    requires forall i: nat {:trigger WordAt(v, i)} :: i < 4 ==> WordAt(v, i) == DownWord(w, i, 1)
    ensures Top4(v) >= TWO_112
  {
    assert WordAt(v, 0) == WordAt(w, 0) / 2;
    assert WordAt(v, 1) == WordAt(w, 1) / 2 + WordAt(w, 0) % 2 * 500_000_000;
    assert WordAt(v, 2) == WordAt(w, 2) / 2 + WordAt(w, 1) % 2 * 500_000_000;
    assert WordAt(v, 3) == WordAt(w, 3) / 2 + WordAt(w, 2) % 2 * 500_000_000;
    assert 2 * Top4(v) + WordAt(w, 3) % 2 == Top4(w);
  }

  lemma LeadGivesBits(v: seq<nat>)
    requires |v| > 0 && v[0] >= Th(0)
    ensures Top4(v) >= TWO_112
  {}

  // What one downscaling trip, from words w to v, keeps.
  lemma DownTrip(w: seq<nat>, rp: int, v: seq<nat>, sh: nat, lost: bool)
    requires 0 < |w| < KMAX && w[0] > 0 && AllBelow(w, WORD_MAX) && |v| > 0 && v[0] > 0
    requires rp >= 36 && rp % 9 == 0 && (rp == 36 ==> Top4(w) >= TWO_113)
    requires sh == if rp > 45 then 9 else 1
    requires var kept := DownKept(w, sh);
             if lost then |kept| == KMAX - 1 && v == MarkTail(kept) else v == DownAll(w, sh)
    ensures var rp' := if Shr(w[0], sh) == 0 then rp - 9 else rp;
            && rp' >= 36
            && (rp' == 36 ==> Top4(v) >= TWO_112)
            && (rp' == rp ==> v[0] < w[0])
  {
    DownShape(w, sh);
    LeadingWords(w, v, sh, lost);
    if rp == 36 {
      TopLead(w);
    }
    LeadShrinks(w, rp, sh);
    if Shr(w[0], sh) == 0 && rp == 45 {
      LeadGivesBits(v);
    } else if rp == 36 {
      DownKeepsBits(w, v);
    }
  }

  lemma LeadShrinks(w: seq<nat>, rp: int, sh: nat)
    requires |w| > 0 && w[0] > 0 && sh == if rp > 45 then 9 else 1
    ensures Shr(w[0], sh) < w[0] && (w[0] >= Th(0) ==> Shr(w[0], sh) != 0)
  {}

  lemma TopLead(w: seq<nat>)
    requires |w| > 0 && Top4(w) >= TWO_113 && AllBelow(w, WORD_MAX)
    ensures w[0] >= Th(0)
  {
    LexDecides(w, 0);
  }

  lemma LeadingWords(w: seq<nat>, v: seq<nat>, sh: nat, lost: bool)
    requires sh == 1 || sh == 9
    requires 0 < |w| < KMAX && w[0] > 0 && AllBelow(w, WORD_MAX)
    requires var kept := DownKept(w, sh);
             if lost then |kept| == KMAX - 1 && v == MarkTail(kept) else v == DownAll(w, sh)
    ensures Shr(w[0], sh) != 0 ==> forall i: nat {:trigger WordAt(v, i)} :: i < 4 ==> WordAt(v, i) == DownWord(w, i, sh)
    ensures |v| > 0
    ensures if Shr(w[0], sh) == 0 then v[0] >= Shed(1, sh) && !lost && |v| <= |w| else v[0] == Shr(w[0], sh) && |v| <= |w| + 1
    ensures lost ==> |w| == KMAX - 1
  {
    DownShape(w, sh);
    assert DownWord(w, 0, sh) == Shr(w[0], sh);
    KeptLength(w, sh);
    assert Shr(w[0], sh) != 0 ==> WordAt(v, 0) == DownWord(w, 0, sh);
  }

  // A multiplied leading word carries no more than this once it was below the table's first.
  lemma CarryBound(w: seq<nat>)
    requires |w| > 0 && AllBelow(w, WORD_MAX) && w[0] < Th(0)
    ensures UpCarry(w, 0) < 6_000_000
  {
    UpCarryBound(w, 1);
    UpStep(w, 0);
  }

  // No more than 143 bits left of the point.
  predicate Upscaled(w: seq<nat>, rp: int)
    requires |w| > 0
  {
    rp <= 36 || (rp == 45 && w[0] < 6_000_000)
  }

  lemma UpscaledSize(w: seq<nat>, rp: int, e2: int)
    requires |w| > 0 && AllBelow(w, WORD_MAX) && rp % 9 == 0 && Upscaled(w, rp)
    ensures Value(w, rp, e2) < RPow(2.0, e2 + 143)
  {
    hide RPow, Num, Value, AllBelow;
    TenTo36();
    TwoToThe(e2, 143);
    Pow2Of143();
    RPowPositive(2.0, e2);
    if rp == 45 {
      LeadBounds(w, rp, e2, 6_000_001.0);
      UpperChain(Value(w, rp, e2), 6_000_001.0, RPow(10.0, 36), RPow(2.0, e2), Pow2(143) as real);
    } else {
      LeadBelow(w);
      LeadBounds(w, rp, e2, 1_073_741_826.0);
      RPowMonotone(10.0, rp - 9, 27);
      RPowPositive(10.0, rp - 9);
      UpperChain(Value(w, rp, e2), 1_073_741_826.0, RPow(10.0, rp - 9), RPow(2.0, e2), Pow2(143) as real);
    }
  }

  lemma LeadBelow(w: seq<nat>)
    requires |w| > 0 && AllBelow(w, WORD_MAX)
    ensures w[0] < WORD_MAX
  {}

  lemma UpperChain(v: real, hi: real, a: real, b: real, c: real)
    requires v <= hi * (a * b) && b > 0.0 && hi * a < c
    ensures v < c * b
  {
    MulAssoc(hi, a, b);
    Below(hi * a, c, b);
  }

  lemma Pow2Of143()
    ensures Pow2(143) == 0x80_0000_0000_0000_0000_0000_0000_0000 * 0x100_0000
  {
    Pow2Of119();
    assert Pow2(131) == 0x1000 * Pow2(119);
    assert Pow2(143) == 0x1000 * Pow2(131);
  }

  // The range exits leave numbers of this size only.
  ghost predicate InRange(t: real) {
    RPow(10.0, -16800) <= t <= RPow(10.0, 8300)
  }

  lemma RangeBits(t: real)
    requires InRange(t)
    ensures t > 0.0 && RPow(2.0, -67200) <= t <= RPow(2.0, 33200)
  {
    hide RPow;
    SixteenBeatsTen(8300);
    SixteenthsBelow(16800);
    RPowPositive(2.0, -67200);
  }

  lemma {:induction false} SixteenBeatsTen(n: nat)
    ensures RPow(10.0, n) <= RPow(2.0, 4 * n)
  {
    hide RPow;
    if n > 0 {
      SixteenBeatsTen(n - 1);
      RPowSucc(10.0, n - 1);
      TwoToThe(4 * (n - 1), 4);
      Pow2Of4();
      RPowPositive(2.0, 4 * (n - 1));
    } else {
      RPowZero(2.0);
      RPowZero(10.0);
    }
  }

  lemma {:induction false} SixteenthsBelow(n: int)
    requires n >= 0
    ensures RPow(2.0, -4 * n) <= RPow(10.0, -n)
  {
    hide RPow;
    if n > 0 {
      SixteenthsBelow(n - 1);
      RPowSucc(10.0, -n);
      TwoToThe(-4 * n, 4);
      assert -4 * n + 4 == -4 * (n - 1);
      Pow2Of4();
      RPowPositive(2.0, -4 * n);
    } else {
      RPowZero(2.0);
      RPowZero(10.0);
    }
  }

  lemma Pow2Of4()
    ensures Pow2(4) == 16
  {}

  // So many trips at most: each has made the number 2^29 times as large.
  lemma UpTrips(t: real, w: seq<nat>, rp: int, e2: int)
    requires InRange(t) && |w| > 0 && AllBelow(w, WORD_MAX) && rp % 9 == 0 && Upscaled(w, rp)
    requires -68000 <= e2 && Near(t, Value(w, rp, e2), -e2)
    ensures -e2 <= 67400
  {
    hide RPow, Value, Near, InRange, AllBelow;
    RangeBits(t);
    NearHalf(t, Value(w, rp, e2), -e2);
    UpscaledSize(w, rp, e2);
    RPowSucc(2.0, -67201);
    PowerBelow(-67201, e2 + 143);
  }

  // Few enough decimal places, for its fives and for where the point is at first, never to fill
  // the ring while upscaling.
  predicate FewPlaces(q: Decimal, rp0: int) {
    q.places - q.fives <= 18369 && q.places + rp0 <= 18414
  }

  // Upscale until enough digits stand left of the radix point.
  method Upscale(r: Ring, ghost q: Decimal) returns (ghost exact: bool)
    requires r.Valid() && r.rp % 9 == 0 && r.e2 == 0 && InRange(r.Denotes())
    modifies r, r.x
    ensures r.Valid() && r.rp % 9 == 0 && r.rp >= 36 && (r.rp == 36 ==> r.words[0] >= Th(0))
    ensures old(r.rp) > 36 || (old(r.rp) == 36 && old(r.words[0]) >= Th(0)) ==> r.rp == old(r.rp) && r.words == old(r.words) && r.e2 == 0
    ensures old(r.rp) < 36 || (old(r.rp) == 36 && old(r.words[0]) < Th(0)) ==> Upscaled(r.words, r.rp)
    ensures 9 * |r.words| - r.rp <= 9 * |old(r.words)| - old(r.rp) && (r.rp <= 45 || r.rp == old(r.rp))
    ensures exact ==> r.Denotes() == old(r.Denotes()) && (old(AllBelow(r.words, BASE + 1)) ==> AllBelow(r.words, BASE + 1))
    ensures 9 * |old(r.words)| - old(r.rp) + 45 < 9 * KMAX ==> exact
    ensures old(r.Denotes()) == Real(q) && FewPlaces(q, old(r.rp)) ==> exact
    ensures -67400 <= r.e2 <= 0 && Near(old(r.Denotes()), r.Denotes(), -r.e2)
    ensures r.e2 == 0 ==> r.Denotes() == old(r.Denotes()) && exact
  {
    hide Value, InRange, Near, RPow, Real, FewPlaces;
    exact := true;
    ghost var t, g, rp0 := r.Denotes(), 9 * |r.words| - r.rp, r.rp;
    RangeBits(t);
    NearSelf(t);
    while r.rp < 36 || (r.rp == 36 && r.x[r.a] as int < Th(0))
      invariant r.Valid() && r.rp % 9 == 0
      invariant r.e2 == 0 ==> exact && r.rp == rp0 && r.words == old(r.words)
      invariant r.e2 < 0 ==> Upscaled(r.words, r.rp) && (rp0 < 36 || (rp0 == 36 && old(r.words[0]) < Th(0)))
      invariant 9 * |r.words| - r.rp <= g && 29 * (r.rp - rp0) <= -9 * r.e2
      invariant exact ==> r.Denotes() == t && (old(AllBelow(r.words, BASE + 1)) ==> AllBelow(r.words, BASE + 1))
      invariant g + 45 < 9 * KMAX ==> exact
      invariant t == Real(q) && FewPlaces(q, rp0) ==> exact
      invariant -67400 <= r.e2 <= 0 && Near(t, r.Denotes(), -r.e2)
      decreases 45 - r.rp, WORD_MAX - r.words[0]
    {
      assert r.x[r.a] as int == r.words[0];
      var lost := UpscaleOnce(r, t, q, rp0);
      exact := exact && lost == 0;
    }
    assert r.x[r.a] as int == r.words[0];
  }

  // One trip of the loop: 2^29 times larger.
  method UpscaleOnce(r: Ring, ghost t: real, ghost q: Decimal, ghost rp0: int) returns (lost: nat)
    requires r.Valid() && r.rp % 9 == 0 && r.rp <= 36 && (r.rp == 36 ==> r.words[0] < Th(0)) && 29 * (r.rp - rp0) <= -9 * r.e2
    requires InRange(t) && -67400 <= r.e2 <= 0 && Near(t, r.Denotes(), -r.e2)
    modifies r, r.x
    ensures r.Valid() && r.rp % 9 == 0 && Upscaled(r.words, r.rp) && 29 * (r.rp - rp0) <= -9 * r.e2
    ensures if r.rp == old(r.rp) then r.words[0] > old(r.words[0]) else r.rp == old(r.rp) + 9
    ensures 9 * |r.words| - r.rp <= 9 * |old(r.words)| - old(r.rp)
    ensures lost == 0 ==> r.Denotes() == old(r.Denotes()) && (old(AllBelow(r.words, BASE + 1)) ==> AllBelow(r.words, BASE + 1))
    ensures lost != 0 ==> 9 * |old(r.words)| - old(r.rp) + 45 >= 9 * KMAX
    ensures lost != 0 && old(r.Denotes()) == Real(q) ==> !FewPlaces(q, rp0)
    ensures -67400 <= r.e2 == old(r.e2) - 29 && Near(t, r.Denotes(), -r.e2)
  {
    hide Value, InRange, Near, MergeTail, UpCarry, AllBelow, RPow, Speck, Real;
    ghost var w, d, k := r.words, r.Denotes(), -r.e2;
    ghost var all;
    SizedBelow(r);
    lost, all := r.UpscalePass();
    if r.rp == 45 {
      CarryBound(w);
    }
    if |all| == KMAX {
      MergeClose(all, r.rp, r.e2);
      NearStep(t, d, r.Denotes(), k, -r.e2);
    } else {
      NearMore(t, d, k, -r.e2);
    }
    if lost != 0 && d == Real(q) {
      MergeNeeds(all, r.rp, r.e2, q, rp0);
    }
    SizedBelow(r);
    UpTrips(t, r.words, r.rp, r.e2);
  }

  lemma SizedBelow(r: Ring)
    requires r.Valid()
    ensures AllBelow(r.words, WORD_MAX) && 0 < |r.words| < KMAX && r.words[0] < WORD_MAX
  {}

  // One trip of the loop: two or 2^9 times smaller. `all` are the words of the same number,
  // which a full ring can only hold with a mark in place of the last one.
  method DownscaleOnce(r: Ring) returns (lost: nat, ghost all: seq<nat>)
    requires r.Valid() && r.rp % 9 == 0 && r.rp >= 36 && (r.rp == 36 ==> Top4(r.words) >= TWO_113)
    modifies r, r.x
    ensures r.Valid() && r.rp % 9 == 0 && 36 <= r.rp <= old(r.rp) && (r.rp == 36 ==> Top4(r.words) >= TWO_112)
    ensures r.rp == old(r.rp) ==> r.words[0] < old(r.words[0])
    ensures old(r.e2) < r.e2 <= old(r.e2) + 9
    ensures lost == 0 ==> r.Denotes() == old(r.Denotes()) && (old(AllBelow(r.words, BASE + 1)) ==> AllBelow(r.words, BASE + 1))
    ensures 0 < |all| <= KMAX && all[0] > 0 && AllBelow(all, WORD_MAX) && Value(all, r.rp, r.e2) == old(r.Denotes())
    ensures r.rp == 36 ==> Top4(all) >= TWO_112
    ensures lost != 0 ==> |all| == KMAX && 0 < all[KMAX - 1] < BASE && all[0] > 0 && r.words == MarkTail(all[..KMAX - 1])
  {
    hide Value, Top4;
    ghost var w, rp := r.words, r.rp;
    var sh := if r.rp > 45 then 9 else 1;
    lost := r.DownscalePass(sh);
    all := DownAll(w, sh);
    DownTrip(w, rp, r.words, sh, lost != 0);
    DownShape(w, sh);
    DownTrip(w, rp, all, sh, false);
    if lost != 0 {
      assert all[..KMAX - 1] == DownKept(w, sh);
    }
    assert |all| <= KMAX by { DownLength(w, sh); }
  }

  lemma DownLength(w: seq<nat>, sh: nat)
    requires (sh == 1 || sh == 9) && |w| < KMAX
    ensures |DownAll(w, sh)| <= KMAX
  {}

  // What downscaling has kept of the number d it began with at e0.
  ghost predicate Follows(d: real, e0: int, now: real, e2: int) {
    && e0 <= e2 <= 33100 && Near(d, now, 2 * (e2 - e0)) && Alike(d, now, RPow(2.0, e2 - 1))
  }

  lemma FollowStart(d: real, e0: int)
    requires d > 0.0 && e0 <= 0
    ensures Follows(d, e0, d, e0)
  {
    hide Near, Alike, RPow;
    NearSelf(d);
    AlikeSelf(d, RPow(2.0, e0 - 1));
  }

  // A trip that loses nothing.
  lemma FollowOn(d: real, e0: int, now: real, e: int, w: seq<nat>, rp: int, e2: int)
    requires Follows(d, e0, now, e) && 0.0 < d <= RPow(2.0, 33201) && -67400 <= e0 && e < e2 && now == Value(w, rp, e2)
    requires |w| > 0 && w[0] > 0 && AllBelow(w, WORD_MAX) && rp >= 36 && rp % 9 == 0 && (rp == 36 ==> Top4(w) >= TWO_112)
    ensures Follows(d, e0, now, e2)
  {
    hide Near, Alike, RPow, Value, Top4, AllBelow;
    NearMore(d, now, 2 * (e - e0), 2 * (e2 - e0));
    TwoToThe(e - 1, e2 - e);
    assert e - 1 + (e2 - e) == e2 - 1;
    AlikeCoarser(d, now, RPow(2.0, e - 1), Pow2(e2 - e), RPow(2.0, e2 - 1));
    DownTrips(d, 2 * (e - e0), w, rp, e2);
  }

  // So many trips at most: the number is still 113 bits or more.
  lemma DownTrips(d: real, k: int, w: seq<nat>, rp: int, e2: int)
    requires 0.0 < d <= RPow(2.0, 33201) && k <= 1_000_000 && Near(d, Value(w, rp, e2), k)
    requires |w| > 0 && w[0] > 0 && AllBelow(w, WORD_MAX) && rp >= 36 && rp % 9 == 0 && (rp == 36 ==> Top4(w) >= TWO_112)
    ensures e2 <= 33100
  {
    hide Near, Alike, RPow, Value, Top4, AllBelow;
    NearHalf(d, Value(w, rp, e2), k);
    ScaledSize(w, rp, e2);
    var n := e2 + if rp == 36 then 112 else 119 + 29 * ((rp - 45) / 9);
    RPowSucc(2.0, 33201);
    RPowSucc(2.0, 33202);
    RPowPositive(2.0, 33202);
    PowerBelow(n, 33203);
  }

  // A trip that marks the last word.
  lemma FollowMarked(d: real, e0: int, now: real, e: int, all: seq<nat>, w: seq<nat>, rp: int, e2: int)
    requires Follows(d, e0, now, e) && 0.0 < d <= RPow(2.0, 33201) && -67400 <= e0 && e < e2 && now == Value(all, rp, e2)
    requires |all| == KMAX && all[0] > 0 && AllBelow(all, WORD_MAX) && 0 < all[KMAX - 1] < BASE && rp <= 18000
    requires rp >= 36 && rp % 9 == 0 && (rp == 36 ==> Top4(all) >= TWO_112) && w == MarkTail(all[..KMAX - 1])
    ensures Follows(d, e0, Value(w, rp, e2), e2)
  {
    hide Near, Alike, RPow, Value, Top4, AllBelow, MarkTail, Speck;
    FollowOn(d, e0, now, e, all, rp, e2);
    var kept, c := all[..KMAX - 1], all[KMAX - 1];
    assert all == kept + [c];
    FewerBelow(all);
    MarkClose(kept, c, rp, e2);
    NearStep(d, now, Value(w, rp, e2), 2 * (e - e0), 2 * (e2 - e0));
    MarkAlike(kept, c, rp, e2);
    AlikeChain(d, now, Value(w, rp, e2), RPow(2.0, e2 - 1));
  }

  lemma FewerBelow(all: seq<nat>)
    requires |all| == KMAX && AllBelow(all, WORD_MAX)
    ensures AllBelow(all[..KMAX - 1], WORD_MAX)
  {}

  // Room for a number with its point at rp0 or lower: not too many places for its fives, and not
  // too many bits for its twos.
  ghost predicate Enough(d: real, q: Decimal, rp0: int) {
    d == Real(q) && q.places - q.fives + rp0 < 18424 && Real(q) < RPow(2.0, 18498 + q.twos - q.places)
  }

  lemma NeverFull(d: real, q: Decimal, rp0: int, all: seq<nat>, rp: int, e2: int)
    requires |all| == KMAX && all[0] > 0 && AllBelow(all, WORD_MAX) && 0 < all[KMAX - 1] < BASE && rp <= rp0
    requires rp >= 36 && rp % 9 == 0 && (rp == 36 ==> Top4(all) >= TWO_112) && Value(all, rp, e2) == d
    ensures !Enough(d, q, rp0)
  {
    hide RPow, Value, Top4, AllBelow, Real;
    if Enough(d, q, rp0) {
      FullNeeds(all, rp, e2, q);
    }
  }

  // One trip and what it keeps.
  method DownscaleTrip(r: Ring, ghost d: real, ghost e0: int, ghost rp0: int) returns (lost: nat, ghost all: seq<nat>)
    requires r.Valid() && r.rp % 9 == 0 && 36 <= r.rp <= rp0 <= 18000 && (r.rp == 36 ==> Top4(r.words) >= TWO_113)
    requires Follows(d, e0, r.Denotes(), r.e2) && 0.0 < d <= RPow(2.0, 33201) && -67400 <= e0
    modifies r, r.x
    ensures r.Valid() && r.rp % 9 == 0 && 36 <= r.rp <= old(r.rp) && (r.rp == 36 ==> Top4(r.words) >= TWO_112)
    ensures r.rp == old(r.rp) ==> r.words[0] < old(r.words[0])
    ensures lost == 0 ==> r.Denotes() == old(r.Denotes()) && (old(AllBelow(r.words, BASE + 1)) ==> AllBelow(r.words, BASE + 1))
    ensures Follows(d, e0, r.Denotes(), r.e2)
    ensures lost != 0 && old(r.Denotes()) == d ==> forall q :: !Enough(d, q, rp0)
  {
    hide Value, Top4, Follows, Enough, MarkTail, RPow, AllBelow;
    ghost var now, e := r.Denotes(), r.e2;
    FollowRange(d, e0, now, e);
    lost, all := DownscaleOnce(r);
    if lost == 0 {
      SizedBelow(r);
      FollowOn(d, e0, now, e, r.words, r.rp, r.e2);
    } else {
      FollowMarked(d, e0, now, e, all, r.words, r.rp, r.e2);
      forall q | now == d
        ensures !Enough(d, q, rp0)
      {
        NeverFull(d, q, rp0, all, r.rp, r.e2);
      }
    }
  }

  lemma FollowRange(d: real, e0: int, now: real, e: int)
    requires Follows(d, e0, now, e)
    ensures e0 <= e
  {}

  // Downscale until exactly 113 bits stand left of the radix point.
  method Downscale(r: Ring, ghost q: Decimal) returns (ghost exact: bool)
    requires r.Valid() && r.rp % 9 == 0 && 36 <= r.rp <= 18000 && (r.rp == 36 ==> Top4(r.words) >= TWO_112)
    requires -67400 <= r.e2 <= 0 && 0.0 < r.Denotes() <= RPow(2.0, 33201)
    modifies r, r.x
    ensures r.Valid() && r.rp == 36 && TWO_112 <= Top4(r.words) < TWO_113
    ensures exact ==> r.Denotes() == old(r.Denotes()) && (old(AllBelow(r.words, BASE + 1)) ==> AllBelow(r.words, BASE + 1))
    ensures Enough(old(r.Denotes()), q, old(r.rp)) ==> exact
    ensures Follows(old(r.Denotes()), old(r.e2), r.Denotes(), r.e2)
  {
    hide Value, Top4, Follows, Enough, RPow, AllBelow;
    exact := true;
    ghost var d, e0, rp0 := r.Denotes(), r.e2, r.rp;
    FollowStart(d, e0);
    while true
      invariant r.Valid() && r.rp % 9 == 0 && 36 <= r.rp <= rp0 && (r.rp == 36 ==> Top4(r.words) >= TWO_112)
      invariant exact ==> r.Denotes() == d && (old(AllBelow(r.words, BASE + 1)) ==> AllBelow(r.words, BASE + 1))
      invariant Enough(d, q, rp0) ==> exact
      invariant Follows(d, e0, r.Denotes(), r.e2)
      decreases r.rp, r.words[0]
    {
      var fits := TopFits(r);
      if fits && r.rp == 36 {
        break;
      }
      var lost;
      ghost var all;
      lost, all := DownscaleTrip(r, d, e0, rp0);
      exact := exact && lost == 0;
    }
  }
}
