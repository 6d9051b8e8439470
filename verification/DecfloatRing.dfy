// The rescaling loops of decfloat: base-10^9 words in a ring of KMAX slots,
// multiplied by 2^29 or divided by 2 or 2^9 in place until exactly 113 bits
// stand left of the radix point.
module DecfloatRing {
  import opened BigDecimal
  import opened Bits

  newtype u32 = x: int | 0 <= x < 0x1_0000_0000
  newtype u64 = x: int | 0 <= x < 0x1_0000_0000_0000_0000

  const KMAX: int := 2048
  // Slack over 10^9 that the sticky "or" needs: every word stays below 2^30.
  const WORD_MAX: int := 0x4000_0000
  const TWO_112: int := 0x1_0000_0000_0000_0000_0000_0000_0000
  const TWO_113: int := 2 * TWO_112

  // i & MASK, for indices at most one ring away.
  function Wrap(i: int): (r: nat)
    requires -KMAX <= i < 2 * KMAX
    ensures r < KMAX
  {
    if i < 0 then i + KMAX else if i < KMAX then i else i - KMAX
  }

  // LD_B1B_MAX for a 113-bit significand: the words of 2^113 - 1.
  function Th(i: nat): nat
    requires i < 4
  {
    if i == 0 then 10384593 else if i == 1 then 717069655 else if i == 2 then 257060992 else 658440191
  }

  function WordAt(w: seq<nat>, i: nat): nat {
    if i < |w| then w[i] else 0
  }

  // The four leading words read as one integer.
  function Top4(w: seq<nat>): nat {
    ((WordAt(w, 0) * BASE + WordAt(w, 1)) * BASE + WordAt(w, 2)) * BASE + WordAt(w, 3)
  }

  ghost predicate AllBelow(w: seq<nat>, bound: nat) {
    forall i :: 0 <= i < |w| ==> w[i] < bound
  }

  ghost predicate Holds(x: array<u32>, a: nat, w: seq<nat>)
    requires x.Length == KMAX && a < KMAX && |w| <= KMAX
    reads x
  {
    forall i {:trigger w[i]} :: 0 <= i < |w| ==> x[Wrap(a + i)] as int == w[i]
  }

  // The last two words of a full ring collapsed into one.
  function MergeTail(w: seq<nat>): seq<nat>
    requires |w| >= 2
  {
    w[..|w| - 2] + [BitOr(w[|w| - 2], w[|w| - 1])]
  }

  lemma MergeTailNum(h: seq<nat>, p: nat, q: nat)
    requires p < WORD_MAX && q < WORD_MAX
    ensures BitOr(p, q) < WORD_MAX
    ensures Num(h + [BitOr(p, q)] + [0]) == Num(h + [p] + [q]) <==> q == 0
  {
    Pow2Values();
    BitOrBounds(p, q, 30);
    BitOrParity(p, q);
    OrIsExact(BitOr(p, q), p, q);
    hide BitOr, Horner, Pow2;
    HornerAppend(0, h, p);
    HornerAppend(0, h + [p], q);
    HornerAppend(0, h, BitOr(p, q));
    HornerAppend(0, h + [BitOr(p, q)], 0);
  }

  // Setting bits of q in p cannot add exactly q / 10^9: that would need q = 10^9,
  // which is even, to set only the lowest bit.
  lemma OrIsExact(b: nat, p: nat, q: nat)
    requires p <= b && q < 2 * BASE && (q == 0 ==> b == p)
    requires b % 2 == if p % 2 == 1 || q % 2 == 1 then 1 else 0
    ensures b * BASE == p * BASE + q <==> q == 0
  {
    if b == p + 1 {
      assert q % 2 == 1;
    }
  }

  lemma MergeTailShape(w: seq<nat>)
    requires |w| > 2
    ensures |MergeTail(w)| == |w| - 1 && MergeTail(w)[0] == w[0]
  {}

  lemma MergedLead(all: seq<nat>)
    requires |all| > 0
    ensures |all| == KMAX ==> MergeTail(all)[0] == all[0]
  {}

  lemma MergeTailValue(w: seq<nat>, rp: int, e2: int)
    requires |w| >= 2 && AllBelow(w, WORD_MAX)
    ensures AllBelow(MergeTail(w), WORD_MAX)
    ensures Value(MergeTail(w), rp, e2) == Value(w, rp, e2) <==> w[|w| - 1] == 0
    ensures w[|w| - 1] == 0 ==> MergeTail(w) == w[..|w| - 1]
  {
    var n := |w|;
    var p, q, h := w[n - 2], w[n - 1], w[..n - 2];
    MergeTailNum(h, p, q);
    assert w == h + [p] + [q];
    ValueAppendZero(MergeTail(w), rp, e2);
    ValueInjective(MergeTail(w) + [0], w, rp, rp, e2);
  }

  // The carry out of words i.. when all words are multiplied by 2^29, and the word
  // left at i. The test is `>`, so a word may be left at exactly 10^9.
  function UpTotal(w: seq<nat>, i: nat): nat
    requires i < |w|
    decreases |w| - i, 0
  {
    w[i] * 0x2000_0000 + UpCarry(w, i + 1)
  }

  function UpCarry(w: seq<nat>, i: nat): nat
    requires i <= |w|
    decreases |w| - i, 1
  {
    if i == |w| || UpTotal(w, i) <= BASE then 0 else UpTotal(w, i) / BASE
  }

  function UpWord(w: seq<nat>, i: nat): nat
    requires i < |w|
  {
    if UpTotal(w, i) <= BASE then UpTotal(w, i) else UpTotal(w, i) % BASE
  }

  function UpWords(w: seq<nat>): seq<nat> {
    seq(|w|, i requires 0 <= i < |w| => UpWord(w, i))
  }

  lemma {:induction false} UpCarryBound(w: seq<nat>, i: nat)
    requires i <= |w| && AllBelow(w, WORD_MAX)
    ensures UpCarry(w, i) < WORD_MAX
    ensures AllBelow(w, BASE + 1) ==> UpCarry(w, i) <= BASE
    decreases |w| - i
  {
    if i < |w| {
      UpCarryBound(w, i + 1);
    }
  }

  lemma {:induction false} UpExact(w: seq<nat>, j: nat)
    requires j <= |w|
    ensures Horner(Num(w[..j]) * 0x2000_0000 + UpCarry(w, j), UpWords(w)[j..]) == Num(w) * 0x2000_0000
    decreases |w| - j
  {
    var v := UpWords(w);
    if j == |w| {
      assert w[..j] == w && v[j..] == [];
    } else {
      UpExact(w, j + 1);
      assert w[..j + 1] == w[..j] + [w[j]];
      HornerAppend(0, w[..j], w[j]);
      assert v[j..][1..] == v[j + 1..];
    }
  }

  lemma UpTop(w: seq<nat>)
    ensures UpCarry(w, |w|) == 0
  {}

  lemma UpStep(w: seq<nat>, i: nat)
    requires i < |w|
    ensures UpTotal(w, i) == w[i] * 0x2000_0000 + UpCarry(w, i + 1)
    ensures UpCarry(w, i) == if UpTotal(w, i) <= BASE then 0 else UpTotal(w, i) / BASE
    ensures UpWord(w, i) == if UpTotal(w, i) <= BASE then UpTotal(w, i) else UpTotal(w, i) % BASE
  {}

  lemma UpBounds(w: seq<nat>)
    requires |w| > 0 && AllBelow(w, WORD_MAX)
    ensures AllBelow(UpWords(w), BASE + 1)
    ensures UpCarry(w, 0) < WORD_MAX
    ensures AllBelow(w, BASE + 1) ==> UpCarry(w, 0) <= BASE
    ensures UpCarry(w, 0) == 0 && w[0] > 0 ==> UpWords(w)[0] > w[0]
  {
    UpCarryBound(w, 0);
  }

  // What is left of the words after a trip, the new leading word aside.
  lemma UpTrip(w: seq<nat>, m: nat)
    requires 0 < m <= |w| && w[0] > 0 && AllBelow(w, WORD_MAX)
    ensures |UpWords(w)| == |w|
    ensures var v := UpWords(w)[..m];
            && AllBelow(v, BASE + 1) && AllBelow(v, WORD_MAX) && (UpCarry(w, 0) == 0 ==> v[0] > w[0])
            && AllBelow([UpCarry(w, 0)] + v, WORD_MAX) && UpCarry(w, 0) < WORD_MAX
            && (AllBelow(w, BASE + 1) ==> UpCarry(w, 0) <= BASE)
  {
    UpBounds(w);
    hide UpCarry, UpWord;
  }

  // The last two words that are left: at most 10^9, and only then is the carry out of the last
  // zero, which makes the one before it a multiple of 2^9.
  lemma UpLast(w: seq<nat>, m: nat)
    requires 2 <= m <= |w|
    ensures UpWord(w, m - 1) <= BASE && (UpWord(w, m - 1) == BASE ==> UpWord(w, m - 2) % 512 == 0)
  {
    hide UpTotal, UpCarry, UpWord;
    UpStep(w, m - 1);
    UpStep(w, m - 2);
    Multiples512(w[m - 2]);
  }

  lemma Multiples512(x: nat)
    ensures x * 0x2000_0000 % 512 == 0 && x * 0x2000_0000 % BASE % 512 == 0
  {
    var t := x * 0x2000_0000;
    StillMultiple(x * 0x10_0000, t / BASE, t % BASE);
    StillMultiple(x * 0x10_0000, 0, t);
  }

  lemma StillMultiple(a: nat, q: nat, r: nat)
    requires 512 * a == q * BASE + r
    ensures r % 512 == 0
  {
    assert r == 512 * (a - q * 1_953_125);
  }

  // The pass multiplies the integer by 2^29 exactly, once the exponent has moved.
  lemma UpValue(w: seq<nat>, m: nat, rp: int, e2: int)
    requires |w| > 0 && m <= |w|
    requires forall i :: m <= i < |w| ==> UpWord(w, i) == 0
    ensures var c, v := UpCarry(w, 0), UpWords(w)[..m];
            Value(if c == 0 then v else [c] + v, if c == 0 then rp else rp + 9, e2 - 29) == Value(w, rp, e2)
  {
    hide Value;
    var c, v := UpCarry(w, 0), UpWords(w);
    UpExact(w, 0);
    assert w[..0] == [] && v[0..] == v;
    Pow2Values();
    if c == 0 {
      ValueScale(w, v, rp, rp, e2, 29);
      ValueDropTrailingZeros(v, m, rp, e2 - 29);
    } else {
      var full := [c] + v;
      assert full[1..] == v && full[..m + 1] == [c] + v[..m];
      ValueScale(w, full, rp, rp + 9, e2, 29);
      ValueDropTrailingZeros(full, m + 1, rp + 9, e2 - 29);
    }
  }

  // What a word shifted right by sh bits keeps, and what its lowest bits are worth in the next
  // word. Exact because 2^9 divides 10^9.
  function Shr(x: nat, sh: nat): nat
    requires sh == 1 || sh == 9
  {
    if sh == 1 then x / 2 else x / 512
  }

  function Shed(x: nat, sh: nat): nat
    requires sh == 1 || sh == 9
  {
    if sh == 1 then x % 2 * 500_000_000 else x % 512 * 1_953_125
  }

  // The word left at i when all words are shifted right.
  function DownWord(w: seq<nat>, i: nat, sh: nat): nat
    requires sh == 1 || sh == 9
  {
    Shr(WordAt(w, i), sh) + DownCarry(w, i, sh)
  }

  function DownCarry(w: seq<nat>, i: nat, sh: nat): nat
    requires sh == 1 || sh == 9
  {
    if i == 0 then 0 else Shed(WordAt(w, i - 1), sh)
  }

  function DownWords(w: seq<nat>, sh: nat): seq<nat>
    requires sh == 1 || sh == 9
  {
    seq(|w|, i requires 0 <= i < |w| => DownWord(w, i, sh))
  }

  lemma ShiftExact(x: nat, sh: nat)
    requires sh == 1 || sh == 9
    ensures Pow2(sh) * (Shr(x, sh) * BASE + Shed(x, sh)) == x * BASE
  {
    Pow2Values();
  }

  lemma CarryIsShed(w: seq<nat>, j: nat, sh: nat)
    requires (sh == 1 || sh == 9) && 0 < j <= |w|
    ensures DownCarry(w, j, sh) == Shed(w[j - 1], sh)
  {}

  lemma {:induction false} DownExact(w: seq<nat>, j: nat, sh: nat)
    requires sh == 1 || sh == 9
    requires j <= |w|
    ensures Pow2(sh) * (Num(DownWords(w, sh)[..j]) * BASE + DownCarry(w, j, sh)) == Num(w[..j]) * BASE
  {
    hide Horner, Shr, Shed, DownCarry;
    var v := DownWords(w, sh);
    if j > 0 {
      DownExact(w, j - 1, sh);
      ShiftExact(w[j - 1], sh);
      assert Shed(w[j - 1], sh) == DownCarry(w, j, sh) by { CarryIsShed(w, j, sh); }
      assert w[..j] == w[..j - 1] + [w[j - 1]] && v[..j] == v[..j - 1] + [v[j - 1]];
      HornerAppend(0, w[..j - 1], w[j - 1]);
      HornerAppend(0, v[..j - 1], v[j - 1]);
      assert v[j - 1] == Shr(w[j - 1], sh) + DownCarry(w, j - 1, sh);
      Pow2Values();
    } else {
      NothingDown(w, sh);
    }
  }

  lemma NothingDown(w: seq<nat>, sh: nat)
    requires sh == 1 || sh == 9
    ensures Num(DownWords(w, sh)[..0]) == Num(w[..0]) == DownCarry(w, 0, sh) == 0
  {}

  lemma FirstDown(w: seq<nat>, sh: nat)
    requires (sh == 1 || sh == 9) && |w| > 0
    ensures DownWord(w, 0, sh) == Shr(w[0], sh)
  {}

  lemma DownStep(w: seq<nat>, j: nat, sh: nat)
    requires sh == 1 || sh == 9
    requires AllBelow(w, WORD_MAX) && j < |w|
    ensures Shr(w[j], sh) + DownCarry(w, j, sh) == DownWord(w, j, sh) < WORD_MAX
    ensures Shed(w[j], sh) == DownCarry(w, j + 1, sh) < BASE
  {
    DownBounds(w, j, sh);
    DownBounds(w, j + 1, sh);
  }

  // What one trip leaves: divided words, without a leading zero, and one more
  // word for what the last one sheds.
  function DownKept(w: seq<nat>, sh: nat): seq<nat>
    requires sh == 1 || sh == 9
  {
    if DownWord(w, 0, sh) == 0 && |w| > 0 then DownWords(w, sh)[1..] else DownWords(w, sh)
  }

  function DownAll(w: seq<nat>, sh: nat): seq<nat>
    requires sh == 1 || sh == 9
  {
    var c := DownCarry(w, |w|, sh);
    if c == 0 then DownKept(w, sh) else DownKept(w, sh) + [c]
  }

  // The pass divides the integer exactly: what each word sheds moves down as a
  // multiple of 10^9 / 2^sh.
  lemma DownValue(w: seq<nat>, sh: nat, rp: int, e2: int)
    requires |w| > 0 && (sh == 1 || sh == 9)
    ensures Value(DownAll(w, sh), if DownWord(w, 0, sh) == 0 then rp - 9 else rp, e2 + sh) == Value(w, rp, e2)
  {
    hide Value, Horner, Shr, Shed;
    Pow2Values();
    var c, v := DownCarry(w, |w|, sh), DownWords(w, sh);
    DownExact(w, |w|, sh);
    assert w[..|w|] == w && v[..|v|] == v;
    HornerAppend(0, v, c);
    HornerAppend(0, w, 0);
    ValueScale(v + [c], w + [0], rp, rp, e2 + sh, sh);
    ValueAppendZero(w, rp, e2);
    if c == 0 {
      ValueAppendZero(v, rp, e2 + sh);
    }
    var u := if c == 0 then v else v + [c];
    if DownWord(w, 0, sh) == 0 {
      ValueDropLeadingZero(u, rp, e2 + sh);
      assert u[1..] == DownAll(w, sh);
    } else {
      assert u == DownAll(w, sh);
    }
  }

  lemma DownShape(w: seq<nat>, sh: nat)
    requires sh == 1 || sh == 9
    requires |w| > 0 && w[0] > 0 && AllBelow(w, WORD_MAX)
    ensures AllBelow(DownAll(w, sh), WORD_MAX) && AllBelow(DownKept(w, sh), WORD_MAX)
    ensures DownCarry(w, |w|, sh) < BASE
    ensures AllBelow(w, BASE + 1) ==> AllBelow(DownAll(w, sh), BASE + 1)
    ensures |DownAll(w, sh)| > 0 && DownAll(w, sh)[0] > 0
    ensures Shr(w[0], sh) == 0 ==> DownAll(w, sh)[0] >= Shed(1, sh)
    ensures Shr(w[0], sh) != 0 ==>
              forall i: nat {:trigger WordAt(DownAll(w, sh), i)} :: i <= |w| ==> WordAt(DownAll(w, sh), i) == DownWord(w, i, sh)
  {
    hide DownWord, DownCarry, Shr, Shed;
    FirstDown(w, sh);
    forall i: nat
      ensures DownWord(w, i, sh) < WORD_MAX && DownCarry(w, i, sh) < BASE && (AllBelow(w, BASE + 1) ==> DownWord(w, i, sh) <= BASE)
    {
      DownBounds(w, i, sh);
    }
    DownLead(w, sh);
    DownEnd(w, sh);
  }

  lemma DownLead(w: seq<nat>, sh: nat)
    requires (sh == 1 || sh == 9) && |w| > 0 && w[0] > 0
    ensures DownWord(w, 0, sh) == 0 ==> DownCarry(w, 1, sh) >= Shed(1, sh) > 0 && DownWord(w, 1, sh) >= DownCarry(w, 1, sh)
  {}

  // Beyond the words only the last carry is left.
  lemma DownEnd(w: seq<nat>, sh: nat)
    requires sh == 1 || sh == 9
    ensures DownWord(w, |w|, sh) == DownCarry(w, |w|, sh)
  {}

  lemma DownBounds(w: seq<nat>, i: nat, sh: nat)
    requires sh == 1 || sh == 9
    requires AllBelow(w, WORD_MAX)
    ensures DownWord(w, i, sh) < WORD_MAX && DownCarry(w, i, sh) < BASE
    ensures AllBelow(w, BASE + 1) ==> DownWord(w, i, sh) <= BASE
    ensures i == 1 && WordAt(w, 0) > 0 && DownWord(w, 0, sh) == 0 ==> DownCarry(w, 1, sh) >= Shed(1, sh)
  {}

  lemma DownTop(w: seq<nat>, sh: nat)
    requires sh == 1 || sh == 9
    ensures DownCarry(w, 0, sh) == 0
  {}

  lemma DownSecond(w: seq<nat>, sh: nat)
    requires sh == 1 || sh == 9
    requires |w| > 0 && w[0] > 0 && DownWord(w, 0, sh) == 0
    ensures DownWord(w, 1, sh) > 0
  {}

  // The last word of a full ring with its lowest bit set.
  function MarkTail(w: seq<nat>): seq<nat>
    requires |w| >= 1
  {
    w[..|w| - 1] + [BitOr(w[|w| - 1], 1)]
  }

  lemma MarkTailBound(w: seq<nat>)
    requires |w| >= 1 && AllBelow(w, WORD_MAX)
    ensures AllBelow(MarkTail(w), WORD_MAX)
  {
    BitOrOne(w[|w| - 1]);
  }

  lemma MarkTailIs(w: seq<nat>)
    requires |w| >= 1
    ensures |MarkTail(w)| == |w| && MarkTail(w)[|w| - 1] == BitOr(w[|w| - 1], 1)
    ensures forall i :: 0 <= i < |w| - 1 ==> MarkTail(w)[i] == w[i]
  {}

  lemma OneMoreWord(w: seq<nat>, c: nat)
    requires AllBelow(w, WORD_MAX) && c < BASE
    ensures AllBelow(w + [c], WORD_MAX)
  {}

  lemma MarkTailValue(w: seq<nat>, c: nat, rp: int, e2: int)
    requires |w| >= 1 && AllBelow(w, WORD_MAX) && 0 < c < BASE
    ensures AllBelow(MarkTail(w), WORD_MAX)
    ensures Value(MarkTail(w), rp, e2) != Value(w + [c], rp, e2)
    ensures |MarkTail(w)| == |w| && (w[0] > 0 ==> MarkTail(w)[0] > 0)
  {
    hide Value, BitOr;
    var h, p, m := w[..|w| - 1], w[|w| - 1], MarkTail(w);
    BitOrOne(p);
    assert w == h + [p];
    HornerAppend(0, h, p);
    HornerAppend(0, w, c);
    HornerAppend(0, h, BitOr(p, 1));
    HornerAppend(0, m, 0);
    ValueAppendZero(m, rp, e2);
    ValueInjective(m + [0], w + [c], rp, rp, e2);
  }

  // Slots before j hold the divided words, the others the old ones.
  ghost predicate DividedTo(x: array<u32>, a: nat, w: seq<nat>, j: nat, sh: nat)
    requires x.Length == KMAX && a < KMAX && |w| <= KMAX && (sh == 1 || sh == 9)
    reads x
  {
    forall i {:trigger w[i]} {:trigger DownWord(w, i, sh)} :: 0 <= i < |w| ==>
      x[Wrap(a + i)] as int == if i < j then DownWord(w, i, sh) else w[i]
  }

  // Slots before j hold the old words, the others the multiplied ones.
  ghost predicate MultipliedFrom(x: array<u32>, a: nat, w: seq<nat>, j: nat)
    requires x.Length == KMAX && a < KMAX && |w| <= KMAX
    reads x
  {
    forall i {:trigger w[i]} {:trigger UpWord(w, i)} :: 0 <= i < |w| ==>
      x[Wrap(a + i)] as int == if i < j then w[i] else UpWord(w, i)
  }

  lemma KeptLength(w: seq<nat>, sh: nat)
    requires sh == 1 || sh == 9
    requires |w| > 0
    ensures |DownKept(w, sh)| == if DownWord(w, 0, sh) == 0 then |w| - 1 else |w|
  {}

  lemma KeptHolds(x: array<u32>, start: nat, a: nat, w: seq<nat>, sh: nat)
    requires sh == 1 || sh == 9
    requires x.Length == KMAX && start < KMAX && 0 < |w| < KMAX && DividedTo(x, start, w, |w|, sh)
    requires a == if DownWord(w, 0, sh) == 0 then Wrap(start + 1) else start
    ensures Holds(x, a, DownKept(w, sh))
  {
    var v := DownKept(w, sh);
    var d := if DownWord(w, 0, sh) == 0 then 1 else 0;
    forall i | 0 <= i < |v|
      ensures x[Wrap(a + i)] as int == v[i]
    {
      assert v[i] == DownWord(w, i + d, sh);
      assert Wrap(a + i) == Wrap(start + (i + d));
    }
  }

  lemma NothingMultiplied(x: array<u32>, a: nat, w: seq<nat>)
    requires x.Length == KMAX && a < KMAX && |w| <= KMAX && Holds(x, a, w)
    ensures MultipliedFrom(x, a, w, |w|)
  {}

  lemma MultipliedHolds(x: array<u32>, a: nat, w: seq<nat>, m: nat)
    requires x.Length == KMAX && a < KMAX && m <= |w| < KMAX && MultipliedFrom(x, a, w, 0)
    ensures Holds(x, a, UpWords(w)[..m])
  {
    hide UpWord;
    forall i | 0 <= i < m
      ensures x[Wrap(a + i)] as int == UpWords(w)[i]
    {
      assert UpWords(w)[i] == UpWord(w, i);
    }
  }

  lemma OtherSlot(a: nat, i: nat, n: nat)
    requires a < KMAX && i < n < KMAX
    ensures Wrap(a + i) != Wrap(a + n)
  {}

  // The slots beside the one after n words.
  lemma SlotsApart(a: nat, n: nat)
    requires a < KMAX && n < KMAX
    ensures n > 0 ==> Wrap(Wrap(a + n) - 1) == Wrap(a + n - 1)
    ensures n < KMAX - 1 ==> Wrap(Wrap(a + n) + 1) == Wrap(a + n + 1)
    ensures Wrap(Wrap(a + n) + 1) == a <==> n == KMAX - 1
  {}

  class Ring {
    const x: array<u32>
    var a: nat
    var z: nat
    var rp: int
    var e2: int
    ghost var words: seq<nat>   // x[a], x[a+1], ... up to x[z-1], indices wrapping

    constructor (x: array<u32>, z: nat, rp: int, ghost words: seq<nat>)
      requires x.Length == KMAX && z == |words| < KMAX
      ensures this.x == x && a == 0 && this.z == z && this.rp == rp && e2 == 0 && this.words == words
    {
      this.x := x;
      a, this.z, this.rp, e2 := 0, z, rp, 0;
      this.words := words;
    }

    ghost predicate Sized()
      reads this
    {
      x.Length == KMAX && a < KMAX && 1 <= |words| < KMAX && AllBelow(words, WORD_MAX)
    }

    ghost predicate Shape()
      reads this, x
    {
      Sized() && z == Wrap(a + |words|) && Holds(x, a, words)
    }

    ghost predicate Valid()
      reads this, x
    {
      Shape() && words[0] > 0
    }

    ghost function Denotes(): real
      reads this
    {
      Value(words, rp, e2)
    }

    // One word times 2^29 with the carry from below added, in 64 bits.
    method MultiplyWord(k: nat, below: u32, ghost w: seq<nat>, ghost j: nat) returns (carry: u32)
      requires x.Length == KMAX && a < KMAX && j < |w| < KMAX && AllBelow(w, WORD_MAX)
      requires k == Wrap(a + j)
      requires MultipliedFrom(x, a, w, j + 1) && below as int == UpCarry(w, j + 1)
      modifies x
      ensures MultipliedFrom(x, a, w, j) && carry as int == UpCarry(w, j)
      ensures x[k] as int == UpWord(w, j)
    {
      hide UpTotal, UpCarry, UpWord, AllBelow;
      assert x[k] as int == w[j];
      UpCarryBound(w, j + 1);
      UpStep(w, j);
      var tmp: u64 := x[k] as u64 * 0x2000_0000 + below as u64;
      if tmp > 1_000_000_000 {
        carry := (tmp / 1_000_000_000) as u32;
        x[k] := (tmp % 1_000_000_000) as u32;
      } else {
        carry := 0;
        x[k] := tmp as u32;
      }
    }

    // Every word times 2^29, low end first. Trailing zero words, from m on, are
    // no longer counted by z.
    method MultiplyWords(ghost w: seq<nat>) returns (carry: u32, ghost m: nat)
      requires Valid() && w == words
      modifies this`z, x
      ensures 1 <= m <= |w| && z == Wrap(a + m) && Holds(x, a, UpWords(w)[..m])
      ensures (forall i :: m <= i < |w| ==> UpWord(w, i) == 0) && (m > 1 ==> UpWord(w, m - 1) != 0)
      ensures carry as int == UpCarry(w, 0)
    {
      hide UpCarry, UpWord, UpWords, AllBelow, MultipliedFrom, Holds;
      ghost var j := |w| - 1;
      m := |w|;
      carry := 0;
      UpTop(w);
      NothingMultiplied(x, a, w);
      var k: int := Wrap(z - 1);
      while true
        invariant 0 <= j < m <= |w|
        invariant k == Wrap(a + j) && z == Wrap(a + m)
        invariant MultipliedFrom(x, a, w, j + 1)
        invariant (forall i :: m <= i < |w| ==> UpWord(w, i) == 0) && (j + 1 < m ==> UpWord(w, m - 1) != 0)
        invariant carry as int == UpCarry(w, j + 1)
        decreases j
      {
        carry := MultiplyWord(k, carry, w, j);
        if k == Wrap(z - 1) && k != a && x[k] == 0 {
          z := k;
          m := j;
        }
        if k == a {
          break;
        }
        k := Wrap(k - 1);
        j := j - 1;
      }
      MultipliedHolds(x, a, w, m);
    }

    // A full ring gives up its last slot: the word there is or-ed into its neighbour.
    method CollapseTail(ghost all: seq<nat>) returns (lost: nat)
      requires x.Length == KMAX && a < KMAX && |all| == KMAX && a == z
      requires AllBelow(all, WORD_MAX)
      requires forall i {:trigger all[i]} :: 1 <= i < |all| ==> x[Wrap(a + i)] as int == all[i]
      modifies this`z, x
      ensures z == Wrap(a + KMAX - 1) && lost == all[KMAX - 1]
      ensures var m := MergeTail(all);
              forall i {:trigger m[i]} :: 1 <= i < |m| ==> x[Wrap(a + i)] as int == m[i]
    {
      z := Wrap(z - 1);
      assert x[z] as int == all[KMAX - 1] && x[Wrap(z - 1)] as int == all[KMAX - 2];
      lost := x[z] as nat;
      x[Wrap(z - 1)] := Or32(x[Wrap(z - 1)], x[z]);
    }

    // A new leading word.
    method PushFront(carry: u32) returns (lost: nat)
      requires Shape() && 0 < carry as int < WORD_MAX
      modifies this`a, this`z, this`rp, this`words, x
      ensures Valid() && e2 == old(e2) && rp == old(rp) + 9
      ensures |words| <= |old(words)| + 1
      ensures var all := [carry as int] + old(words);
              Denotes() == Value(all, rp, e2) <==> lost == 0
      ensures lost != 0 ==> |old(words)| == |words| == KMAX - 1
      ensures var all := [carry as int] + old(words);
              && words == (if |all| == KMAX then MergeTail(all) else all)
              && lost == if |all| == KMAX then all[KMAX - 1] else 0
      ensures lost == 0 && carry as int <= BASE && old(AllBelow(words, BASE + 1)) ==> AllBelow(words, BASE + 1)
    {
      hide Value, BitOr, MergeTail;
      ghost var all: seq<nat> := [carry as int] + words;
      lost := 0;
      rp := rp + 9;
      a := Wrap(a - 1);
      words := all;
      if a == z {
        lost := CollapseTail(all);
        MergeTailValue(all, rp, e2);
        MergeTailShape(all);
        words := MergeTail(all);
      }
      x[a] := carry;
    }

    // One trip of the upscaling loop: `all` are the words of the same number, which a full
    // ring can only hold with the last two merged; `lost` is the word merged then.
    method UpscalePass() returns (lost: nat, ghost all: seq<nat>)
      requires Valid()
      modifies this`a, this`z, this`rp, this`e2, this`words, x
      ensures Valid()
      ensures Denotes() == old(Denotes()) <==> lost == 0
      ensures e2 == old(e2) - 29
      ensures if rp == old(rp) then words[0] > old(words[0]) && |words| <= |old(words)|
              else rp == old(rp) + 9 && |words| <= |old(words)| + 1 && words[0] == UpCarry(old(words), 0)
      ensures lost != 0 ==> |old(words)| == |words| == KMAX - 1 && rp == old(rp) + 9
      ensures lost == 0 && old(AllBelow(words, BASE + 1)) ==> AllBelow(words, BASE + 1)
      ensures 0 < |all| <= KMAX && all[0] > 0 && AllBelow(all, WORD_MAX) && Value(all, rp, e2) == old(Denotes())
      ensures words == if |all| == KMAX then MergeTail(all) else all
      ensures |all| == KMAX ==>
                all[KMAX - 1] <= BASE && (all[KMAX - 1] == BASE ==> all[KMAX - 2] % 512 == 0) && (lost != 0 <==> all[KMAX - 1] != 0)
      ensures lost != 0 ==> |all| == KMAX
    {
      hide Value, UpCarry, UpWord, AllBelow, MergeTail, Holds;
      ghost var w := words;
      ghost var m;
      var carry: u32;
      carry, m := MultiplyWords(w);
      words := UpWords(w)[..m];
      UpTrip(w, m);
      UpValue(w, m, rp, e2);
      e2 := e2 - 29;
      lost := 0;
      all := words;
      if carry != 0 {
        all := [carry as int] + words;
        if m >= 2 {
          UpLast(w, m);
        }
        lost := PushFront(carry);
        MergedLead(all);
      }
    }

    // One word shifted right; what it sheds is carried into the next.
    method DivideWord(k: nat, above: u32, sh: nat, ghost start: nat, ghost w: seq<nat>, ghost j: nat)
      returns (carry: u32)
      requires sh == 1 || sh == 9
      requires x.Length == KMAX && start < KMAX && j < |w| < KMAX && AllBelow(w, WORD_MAX)
      requires k == Wrap(start + j) && above as int == DownCarry(w, j, sh)
      requires DividedTo(x, start, w, j, sh)
      modifies x
      ensures DividedTo(x, start, w, j + 1, sh)
      ensures carry as int == DownCarry(w, j + 1, sh) && x[k] as int == DownWord(w, j, sh)
    {
      hide DownWord, DownCarry, Shr, Shed, AllBelow;
      assert x[k] as int == w[j];
      DownStep(w, j, sh);
      carry := Shed(x[k] as nat, sh) as u32;
      x[k] := Shr(x[k] as nat, sh) as u32 + above;
    }

    // Every word shifted right, high end first; a leading word that becomes zero is
    // passed over and the radix position moves with it.
    method DivideWords(sh: nat, ghost w: seq<nat>) returns (carry: u32)
      requires sh == 1 || sh == 9
      requires Valid() && w == words
      modifies this`a, this`rp, x
      ensures carry as int == DownCarry(w, |w|, sh)
      ensures Advanced(old(a), old(rp), DownWord(w, 0, sh) == 0)
      ensures a < KMAX && |DownKept(w, sh)| < KMAX && Holds(x, a, DownKept(w, sh))
      ensures z == Wrap(a + |DownKept(w, sh)|)
    {
      hide DownWord, DownCarry, DownKept;
      ghost var start, rp0, j := a, rp, 0;
      DownTop(w, sh);
      carry := 0;
      var k: int := a;
      while k != z
        invariant 0 <= j <= |w| && k == Wrap(start + j)
        invariant DividedTo(x, start, w, j, sh)
        invariant carry as int == DownCarry(w, j, sh)
        invariant Advanced(start, rp0, j > 0 && DownWord(w, 0, sh) == 0)
        decreases |w| - j
      {
        DownBounds(w, j, sh);
        if j == 1 && DownWord(w, 0, sh) == 0 {
          DownSecond(w, sh);
        }
        carry := DivideWord(k, carry, sh, start, w, j);
        if k == a && x[k] == 0 {
          a := Wrap(a + 1);
          rp := rp - 9;
        }
        k := Wrap(k + 1);
        j := j + 1;
      }
      KeptLength(w, sh);
      KeptHolds(x, start, a, w, sh);
    }

    ghost predicate Advanced(start: nat, rp0: int, dropped: bool)
      requires start < KMAX
      reads this`a, this`rp
    {
      if dropped then a == Wrap(start + 1) && rp == rp0 - 9 else a == start && rp == rp0
    }

    // One more word at the low end; a full ring can only mark the last word.
    method PushBack(carry: u32) returns (lost: nat)
      requires x.Length == KMAX && a < KMAX && |words| < KMAX && AllBelow(words, WORD_MAX)
      requires z == Wrap(a + |words|) && Holds(x, a, words) && 0 < carry as int < BASE
      modifies this`z, this`words, x
      ensures Shape() && |words| <= |old(words)| + 1
      ensures if lost == 0 then words == old(words) + [carry as int]
              else |old(words)| == KMAX - 1 && lost == carry as int && words == MarkTail(old(words))
    {
      hide AllBelow, MarkTail, BitOr, Wrap;
      lost := 0;
      SlotsApart(a, |words|);
      ghost var was := words;
      if Wrap(z + 1) != a {
        x[z] := carry;
        z := Wrap(z + 1);
        OneMoreWord(words, carry as nat);
        words := words + [carry as int];
        forall i | 0 <= i < |words|
          ensures x[Wrap(a + i)] as int == words[i]
        {
          if i < |was| {
            OtherSlot(a, i, |was|);
            assert words[i] == was[i];
          }
        }
      } else {
        lost := carry as nat;
        MarkTailBound(words);
        MarkTailIs(words);
        assert x[Wrap(z - 1)] as int == words[KMAX - 2];
        x[Wrap(z - 1)] := Or32(x[Wrap(z - 1)], 1);
        words := MarkTail(words);
        forall i | 0 <= i < |words|
          ensures x[Wrap(a + i)] as int == words[i]
        {
          if i < |was| - 1 {
            OtherSlot(a, i, |was| - 1);
            assert words[i] == was[i];
          }
        }
      }
    }

    // One trip of the downscaling loop. `lost` is the carry that a full ring could
    // only mark in its last bit.
    method DownscalePass(sh: nat) returns (lost: nat)
      requires sh == 1 || sh == 9
      requires Valid()
      modifies this`a, this`z, this`rp, this`e2, this`words, x
      ensures Valid()
      ensures Denotes() == old(Denotes()) <==> lost == 0
      ensures e2 == old(e2) + sh
      ensures rp == (if Shr(old(words[0]), sh) == 0 then old(rp) - 9 else old(rp))
      ensures if lost == 0 then words == DownAll(old(words), sh)
              else |DownKept(old(words), sh)| == KMAX - 1 && words == MarkTail(DownKept(old(words), sh))
                   && lost == DownCarry(old(words), |old(words)|, sh) < BASE
      ensures Value(DownAll(old(words), sh), rp, e2) == old(Denotes())
    {
      hide Value, BitOr, DownWord, DownCarry, DownKept, MarkTail, Shr, Shed, DividedTo;
      ghost var w := words;
      var carry := DivideWords(sh, w);
      DownValue(w, sh, old(rp), e2);
      DownShape(w, sh);
      FirstDown(w, sh);
      words := DownKept(w, sh);
      e2 := e2 + sh;
      lost := 0;
      if carry != 0 {
        lost := PushBack(carry);
        if lost != 0 {
          MarkTailValue(DownKept(w, sh), carry as nat, rp, e2);
        }
      }
    }
  }

  function Or32(p: u32, q: u32): u32 {
    Pow2Values();
    BitOrBounds(p as nat, q as nat, 32);
    BitOr(p as nat, q as nat) as u32
  }
}
