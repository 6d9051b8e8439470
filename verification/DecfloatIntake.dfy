// Digit intake of decfloat: the literal packed into base-10^9 words.
module DecfloatIntake {
  import opened BigDecimal
  import opened Bits
  import opened DecimalText
  import opened DecfloatRing

  const KEPT: int := 9 * (KMAX - 3)

  // What the intake loop has done by position i of the text: dc digits since the
  // first nonzero one, the first KEPT of them packed as k full words and a partial
  // word of j digits.
  datatype Packing = Packing(words: seq<nat>, part: nat, j: nat)

  ghost function Packed(p: Packing): nat {
    Num(p.words) * Pow10(p.j) + p.part
  }

  ghost predicate Wf(p: Packing) {
    |p.words| <= KMAX - 3 && p.j < 9 && p.part < Pow10(p.j) && AllBelow(p.words, BASE) &&
    (|p.words| == KMAX - 3 ==> p.j == 0)
  }

  function Push(p: Packing, d: nat): Packing {
    if p.j == 8 then Packing(p.words + [p.part * 10 + d], 0, 0) else p.(part := p.part * 10 + d, j := p.j + 1)
  }

  lemma PushPacked(p: Packing, d: nat)
    requires Wf(p) && |p.words| < KMAX - 3 && d < 10
    ensures Wf(Push(p, d)) && Packed(Push(p, d)) == Packed(p) * 10 + d
    ensures 9 * |Push(p, d).words| + Push(p, d).j == 9 * |p.words| + p.j + 1
  {
    hide Horner, AllBelow;
    NextPower(p.j);
    if p.j == 8 {
      HornerAppend(0, p.words, p.part * 10 + d);
      OneMoreBelow(p.words, p.part * 10 + d);
    } else {
      TensOut(Num(p.words), Pow10(p.j));
    }
  }

  lemma NextPower(j: nat)
    ensures Pow10(j + 1) == 10 * Pow10(j) && Pow10(0) == 1 && (j == 8 ==> Pow10(j) == 100_000_000)
  {
    if j == 8 {
      assert Pow10(8) == 100_000_000;
    }
  }

  lemma TensOut(n: nat, t: nat)
    ensures n * (10 * t) == (n * t) * 10
  {}

  lemma OneMoreBelow(w: seq<nat>, d: nat)
    requires AllBelow(w, BASE) && d < BASE
    ensures AllBelow(w + [d], BASE)
  {}

  // What a mark in the last word says of the number n, of which only some digits fit: the words
  // are odd, and n is less than one unit of them away, but not the same.
  ghost predicate Marked(n: nat, packed: nat, unit: nat) {
    packed % 2 == 1 && (packed - 1) * unit < n < (packed + 1) * unit && n != packed * unit
  }

  // The digits seen so far and what has been kept of them: `sticky` once a nonzero
  // digit has come after the last one that fits.
  ghost predicate Kept(n: nat, p: Packing, dc: nat, sticky: bool) {
    var kept := 9 * |p.words| + p.j;
    Wf(p) && kept <= dc && (kept < dc ==> |p.words| == KMAX - 3) &&
    (!sticky ==> n == Packed(p) * Pow10(dc - kept)) &&
    (sticky ==> kept < dc && Marked(n, Packed(p), Pow10(dc - kept))) &&
    (dc > 0 ==> if |p.words| > 0 then p.words[0] > 0 else p.part > 0) &&
    (if dc == 0 then n == 0 else Pow10(dc - 1) <= n < Pow10(dc))
  }

  // lnz < 9 says that only the first word can be nonzero.
  ghost predicate OneWord(p: Packing) {
    (forall i :: 1 <= i < |p.words| ==> p.words[i] == 0) && (|p.words| > 0 ==> p.part == 0)
  }

  ghost predicate Stored(x: array<u32>, p: Packing)
    requires x.Length == KMAX && |p.words| <= KMAX - 3
    reads x
  {
    (forall i {:trigger p.words[i]} :: 0 <= i < |p.words| ==> x[i] as int == p.words[i]) &&
    (p.j > 0 ==> x[|p.words|] as int == p.part) && (p.j == 0 ==> p.part == 0)
  }

  lemma PushKept(n: nat, p: Packing, dc: nat, sticky: bool, d: nat)
    requires Kept(n, p, dc, sticky) && |p.words| < KMAX - 3 && d < 10 && (dc == 0 ==> d > 0)
    requires p.j == 0 ==> p.part == 0
    ensures Kept(n * 10 + d, Push(p, d), dc + 1, sticky) && !sticky
    ensures dc >= 9 && OneWord(p) && d == 0 ==> OneWord(Push(p, d))
    ensures dc < 9 ==> OneWord(Push(p, d))
    ensures Push(p, d).j == 0 ==> Push(p, d).part == 0
  {
    PushPacked(p, d);
    assert Pow10(0) == 1;
  }

  // A digit that does not fit: a zero changes nothing, nor does any digit once the mark is set.
  lemma DropKept(n: nat, p: Packing, dc: nat, sticky: bool, d: nat)
    requires Kept(n, p, dc, sticky) && |p.words| == KMAX - 3 && d < 10 && (sticky || d == 0)
    ensures Kept(n * 10 + d, p, dc + 1, sticky)
  {
    var e := dc - 9 * |p.words| - p.j;
    assert Pow10(e + 1) == 10 * Pow10(e);
    var a, t := Packed(p), Pow10(e);
    if sticky {
      MarkedStep(n, a, t, d);
    } else {
      assert a * (10 * t) == (a * t) * 10;
    }
  }

  lemma MarkedStep(n: nat, a: nat, t: nat, d: nat)
    requires Marked(n, a, t) && d < 10
    ensures Marked(n * 10 + d, a, 10 * t)
  {
    assert (a - 1) * (10 * t) == 10 * ((a - 1) * t);
    assert (a + 1) * (10 * t) == 10 * ((a + 1) * t);
    assert a * (10 * t) == 10 * (a * t);
  }

  // The last kept word with its lowest bit set, for the nonzero digits dropped.
  ghost function Mark(p: Packing): Packing
    requires |p.words| > 0
  {
    p.(words := MarkTail(p.words))
  }

  lemma EmptyKept()
    ensures Kept(0, Packing([], 0, 0), 0, false)
  {}

  lemma MarkIs(p: Packing)
    requires Wf(p) && |p.words| == KMAX - 3 && p.part == 0
    ensures Wf(Mark(p)) && |Mark(p).words| == |p.words| && Mark(p).j == p.j && Mark(p).words[0] >= p.words[0]
    ensures Packed(Mark(p)) == Packed(p) + 1 - Packed(p) % 2
  {
    hide BitOr, Horner;
    var w := p.words;
    var h, l := w[..|w| - 1], w[|w| - 1];
    BitOrOne(l);
    assert w == h + [l];
    HornerAppend(0, h, l);
    HornerAppend(0, h, BitOr(l, 1));
    assert Pow10(0) == 1;
    assert (Num(h) * BASE + l) % 2 == l % 2 by {
      assert Num(h) * BASE == 2 * (Num(h) * 500_000_000);
    }
  }

  // The first nonzero digit that does not fit. The words alone were too small by less than a unit
  // of the last one; with the mark they differ from the number as well.
  lemma MarkKept(n: nat, p: Packing, dc: nat, sticky: bool, d: nat)
    requires Kept(n, p, dc, sticky) && |p.words| == KMAX - 3 && p.part == 0 && 0 < d < 10
    ensures Kept(n * 10 + d, Mark(p), dc + 1, true)
    ensures !sticky ==> var unit := Pow10(dc + 1 - KEPT); Packed(p) * unit < n * 10 + d < (Packed(p) + 1) * unit
    ensures sticky ==> Packed(Mark(p)) == Packed(p)
  {
    hide Horner, MarkTail;
    MarkIs(p);
    var e := dc - 9 * |p.words| - p.j;
    var a, t, b := Packed(p), Pow10(e), Packed(Mark(p));
    Pow10Positive(e);
    assert Pow10(e + 1) == 10 * t && Pow10(dc + 1) == 10 * Pow10(dc);
    if sticky {
      assert b == a;
      MarkedStep(n, a, t, d);
    } else {
      FirstMark(n, a, t, d, b);
    }
    MarkedBounds(n, p, dc, sticky, d);
  }

  lemma MarkedBounds(n: nat, p: Packing, dc: nat, sticky: bool, d: nat)
    requires Kept(n, p, dc, sticky) && |p.words| > 0 && d < 10
    ensures Pow10(dc) <= n * 10 + d < Pow10(dc + 1) && p.words[0] > 0 && dc > 0
  {
    hide Horner;
    assert dc > 0;
  }

  lemma FirstMark(n: nat, a: nat, t: nat, d: nat, b: nat)
    requires n == a * t && 0 < d < 10 && t > 0 && b == a + 1 - a % 2
    ensures a * (10 * t) < n * 10 + d < (a + 1) * (10 * t) && Marked(n * 10 + d, b, 10 * t)
  {
    var u := 10 * t;
    assert a * u == n * 10;
    assert (a + 1) * u == a * u + u;
    if a % 2 == 0 {
      assert (b + 1) * u == a * u + 2 * u && b * u == a * u + u;
    } else {
      assert (b - 1) * u == a * u - u;
    }
  }

  method StoreDigit(x: array<u32>, k0: nat, j0: nat, d: nat, ghost p: Packing) returns (k: nat, j: nat)
    requires x.Length == KMAX && Wf(p) && |p.words| < KMAX - 3 && Stored(x, p) && d < 10
    requires k0 == |p.words| && j0 == p.j
    modifies x
    ensures Stored(x, Push(p, d)) && k == |Push(p, d).words| && j == Push(p, d).j
  {
    Pow10Small(j0);
    hide Pow10;
    k, j := k0, j0;
    if j != 0 {
      x[k] := x[k] * 10 + d as u32;
    } else {
      x[k] := d as u32;
    }
    j := j + 1;
    if j == 9 {
      k := k + 1;
      j := 0;
    }
  }

  method MarkLast(x: array<u32>, ghost p: Packing)
    requires x.Length == KMAX && |p.words| == KMAX - 3 && p.j == 0 && Stored(x, p)
    modifies x
    ensures Stored(x, Mark(p))
  {
    x[KMAX - 4] := Or32(x[KMAX - 4], 1);
  }

  // Some nonzero digit comes after the KEPT-th one from z on.
  ghost predicate Dropped(ds: string, z: nat) {
    exists i :: z + KEPT <= i < |ds| && ds[i] != '0'
  }

  ghost predicate FirstSignificant(ds: string, zs: string) {
    |zs| < |ds| && ds[..|zs|] == zs && ds[|zs|] != '0'
  }

  lemma DroppedStep(ds: string, z: nat, c: char)
    ensures Dropped(ds + [c], z) <==> Dropped(ds, z) || (|ds| >= z + KEPT && c != '0')
  {
    var es := ds + [c];
    if Dropped(ds, z) {
      var i :| z + KEPT <= i < |ds| && ds[i] != '0';
      assert es[i] != '0';
    }
    if |ds| >= z + KEPT && c != '0' {
      assert es[|ds|] != '0';
    }
  }

  // One significant digit: packed, or once the words are full only marked.
  method TakeDigit(x: array<u32>, k0: nat, j0: nat, dc: nat, lnz0: nat, d: nat, ghost n: nat, ghost p0: Packing,
                   ghost sticky0: bool) returns (k: nat, j: nat, lnz: nat, ghost p: Packing, ghost sticky: bool)
    requires x.Length == KMAX && Kept(n, p0, dc, sticky0) && Stored(x, p0) && k0 == |p0.words| && j0 == p0.j
    requires d < 10 && (dc == 0 ==> d > 0) && (lnz0 < 9 ==> OneWord(p0) && !sticky0) && (dc > 0 ==> lnz0 > 0)
    modifies x
    ensures Kept(n * 10 + d, p, dc + 1, sticky) && Stored(x, p) && k == |p.words| && j == p.j
    ensures (lnz < 9 ==> OneWord(p) && !sticky) && lnz > 0
    ensures sticky <==> sticky0 || (d != 0 && dc >= KEPT)
  {
    hide Packed, Pow10, Horner, MarkTail;
    k, j, lnz, p, sticky := k0, j0, lnz0, p0, sticky0;
    if k < KMAX - 3 {
      PushKept(n, p, dc, sticky, d);
      if d != 0 {
        lnz := dc + 1;
      }
      k, j := StoreDigit(x, k, j, d, p);
      p := Push(p, d);
    } else {
      if d == 0 {
        DropKept(n, p, dc, sticky, d);
      } else {
        MarkKept(n, p, dc, sticky, d);
        lnz := (KMAX - 4) * 9;
        MarkLast(x, p);
        p := Mark(p);
        sticky := true;
      }
    }
  }

  // The state of the digit loop at position i; zs are the zeros before it.
  ghost predicate Reading(s: string, i: nat, zs: string, x: array<u32>, k: nat, j: nat, dc: nat, lnz: nat, lrp: int,
                          gotrad: bool, dot: nat, p: Packing, sticky: bool)
    requires x.Length == KMAX
    reads x
  {
    && Scanned(s, i, gotrad, dot)
    && Kept(DVal(Seen(s, i, gotrad, dot)), p, dc, sticky)
    && k == |p.words| && j == p.j && Stored(x, p)
    && (gotrad ==> lrp - dc == -(i - dot - 1))
    && (lnz < 9 ==> OneWord(p) && !sticky) && (dc > 0 ==> lnz > 0)
    && (sticky <==> Dropped(Seen(s, i, gotrad, dot), |zs|))
    && |Seen(s, i, gotrad, dot)| == |zs| + dc
    && (if dc > 0 then FirstSignificant(Seen(s, i, gotrad, dot), zs) else Seen(s, i, gotrad, dot) == zs)
    && (dc == 0 ==> x[0] == 0)
  }

  lemma StartReading(s: string, i: nat, x: array<u32>, lrp: int, gotrad: bool, dot: nat)
    requires x.Length == KMAX && x[0] == 0 && Scanned(s, i, gotrad, dot)
    requires DVal(Seen(s, i, gotrad, dot)) == 0 && (gotrad ==> lrp == -(i - dot - 1))
    ensures Reading(s, i, Seen(s, i, gotrad, dot), x, 0, 0, 0, 0, lrp, gotrad, dot, Packing([], 0, 0), false)
  {
    EmptyKept();
    hide Seen, DVal, Kept;
    assert Stored(x, Packing([], 0, 0));
    assert !Dropped(Seen(s, i, gotrad, dot), |Seen(s, i, gotrad, dot)|);
  }

  lemma ReadPoint(s: string, i: nat, zs: string, x: array<u32>, k: nat, j: nat, dc: nat, lnz: nat, lrp: int,
                  dot: nat, p: Packing, sticky: bool)
    requires x.Length == KMAX && Reading(s, i, zs, x, k, j, dc, lnz, lrp, false, dot, p, sticky) && At(s, i) == '.'
    ensures Reading(s, i + 1, zs, x, k, j, dc, lnz, dc, true, i, p, sticky)
  {
    hide Seen, Kept, Dropped, FirstSignificant;
    SeenPoint(s, i, dot);
  }

  method ReadDigit(s: string, i: nat, ghost zs: string, x: array<u32>, k0: nat, j0: nat, dc: nat, lnz0: nat, ghost lrp: int,
                   ghost gotrad: bool, ghost dot: nat, ghost p0: Packing, ghost sticky0: bool)
    returns (k: nat, j: nat, lnz: nat, ghost p: Packing, ghost sticky: bool)
    requires x.Length == KMAX && Reading(s, i, zs, x, k0, j0, dc, lnz0, lrp, gotrad, dot, p0, sticky0)
    requires IsDigit(At(s, i)) && (dc == 0 ==> At(s, i) != '0')
    modifies x
    ensures Reading(s, i + 1, zs, x, k, j, dc + 1, lnz, lrp, gotrad, dot, p, sticky)
  {
    hide Packed, Pow10, DVal, Seen, Horner, MarkTail, Dropped;
    var d := DigitOf(At(s, i));
    ghost var ds := Seen(s, i, gotrad, dot);
    SeenDigit(s, i, gotrad, dot);
    DroppedStep(ds, |zs|, s[i]);
    assert FirstSignificant(ds + [s[i]], zs);
    k, j, lnz, p, sticky := TakeDigit(x, k0, j0, dc, lnz0, d, DVal(ds), p0, sticky0);
  }

  // The digit loop, from the first significant character. Digits that no longer
  // fit only leave a mark in the last word kept.
  method ReadDigits(s: string, i0: nat, gotrad0: bool, lrp0: int, ghost dot0: nat, x: array<u32>)
    returns (k: nat, j: nat, dc: nat, lnz: nat, lrp: int, ghost gotrad': bool, ghost i: nat, ghost dot: nat,
             ghost p: Packing, ghost sticky: bool)
    requires x.Length == KMAX && Scanned(s, i0, gotrad0, dot0)
    requires DVal(Seen(s, i0, gotrad0, dot0)) == 0
    requires lrp0 == if gotrad0 then -(i0 - dot0 - 1) else 0
    requires At(s, i0) != '0' && (At(s, i0) == '.' ==> gotrad0)
    modifies x
    ensures Reading(s, i, Seen(s, i0, gotrad0, dot0), x, k, j, dc, lnz, lrp, gotrad', dot, p, sticky)
    ensures !IsDigit(At(s, i)) && (At(s, i) == '.' ==> gotrad') && (!gotrad' ==> lrp == dc)
  {
    hide Reading, Seen, DVal;
    var at, gotrad := i0, gotrad0;
    ghost var zs := Seen(s, i0, gotrad0, dot0);
    k, j, dc, lnz, lrp := 0, 0, 0, 0, lrp0;
    p, sticky, dot := Packing([], 0, 0), false, dot0;
    x[0] := 0;
    StartReading(s, at, x, lrp, gotrad, dot);
    while IsDigit(At(s, at)) || At(s, at) == '.'
      invariant at <= |s| && Reading(s, at, zs, x, k, j, dc, lnz, lrp, gotrad, dot, p, sticky)
      invariant dc == 0 ==> at == i0 && gotrad == gotrad0
      decreases |s| - at
    {
      if At(s, at) == '.' {
        if gotrad {
          break;
        }
        ReadPoint(s, at, zs, x, k, j, dc, lnz, lrp, dot, p, sticky);
        gotrad := true;
        dot := at;
        lrp := dc;
      } else {
        k, j, lnz, p, sticky := ReadDigit(s, at, zs, x, k, j, dc, lnz, lrp, gotrad, dot, p, sticky);
        dc := dc + 1;
      }
      at := at + 1;
    }
    i, gotrad' := at, gotrad;
    if !gotrad {
      NoPoint(s, i, zs, x, k, j, dc, lnz, lrp, dot, p, sticky);
      lrp := dc;
    }
  }

  lemma NoPoint(s: string, i: nat, zs: string, x: array<u32>, k: nat, j: nat, dc: nat, lnz: nat, lrp: int,
                dot: nat, p: Packing, sticky: bool)
    requires x.Length == KMAX && Reading(s, i, zs, x, k, j, dc, lnz, lrp, false, dot, p, sticky)
    ensures Reading(s, i, zs, x, k, j, dc, lnz, dc, false, dot, p, sticky)
  {}
}
