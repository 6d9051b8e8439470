// Ticks of the time base turned into seconds and fractions of one.
module Ticks {
  import opened Numerals
  import opened Strto

  const NANO: nat := 1_000_000_000
  const MICRO: nat := 1_000_000

  // The product of a tick count and a rate, divided out without forming it.
  function Recombined(t: nat, n: nat, hz: nat): int
    requires hz > 0
  {
    t / hz * n + t % hz * n / hz
  }

  lemma DivIs(a: nat, b: nat, q: nat, r: nat)
    requires b > 0 && a == q * b + r && r < b
    ensures a / b == q && a % b == r
  {
    var d := a / b - q;
    assert d * b == r - a % b by {
      assert a == a / b * b + a % b;
      assert d * b == a / b * b - q * b;
    }
    Sandwiched(d, b);
  }

  lemma Sandwiched(d: int, b: nat)
    requires b > 0 && -(b as int) < d * b < b
    ensures d == 0
  {}

  // Splitting and recombining is exact.
  lemma RecombinedExact(t: nat, n: nat, hz: nat)
    requires hz > 0
    ensures Recombined(t, n, hz) == t * n / hz
  {
    Divided(t, hz);
    Divided(t % hz * n, hz);
    ExactParts(t, n, hz, t / hz, t % hz, t % hz * n / hz, t % hz * n % hz);
  }

  lemma Divided(a: nat, hz: nat)
    requires hz > 0
    ensures a == a / hz * hz + a % hz && a % hz < hz
  {}

  lemma ExactParts(t: nat, n: nat, hz: nat, q: nat, r: nat, q': nat, r': nat)
    requires t == q * hz + r && r * n == q' * hz + r' && r' < hz
    ensures t * n / hz == q * n + q'
  {
    Distributed(q, hz, r, n, q', r');
    DivIs(t * n, hz, q * n + q', r');
  }

  lemma Distributed(q: nat, hz: nat, r: nat, n: nat, q': nat, r': nat)
    requires r * n == q' * hz + r'
    ensures (q * hz + r) * n == (q * n + q') * hz + r'
  {
    assert (q * hz + r) * n == q * hz * n + r * n;
    assert (q * n + q') * hz == q * n * hz + q' * hz;
    assert q * hz * n == q * n * hz;
  }

  lemma Fraction(t: nat, n: nat, hz: nat)
    requires hz > 0 && n > 0
    ensures t % hz * n / hz < n && t % hz * n < hz * n
  {
    var r := t % hz;
    assert r * n < hz * n by {
      assert hz * n == r * n + (hz - r) * n;
      Positive(hz - r, n);
    }
    Quotients(r * n, n, hz);
  }

  lemma Positive(a: nat, b: nat)
    requires a > 0 && b > 0
    ensures a * b > 0
  {}

  lemma Quotients(a: nat, n: nat, hz: nat)
    requires hz > 0 && a < n * hz
    ensures a / hz < n
  {}

  // A later tick is never an earlier time.
  lemma Monotone(t: nat, u: nat, n: nat, hz: nat)
    requires t <= u && hz > 0
    ensures t * n / hz <= u * n / hz
  {
    assert u * n == t * n + (u - t) * n;
    DivMono(t * n, u * n, hz);
  }

  lemma DivMono(a: nat, b: nat, hz: nat)
    requires a <= b && hz > 0
    ensures a / hz <= b / hz
  {
    Divided(a, hz);
    Divided(b, hz);
    if a / hz > b / hz {
      GreaterQuotient(a / hz, a % hz, b / hz, b % hz, hz);
    }
  }

  lemma GreaterQuotient(q: nat, r: nat, q': nat, r': nat, hz: nat)
    requires q > q' && r' < hz
    ensures q * hz + r > q' * hz + r'
  {
    var k := q - q' - 1;
    assert q * hz == q' * hz + hz + k * hz;
  }

  function Wrap(x: nat): nat {
    x % TWO_64
  }

  lemma WrapSum(a: nat, b: nat)
    ensures Wrap(Wrap(a) + b) == Wrap(a + b)
  {}

  // t ticks of a clock running at hz, counted in units of which there are n to a second.
  function Scaled(t: nat, n: nat, hz: nat): nat
    requires hz > 0
  {
    t * n / hz
  }

  // The same as the code computes it in 64 bits.
  function SplitTicks(t: nat, n: nat, hz: nat): nat
    requires hz > 0
  {
    Wrap(Wrap(t / hz * n) + Wrap(t % hz * n) / hz)
  }

  lemma SplitExact(t: nat, n: nat, hz: nat)
    requires hz > 0 && n > 0 && hz * n <= TWO_64
    ensures SplitTicks(t, n, hz) == Wrap(Scaled(t, n, hz))
  {
    hide Wrap;
    Fraction(t, n, hz);
    RecombinedExact(t, n, hz);
    WrappedSum(t / hz * n, t % hz * n, hz);
  }

  lemma WrappedSum(q: nat, r: nat, hz: nat)
    requires r < TWO_64 && hz > 0
    ensures Wrap(Wrap(q) + Wrap(r) / hz) == Wrap(q + r / hz)
  {
    hide Wrap;
    Unwrapped(r);
    WrapSum(q, r / hz);
  }

  lemma Unwrapped(x: nat)
    requires x < TWO_64
    ensures Wrap(x) == x
  {}

  lemma SignedIs(x: nat)
    ensures AsSigned(Wrap(x)) == x <==> x < TWO_63
  {}

  // clock: microseconds, read as a signed number; -1 when the rate is unknown.
  function Clock(hz: nat, t: nat): int {
    if hz == 0 then -1 else AsSigned(SplitTicks(t, MICRO, hz))
  }

  // For a rate up to 18 THz the wrapped arithmetic gives the exact microseconds just when
  // their number fits.
  lemma ClockExact(hz: nat, t: nat)
    requires hz * MICRO <= TWO_64
    ensures if hz == 0 then Clock(hz, t) == -1
            else Clock(hz, t) == t * 1_000_000 / hz <==> t * 1_000_000 / hz < TWO_63
  {
    hide Scaled, SplitTicks, Wrap, AsSigned;
    if hz > 0 {
      SplitExact(t, MICRO, hz);
      SignedIs(Scaled(t, MICRO, hz));
      ScaledIs(t, MICRO, hz);
    }
  }

  // A number kept in 64 signed bits.
  function Int64(x: int): int {
    AsSigned(x % TWO_64)
  }

  lemma Int64Keeps(x: int)
    ensures Int64(x) == x <==> -TWO_63 <= x < TWO_63
    ensures Int64(x) == x || Int64(x) <= x - TWO_64 || Int64(x) >= x + TWO_64
    ensures -TWO_63 <= Int64(x) < TWO_63
  {
    assert x == x / TWO_64 * TWO_64 + x % TWO_64;
  }

  // Division that cuts toward zero.
  function Quotient(a: int, b: nat): int
    requires b > 0
  {
    if a >= 0 then a / b else -(-a / b)
  }

  // The Go runtime's nanotime: int64 all through, so the product of a remainder and 10^9 is
  // signed and so is its division.
  function Nanotime(hz: nat, t: nat): int {
    if hz == 0 then 0
    else Int64(Int64(t / hz * NANO) + Quotient(Int64(t % hz * NANO), hz))
  }

  // One tick count at one rate is converted exactly just when the time fits and the product
  // does not wrap.
  lemma NanotimeExact(hz: nat, t: nat)
    requires hz < TWO_63 && t < TWO_63
    ensures if hz == 0 then Nanotime(hz, t) == 0
            else Nanotime(hz, t) == t * 1_000_000_000 / hz <==> t * 1_000_000_000 / hz < TWO_63 && t % hz * 1_000_000_000 < TWO_63
  {
    if hz > 0 {
      WithRate(hz, t);
      ScaledIs(t, NANO, hz);
    }
  }

  lemma WithRate(hz: nat, t: nat)
    requires 0 < hz < TWO_63 && t < TWO_63
    ensures Nanotime(hz, t) == Scaled(t, NANO, hz) <==> Scaled(t, NANO, hz) < TWO_63 && t % hz * NANO < TWO_63
  {
    hide Int64, Scaled;
    var a, b := t / hz * NANO, t % hz * NANO;
    Int64Keeps(a);
    Int64Keeps(b);
    Fraction(t, NANO, hz);
    RecombinedExact(t, NANO, hz);
    ScaledIs(t, NANO, hz);
    if b < TWO_63 {
      SumWraps(a, b / hz);
      Int64Keeps(a + b / hz);
    } else {
      WrappedQuotient(b, hz);
      SumWraps(a, Quotient(Int64(b), hz));
      OffByLess(a + b / hz, a + Quotient(Int64(b), hz));
    }
  }

  lemma ScaledIs(t: nat, n: nat, hz: nat)
    requires hz > 0
    ensures Scaled(t, n, hz) == t * n / hz
  {}

  lemma SumWraps(a: int, b: int)
    ensures Int64(Int64(a) + b) == Int64(a + b)
  {
    Congruent(Int64(a) + b, a + b, if a % TWO_64 >= TWO_63 then -(a / TWO_64) - 1 else -(a / TWO_64));
  }

  lemma Congruent(x: int, y: int, k: int)
    requires x == y + k * TWO_64
    ensures Int64(x) == Int64(y)
  {}

  // Once the product wraps, what is divided is negative or too small, by less than 2^64.
  lemma WrappedQuotient(b: nat, hz: nat)
    requires 0 < hz < TWO_63 && TWO_63 <= b < hz * NANO
    ensures b / hz - TWO_64 < Quotient(Int64(b), hz) < b / hz
  {
    hide Int64;
    Int64Keeps(b);
    Quotients(b, NANO, hz);
    var v := Int64(b);
    if v >= 0 {
      FurtherApart(v, b, hz);
      DivBelow(v, hz);
    } else {
      DivBelow(-v, hz);
    }
  }

  lemma AtLeast(a: nat, hz: nat)
    requires hz > 0
    ensures a * hz >= a
  {
    assert a * hz == a + a * (hz - 1);
  }

  lemma DivBelow(a: nat, hz: nat)
    requires hz > 0
    ensures 0 <= a / hz <= a
  {
    Divided(a, hz);
    if a / hz > a {
      GreaterQuotient(a / hz, a % hz, a, 0, hz);
      AtLeast(a, hz);
    }
  }

  lemma FurtherApart(v: nat, b: nat, hz: nat)
    requires 0 < hz && v + hz <= b
    ensures v / hz < b / hz
  {
    DivMono(v + hz, b, hz);
    DivIs(v + hz, hz, v / hz + 1, v % hz);
  }

  lemma OffByLess(x: int, y: int)
    requires x - TWO_64 < y < x
    ensures Int64(y) != x
  {
    Int64Keeps(y);
  }

  // Up to 9.2 GHz no product wraps.
  predicate SlowEnough(hz: nat) {
    (hz - 1) * NANO < TWO_63
  }

  lemma SlowNeverWraps(hz: nat, t: nat)
    requires 0 < hz && SlowEnough(hz)
    ensures t % hz * NANO < TWO_63
  {
    assert t % hz <= hz - 1;
  }

  // Time does not run backwards at such a rate, for the first 292 years.
  lemma NanotimeMonotone(hz: nat, t: nat, u: nat)
    requires 0 < hz && SlowEnough(hz) && t <= u < TWO_63 && Scaled(u, NANO, hz) < TWO_63
    ensures 0 <= Nanotime(hz, t) <= Nanotime(hz, u)
  {
    hide Nanotime;
    Monotone(t, u, NANO, hz);
    SlowNeverWraps(hz, t);
    SlowNeverWraps(hz, u);
    SlowRate(hz);
    NanotimeExact(hz, t);
    NanotimeExact(hz, u);
  }

  lemma SlowRate(hz: nat)
    requires SlowEnough(hz)
    ensures hz < TWO_63
  {}

  // At every faster rate some tick is followed by one whose time is negative.
  lemma NanotimeBackwards(hz: nat) returns (t: nat)
    requires !SlowEnough(hz) && hz < TWO_63
    ensures t + 1 < hz && 0 <= Nanotime(hz, t) && Nanotime(hz, t + 1) < 0
    ensures Scaled(t + 1, NANO, hz) < NANO
  {
    hide Scaled, Quotient, Nanotime;
    t := if hz <= 0x4000_0000_0000_0000 then 9_223_372_036 else 0x3F_FFFF_FFFF_FFFF;
    Fraction(t + 1, NANO, hz);
    ScaledSmall(t + 1, hz);
    var p := (t + 1) * NANO;
    var v := Int64(p);
    assert p % TWO_64 == (if t == 9_223_372_036 then p else TWO_63);
    assert -TWO_63 <= v <= -(hz as int) && 0 <= p - NANO && Int64(p - NANO) >= 0;
    NegativeQuotient(v, hz);
    FirstSecond(hz, t);
    FirstSecond(hz, t + 1);
    Int64Keeps(Quotient(v, hz));
    NaturalQuotient(Int64(p - NANO), hz);
  }

  // In its first second the clock shows only the divided product.
  lemma FirstSecond(hz: nat, t: nat)
    requires t < hz < TWO_63
    ensures Nanotime(hz, t) == Int64(Quotient(Int64(t * NANO), hz))
  {
    hide Quotient;
    SmallTicks(hz, t);
    Int64Keeps(0);
  }

  lemma ScaledSmall(t: nat, hz: nat)
    requires t < hz
    ensures Scaled(t, NANO, hz) == t % hz * NANO / hz
  {
    SmallTicks(hz, t);
  }

  lemma NaturalQuotient(v: int, hz: nat)
    requires 0 <= v < TWO_63 && hz > 0
    ensures 0 <= Int64(Quotient(v, hz))
  {
    DivBelow(v, hz);
    Int64Keeps(v / hz);
  }

  lemma SmallTicks(hz: nat, t: nat)
    requires t < hz
    ensures t / hz == 0 && t % hz == t
  {}

  lemma NegativeQuotient(v: int, hz: nat)
    requires 0 < hz <= -v && -v <= TWO_63
    ensures -TWO_63 <= Quotient(v, hz) < 0
  {
    DivMono(hz, -v, hz);
    DivBelow(-v, hz);
  }

  function Seconds(t: nat, hz: nat): nat
    requires hz > 0
  {
    t / hz
  }

  function Nanos(t: nat, hz: nat): nat
    requires hz > 0
  {
    Wrap(t % hz * NANO) / hz
  }

  lemma TimeExact(t: nat, hz: nat)
    requires hz > 0 && hz * NANO <= TWO_64
    ensures Nanos(t, hz) < NANO && Seconds(t, hz) * NANO + Nanos(t, hz) == Scaled(t, NANO, hz)
  {
    Fraction(t, NANO, hz);
    RecombinedExact(t, NANO, hz);
    Unwrapped(t % hz * NANO);
  }

  const REALTIME := 0
  const MONOTONIC := 1
  const FIXED_TIME: nat := 1_780_272_000

  function Epoch(clk: int): nat {
    if clk == REALTIME then FIXED_TIME else 0
  }

  // clock_gettime: seconds, read as a signed number, and nanoseconds below 10^9 that together
  // are the exact time just when the seconds fit.
  method ClockGettime(clk: int, hz0: nat, t: nat) returns (r: int, sec: int, nsec: nat)
    requires hz0 < TWO_64 && t < TWO_64
    ensures r == if clk == 0 || clk == 1 then 0 else -1
    ensures Epoch(clk) == if clk == 0 then 1_780_272_000 else 0
    ensures r == 0 ==> var hz := if hz0 == 0 then 1 else hz0;
                       hz * NANO <= TWO_64 ==>
                         && nsec < NANO
                         && (sec * NANO + nsec == Scaled(t, NANO, hz) + Epoch(clk) * NANO
                             <==> t / hz + Epoch(clk) < TWO_63)
  {
    hide Scaled, Nanos, Int64;
    var hz := if hz0 == 0 then 1 else hz0;
    if clk != REALTIME && clk != MONOTONIC {
      return -1, 0, 0;
    }
    sec := Int64(Seconds(t, hz));
    nsec := Nanos(t, hz);
    if hz * NANO <= TWO_64 {
      TimeExact(t, hz);
    }
    Int64Keeps(Seconds(t, hz) + Epoch(clk));
    SumWraps(Seconds(t, hz), Epoch(clk));
    Int64Keeps(Seconds(t, hz));
    if clk == REALTIME {
      sec := Int64(sec + FIXED_TIME);
    }
    r := 0;
  }

  // Ticks asked for by a request, as nanosleep computes them.
  function Asked(sec: nat, nsec: nat, hz: nat): nat {
    Wrap(Wrap(sec * hz) + Wrap(nsec * hz) / NANO)
  }

  // What a request asks for when nothing wraps: the whole ticks it is worth.
  lemma AskedExact(sec: nat, nsec: nat, hz: nat)
    requires sec * hz + nsec * hz / NANO < TWO_64 && nsec * hz < TWO_64
    ensures var n := Asked(sec, nsec, hz); n * NANO <= (sec * NANO + nsec) * hz < (n + 1) * NANO
  {
    hide Wrap;
    Unwrapped(sec * hz);
    Unwrapped(nsec * hz);
    Unwrapped(sec * hz + nsec * hz / NANO);
    Divided(nsec * hz, NANO);
    assert (sec * NANO + nsec) * hz == sec * hz * NANO + nsec * hz;
  }

  // So many nanoseconds are the whole ones in so many ticks.
  predicate Worth(n: nat, ticks: nat, hz: nat) {
    n * hz <= ticks * NANO < (n + 1) * hz
  }

  // The wrapped computation never asks for more ticks than the request is worth.
  lemma AskedBound(sec: nat, nsec: nat, hz: nat)
    ensures Asked(sec, nsec, hz) * NANO <= (sec * NANO + nsec) * hz
  {
    var a, b := sec * hz, nsec * hz;
    assert (sec * NANO + nsec) * hz == a * NANO + b;
    Smaller(a);
    Smaller(b);
    Smaller(Wrap(a) + Wrap(b) / NANO);
    Divided(Wrap(b), NANO);
  }

  lemma Smaller(x: nat)
    ensures Wrap(x) <= x
  {}

  // nanosleep's answer for a request, the rate, and what the system call reported: whether a
  // note cut it short, and the clock before and after. What is left of an interrupted sleep is what
  // the ticks not yet elapsed are worth, never longer than what was asked for.
  method Nanosleep(sec: int, nsec: int, hz: nat, noted: bool, start: nat, end: nat)
      returns (r: int, remSec: nat, remNsec: nat)
    requires hz < TWO_64 && start < TWO_64 && end < TWO_64
    ensures r == -1 <==> sec < 0 || nsec < 0 || nsec >= NANO || (hz > 0 && Asked(sec, nsec, hz) > 0 && noted)
    ensures r == 0 || r == -1
    ensures r == 0 ==> remSec == remNsec == 0
    ensures r == -1 && sec >= 0 && 0 <= nsec < NANO && hz * NANO <= TWO_64 ==>
              remNsec < NANO && remSec * NANO + remNsec <= sec * NANO + nsec
    ensures r == -1 && sec >= 0 && 0 <= nsec < NANO && hz * NANO <= TWO_64 ==>
              var elapsed := if end >= start then end - start else end - start + TWO_64;
              var left := if elapsed < Asked(sec, nsec, hz) then Asked(sec, nsec, hz) - elapsed else 0;
              Worth(remSec * NANO + remNsec, left, hz)
  {
    hide Scaled, Seconds, Nanos, Asked, Worth;
    if sec < 0 || nsec < 0 || nsec >= NANO {
      return -1, 0, 0;
    }
    if hz == 0 {
      return 0, 0, 0;
    }
    var ticks := Asked(sec, nsec, hz);
    if ticks == 0 {
      return 0, 0, 0;
    }
    if noted {
      var done := if end >= start then end - start else end - start + TWO_64;
      var left := if done < ticks then ticks - done else 0;
      remSec := Seconds(left, hz);
      remNsec := Nanos(left, hz);
      if hz * NANO <= TWO_64 {
        LeftBound(left, sec, nsec, hz);
      }
      return -1, remSec, remNsec;
    }
    return 0, 0, 0;
  }

  lemma LeftBound(left: nat, sec: nat, nsec: nat, hz: nat)
    requires hz > 0 && hz * NANO <= TWO_64 && left <= Asked(sec, nsec, hz)
    ensures Nanos(left, hz) < NANO && Seconds(left, hz) * NANO + Nanos(left, hz) <= sec * NANO + nsec
    ensures Worth(Seconds(left, hz) * NANO + Nanos(left, hz), left, hz)
  {
    hide Asked, Scaled, Seconds, Nanos, Worth;
    ScaledWorth(left, hz);
    TimeExact(left, hz);
    AskedBound(sec, nsec, hz);
    WorthAtMost(left, hz, sec * NANO + nsec);
  }

  lemma ScaledWorth(t: nat, hz: nat)
    requires hz > 0
    ensures Worth(Scaled(t, NANO, hz), t, hz)
  {
    Divided(t * NANO, hz);
  }

  lemma WorthAtMost(left: nat, hz: nat, request: nat)
    requires hz > 0 && left * NANO <= request * hz
    ensures Scaled(left, NANO, hz) <= request
  {
    DivMono(left * NANO, request * hz, hz);
    DivIs(request * hz, hz, request, 0);
  }
}
