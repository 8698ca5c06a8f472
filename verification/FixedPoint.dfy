/** Overflow-avoiding scaling of 32-bit numbers, and binary fixed-point arithmetic with rounding. */
module FixedPoint {
  import opened Arithmetic
  import opened Words
  import opened Wrappers

  // ---------- scale32 ----------

  /** x * a / b on unsigned 32-bit arithmetic, which wraps around. */
  function Scale32(x: Uint32, a: Uint32, b: Uint32): Uint32
    requires b > 0
  {
    var xOverB := x / b;
    var xModB := x % b * a % TWO32;
    (xOverB * a % TWO32 + (xModB + b / 2) % TWO32 / b) % TWO32
  }

  /** x * a / b rounded to the nearest integer, halves upwards (for odd b, b / 2 is just below a half). */
  function Scaled(x: nat, a: nat, b: nat): int
    requires b > 0
  {
    (x * a + b / 2) / b
  }

  /** What rounding means: b times the result is at most b / 2 above the product, and less than b - b / 2 below. */
  lemma ScaledRounds(x: nat, a: nat, b: nat)
    requires b > 0
    ensures x * a - (b - b / 2) < b * Scaled(x, a, b) <= x * a + b / 2
  {
    var n := x * a + b / 2;
    assert n == b * (n / b) + n % b;
  }

  /** The numerator of the rounded term that scales the remainder of x. */
  function RemainderTerm(x: nat, a: nat, b: nat): int
    requires b > 0
  {
    x % b * a + b / 2
  }

  function WholeTerm(x: nat, a: nat, b: nat): int
    requires b > 0
  {
    x / b * a
  }

  lemma ScaledSplit(x: nat, a: nat, b: nat)
    requires b > 0
    ensures Scaled(x, a, b) == WholeTerm(x, a, b) + RemainderTerm(x, a, b) / b
  {
    var q, r := x / b, x % b;
    var t := r * a + b / 2;
    assert x == b * q + r;
    assert x * a == b * (q * a) + r * a by {
      Expand(b, q, r, a);
    }
    assert t == b * (t / b) + t % b;
    assert x * a + b / 2 == b * (q * a + t / b) + t % b by {
      DistributeTwice(b, 1, q * a, t / b);
    }
    DivModUnique(x * a + b / 2, b, q * a + t / b, t % b);
  }

  lemma Expand(b: int, q: int, r: int, a: int)
    ensures (b * q + r) * a == b * (q * a) + r * a
  {
    assert (b * q) * a == b * (q * a);
  }

  lemma SumMod(m: int, n: int, d: nat)
    requires d > 0
    ensures (m % d + n) % d == (m + n) % d
  {
    var s := m % d + n;
    assert m == d * (m / d) + m % d && s == d * (s / d) + s % d;
    assert m + n == d * (m / d + s / d) + s % d by {
      DistributeTwice(d, 1, m / d, s / d);
    }
    DivModUnique(m + n, d, m / d + s / d, s % d);
  }

  /** The quotient by b of a number that wrapped around is off by at least one and less than 2^32. */
  lemma WrappedQuotient(t: nat, b: Uint32)
    requires b > 0 && t < b * TWO32
    ensures t / b < TWO32
    ensures t >= TWO32 ==> t % TWO32 / b < t / b
  {
    assert t == b * (t / b) + t % b;
    if t / b >= TWO32 {
      ProductAtMost(b, TWO32, t / b);
    }
    var u := t % TWO32;
    assert u == b * (u / b) + u % b;
    if t >= TWO32 {
      assert u <= t - TWO32;
      if u / b >= t / b {
        ProductAtMost(b, t / b, u / b);
      }
    }
  }

  /** Modulo 2^32 the result is the exact rounded one if and only if the rounded remainder term does not wrap. */
  lemma Scale32Exact(x: Uint32, a: Uint32, b: Uint32)
    requires b > 0
    ensures Scale32(x, a, b) == Scaled(x, a, b) % TWO32 <==> RemainderTerm(x, a, b) < TWO32
  {
    hide Scale32, Scaled, RemainderTerm, WholeTerm;
    ScaledSplit(x, a, b);
    Scale32Sum(x, a, b);
    RemainderTermBelow(x, a, b);
    SumsAgree(WholeTerm(x, a, b), RemainderTerm(x, a, b), b);
  }

  /** Where the intermediate results wrap does not matter, except in the numerator of the remainder term. */
  lemma Scale32Sum(x: Uint32, a: Uint32, b: Uint32)
    requires b > 0
    ensures Scale32(x, a, b) == (WholeTerm(x, a, b) + RemainderTerm(x, a, b) % TWO32 / b) % TWO32
  {
    ProductNonNegative(x % b, a);
    ProductNonNegative(x / b, a);
    var low := x % b * a;
    SumMod(low, b / 2, TWO32);
    SumMod(x / b * a, (low + b / 2) % TWO32 / b, TWO32);
  }

  lemma SumsAgree(high: int, t: int, b: Uint32)
    requires b > 0 && 0 <= t < b * TWO32
    ensures (high + t % TWO32 / b) % TWO32 == (high + t / b) % TWO32 <==> t < TWO32
  {
    WrappedQuotient(t, b);
    if t < TWO32 {
      DivModUnique(t, TWO32, 0, t);
    } else {
      var u, v := t % TWO32 / b, t / b;
      assert 0 <= u < v < TWO32 by {
        var w := t % TWO32;
        assert w == b * (w / b) + w % b;
        MultipleOutsideRange(b, w / b);
      }
      DifferentMod(high + u, high + v);
    }
  }

  lemma RemainderTermBelow(x: Uint32, a: Uint32, b: Uint32)
    requires b > 0
    ensures 0 <= RemainderTerm(x, a, b) < b * TWO32
  {
    var r := x % b;
    ProductAtMost(a, r, b - 1);
    ProductAtMost(b - 1, a, TWO32 - 1);
    assert r * a == a * r && a * (b - 1) == (b - 1) * a;
    assert (b - 1) * (TWO32 - 1) == b * TWO32 - b - TWO32 + 1;
  }

  /** Numbers less than 2^32 apart have different residues. */
  lemma DifferentMod(m: int, n: int)
    requires 0 < n - m < TWO32
    ensures m % TWO32 != n % TWO32
  {
  }

  /** The condition for every x at once; then the result is exact whenever the exact one fits. */
  lemma Scale32ExactForAll(a: Uint32, b: Uint32)
    requires b > 0
    ensures (b - 1) * a + b / 2 < TWO32 <==>
            forall x: Uint32 :: Scale32(x, a, b) == Scaled(x, a, b) % TWO32
    ensures (b - 1) * a + b / 2 < TWO32 ==>
              forall x: Uint32 :: Scaled(x, a, b) < TWO32 ==> Scale32(x, a, b) == Scaled(x, a, b)
  {
    hide Scale32, Scaled;
    forall x: Uint32
      ensures (b - 1) * a + b / 2 < TWO32 ==> Scale32(x, a, b) == Scaled(x, a, b) % TWO32
      ensures Scaled(x, a, b) < TWO32 ==> Scaled(x, a, b) % TWO32 == Scaled(x, a, b)
    {
      Scale32Exact(x, a, b);
      RemainderTermAtMost(x, a, b);
      ScaledNonNegative(x, a, b);
      if Scaled(x, a, b) < TWO32 {
        DivModUnique(Scaled(x, a, b), TWO32, 0, Scaled(x, a, b));
      }
    }
    var worst: Uint32 := b - 1;
    Scale32Exact(worst, a, b);
    DivModUnique(worst, b, 0, worst);
    assert RemainderTerm(worst, a, b) == (b - 1) * a + b / 2;
  }

  lemma RemainderTermAtMost(x: nat, a: nat, b: nat)
    requires b > 0
    ensures RemainderTerm(x, a, b) <= (b - 1) * a + b / 2
  {
    ProductAtMost(a, x % b, b - 1);
  }

  lemma ScaledNonNegative(x: nat, a: nat, b: nat)
    requires b > 0
    ensures Scaled(x, a, b) >= 0
  {
    ProductNonNegative(x, a);
    var n := x * a + b / 2;
    assert n == b * (n / b) + n % b;
    MultipleOutsideRange(b, n / b);
  }

  /** The documented requirement, that a * b fits, is not enough. */
  lemma DocumentedRequirementTooWeak()
    ensures var a: Uint32, b: Uint32 := 1, 0xffff_ffff;
            a * b <= 0xffff_ffff && exists x: Uint32 :: Scaled(x, a, b) < TWO32 && Scale32(x, a, b) != Scaled(x, a, b)
  {
    var a: Uint32, b: Uint32 := 1, 0xffff_ffff;
    var x: Uint32 := 0xffff_fffe;
    assert Scaled(x, a, b) == 1 && Scale32(x, a, b) == 0;
  }

  // ---------- Fixed point ----------

  /** The values of a signed 32-bit number; the functions below are defined where nothing overflows. */
  predicate Fits32(n: int) {
    -0x8000_0000 <= n < 0x8000_0000
  }

  /** They are those of 31 binary digits and a sign in two's complement. */
  lemma Fits32Exactly(n: int)
    ensures Fits32(n) <==> -(Pow2(31) as int) <= n < Pow2(31)
  {
    assert Pow2(8) == 0x100;
    assert Pow2(16) == 0x1_0000;
    assert Pow2(24) == 0x100_0000;
    assert Pow2(31) == 0x8000_0000;
  }

  /** asInt << dp */
  function ToFP(asInt: int, dp: nat): int
    requires Fits32(asInt) && Fits32(asInt * Pow2(dp))
  {
    asInt * Pow2(dp)
  }

  /** (asFP + (1 << (dp - 1))) >> dp */
  function ToInt(asFP: int, dp: nat): int
    requires dp > 0 && Fits32(asFP + Pow2(dp - 1))
  {
    (asFP + Pow2(dp - 1)) / Pow2(dp)
  }

  /** (a * b + (1 << (dp - 1))) >> dp */
  function FpMult(a: int, b: int, dp: nat): int
    requires dp > 0 && Fits32(a * b) && Fits32(a * b + Pow2(dp - 1))
  {
    (a * b + Pow2(dp - 1)) / Pow2(dp)
  }

  /** Shifting half a unit on and then down rounds to nearest. */
  lemma RoundsToNearest(n: int, dp: nat)
    requires dp > 0
    ensures var q := (n + Pow2(dp - 1)) / Pow2(dp);
            n - Pow2(dp - 1) < q * Pow2(dp) <= n + Pow2(dp - 1)
  {
    var h, s := Pow2(dp - 1), Pow2(dp);
    var q := (n + h) / s;
    assert n + h == s * q + (n + h) % s;
    assert s * q == q * s;
  }

  /** An integer in fixed point stands for itself. */
  lemma ToFPExact(n: int, dp: nat)
    requires Fits32(n) && Fits32(n * Pow2(dp))
    ensures ToFP(n, dp) as real / Pow2(dp) as real == n as real
  {
    var s := Pow2(dp);
    ProductAsReal(n, s);
    QuotientOfProduct(n as real, s as real);
  }

  lemma QuotientOfProduct(a: real, s: real)
    requires s > 0.0
    ensures a * s / s == a
  {
    QuotientTimes(a, s);
  }

  /** Converting back is within half a unit, halves upwards, whatever the sign: this fixes the result. */
  lemma ToIntRounds(asFP: int, dp: nat)
    requires dp > 0 && Fits32(asFP + Pow2(dp - 1))
    ensures asFP - Pow2(dp - 1) < ToInt(asFP, dp) * Pow2(dp) <= asFP + Pow2(dp - 1)
  {
    RoundsToNearest(asFP, dp);
  }

  /** So is a product, of the exact one. */
  lemma FpMultRounds(a: int, b: int, dp: nat)
    requires dp > 0 && Fits32(a * b) && Fits32(a * b + Pow2(dp - 1))
    ensures a * b - Pow2(dp - 1) < FpMult(a, b, dp) * Pow2(dp) <= a * b + Pow2(dp - 1)
  {
    RoundsToNearest(a * b, dp);
  }

  /** Converting to fixed point and back is the identity. */
  lemma ToIntInvertsToFP(n: int, dp: nat)
    requires dp > 0 && Fits32(n) && Fits32(n * Pow2(dp)) && Fits32(n * Pow2(dp) + Pow2(dp - 1))
    ensures ToInt(ToFP(n, dp), dp) == n
  {
    var h, s := Pow2(dp - 1), Pow2(dp);
    assert n * s == s * n;
    DivModUnique(n * s + h, s, n, h);
  }

  /** Multiplying by one factor after the other, as long as nothing overflows. */
  function Chain(v: int, factors: seq<int>, dp: nat): Option<int>
    requires dp > 0
  {
    if factors == [] then Some(v)
    else
      match Chain(v, factors[..|factors| - 1], dp)
      case None => None
      case Some(w) =>
        var f := factors[|factors| - 1];
        if Fits32(w * f) && Fits32(w * f + Pow2(dp - 1)) then Some(FpMult(w, f, dp)) else None
  }

  /** The same product without rounding. */
  function ExactChain(v: int, factors: seq<int>, dp: nat): real {
    if factors == [] then v as real
    else ExactMult(ExactChain(v, factors[..|factors| - 1], dp), factors[|factors| - 1], dp)
  }

  /** The product of a real number and a fixed-point one. */
  function ExactMult(e: real, f: int, dp: nat): real {
    e * f as real / Pow2(dp) as real
  }

  /** `x` is within `halves` half units of `y`. */
  predicate Within(x: real, y: real, halves: real) {
    -halves <= 2.0 * (x - y) <= halves
  }

  /** Factors of magnitude at most one: n multiplications are off by at most n half units. */
  lemma {:induction false} ChainError(v: int, factors: seq<int>, dp: nat)
    requires dp > 0 && Chain(v, factors, dp).Some?
    requires forall i :: 0 <= i < |factors| ==> -(Pow2(dp) as int) <= factors[i] <= Pow2(dp)
    ensures Within(Chain(v, factors, dp).value as real, ExactChain(v, factors, dp), |factors| as real)
  {
    hide ExactMult, FpMult, Within, Pow2, Fits32;
    if factors == [] {
      ZeroIsWithin(v as real);
    } else {
      var n := |factors| - 1;
      ChainError(v, factors[..n], dp);
      OneMoreFactor(Chain(v, factors[..n], dp).value, factors[n], dp, ExactChain(v, factors[..n], dp), n as real);
      assert |factors| as real == n as real + 1.0;
    }
  }

  lemma ZeroIsWithin(x: real)
    ensures Within(x, x, 0.0)
  {
  }

  lemma OneMoreFactor(w: int, f: int, dp: nat, exact: real, bound: real)
    requires dp > 0 && Fits32(w * f) && Fits32(w * f + Pow2(dp - 1))
    requires -(Pow2(dp) as int) <= f <= Pow2(dp) && bound >= 0.0 && Within(w as real, exact, bound)
    ensures Within(FpMult(w, f, dp) as real, ExactMult(exact, f, dp), bound + 1.0)
  {
    hide Within;
    var s := Pow2(dp);
    FpMultGap(w, f, dp);
    var e := exact * f as real / s as real;
    QuotientTimes(exact * f as real, s as real);
    GapBound(FpMult(w, f, dp) as real, w as real, f as real, s as real, exact, e, bound);
  }

  /** Twice the product and twice the multiple of 2^dp that replaces it differ by at most 2^dp. */
  lemma FpMultGap(w: int, f: int, dp: nat)
    requires dp > 0 && Fits32(w * f) && Fits32(w * f + Pow2(dp - 1))
    ensures var s := Pow2(dp) as real;
            -s <= 2.0 * (FpMult(w, f, dp) as real * s - w as real * f as real) <= s
  {
    var p, s := FpMult(w, f, dp), Pow2(dp);
    FpMultRounds(w, f, dp);
    assert 2 * Pow2(dp - 1) == s;
    DifferenceAsReal(w, f, p, s);
  }

  lemma DifferenceAsReal(w: int, f: int, p: int, s: int)
    requires -s <= 2 * (p * s - w * f) <= s
    ensures -(s as real) <= 2.0 * (p as real * s as real - w as real * f as real) <= s as real
  {
    hide *;
    ProductAsReal(w, f);
    ProductAsReal(p, s);
    var ps, wf := p * s, w * f;
    assert (2 * (ps - wf)) as real == 2.0 * (ps as real - wf as real);
  }

  lemma ProductAsReal(a: int, b: int)
    ensures (a * b) as real == a as real * b as real
  {
  }

  lemma QuotientTimes(a: real, s: real)
    requires s > 0.0
    ensures a / s * s == a
  {
  }

  /** A product by name, which keeps arithmetic on it linear. */
  function Times(a: real, b: real): real {
    a * b
  }

  /** Half a unit of rounding comes on top of the error so far, which the factor f does not enlarge. */
  lemma GapBound(p: real, w: real, f: real, s: real, exact: real, e: real, bound: real)
    requires s > 0.0 && -s <= f <= s && bound >= 0.0 && Within(w, exact, bound)
    requires Times(e, s) == Times(exact, f) && -s <= 2.0 * (Times(p, s) - Times(w, f)) <= s
    ensures Within(p, e, bound + 1.0)
  {
    hide Times;
    var half, more := bound / 2.0, (bound + 1.0) / 2.0;
    Distribute(p, e, s);
    Distribute(w, exact, f);
    ProductBound(w - exact, half, f, s);
    Distribute(half, -0.5, s);
    HalfTimes(s);
    assert half - -0.5 == more;
    ScaleDown(p - e, more, s);
  }

  lemma Distribute(a: real, b: real, c: real)
    ensures Times(a - b, c) == Times(a, c) - Times(b, c)
  {
  }

  lemma HalfTimes(s: real)
    ensures Times(-0.5, s) == -0.5 * s
  {
  }

  lemma ProductBound(a: real, p: real, b: real, q: real)
    requires -p <= a <= p && -q <= b <= q
    ensures -Times(p, q) <= Times(a, b) <= Times(p, q)
  {
    hide Times;
    SignOfProduct(p - a, q + b);
    SignOfProduct(p + a, q - b);
    SignOfProduct(p - a, q - b);
    SignOfProduct(p + a, q + b);
    ExpandBoth(p, a, q, b);
  }

  lemma ExpandBoth(p: real, a: real, q: real, b: real)
    ensures Times(p + a, q + b) == Times(p, q) + Times(p, b) + Times(a, q) + Times(a, b)
    ensures Times(p + a, q - b) == Times(p, q) - Times(p, b) + Times(a, q) - Times(a, b)
    ensures Times(p - a, q + b) == Times(p, q) + Times(p, b) - Times(a, q) - Times(a, b)
    ensures Times(p - a, q - b) == Times(p, q) - Times(p, b) - Times(a, q) + Times(a, b)
  {
  }

  lemma Negate(b: real, s: real)
    ensures Times(-b, s) == -Times(b, s)
  {
  }

  lemma ScaleDown(a: real, b: real, s: real)
    requires s > 0.0 && -Times(b, s) <= Times(a, s) <= Times(b, s)
    ensures -b <= a <= b
  {
    hide Times;
    Distribute(a, b, s);
    Distribute(-b, a, s);
    Negate(b, s);
    SignOfProduct(a - b, s);
    SignOfProduct(-b - a, s);
  }

  lemma SignOfProduct(a: real, b: real)
    ensures a >= 0.0 && b >= 0.0 ==> Times(a, b) >= 0.0
    ensures a > 0.0 && b > 0.0 ==> Times(a, b) > 0.0
  {
  }
}
