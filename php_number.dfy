/**
 * PHP's numbers as the thumbnail code of the PHP build uses them. `/` on two
 * integers gives an integer when the division is exact and a double otherwise;
 * an integer times a double is a double; `min` compares numerically and keeps
 * its first argument on a tie; `intval` and `(int)` truncate toward zero.
 *
 * A double is modelled by the value it holds: the real result of the operation
 * rounded as IEEE 754 binary64 rounds it (to the nearest value with a 53-bit
 * significand, ties to an even significand). The exponent is not bounded, so
 * overflow and subnormal numbers are outside this model; the thumbnail code
 * never comes near either.
 */
module PhpNumber {

  /** 2^k as an integer. */
  function Pow2Nat(k: nat): (r: nat)
    ensures r >= 1
  {
    if k == 0 then 1 else 2 * Pow2Nat(k - 1)
  }

  /** 2 to the power `e`, for any integer `e`. */
  function Pow2(e: int): (r: real)
    ensures r > 0.0
  {
    if e >= 0 then Pow2Nat(e) as real else 1.0 / Pow2Nat(-e) as real
  }

  lemma Pow2Succ(e: int)
    ensures Pow2(e + 1) == 2.0 * Pow2(e)
  {
    if e < -1 {
      var p := Pow2Nat(-e - 1) as real;
      assert Pow2Nat(-e) as real == 2.0 * p;
      Halve(p);
    }
  }

  lemma Halve(p: real)
    requires p > 0.0
    ensures 1.0 / p == 2.0 * (1.0 / (2.0 * p))
  {
  }

  /** The powers of two grow: a higher exponent gives at least twice the value. */
  lemma {:induction false} Pow2Grows(e1: int, e2: int)
    requires e1 < e2
    ensures Pow2(e2) >= 2.0 * Pow2(e1)
    decreases e2 - e1
  {
    Pow2Succ(e2 - 1);
    if e1 < e2 - 1 {
      Pow2Grows(e1, e2 - 1);
    }
  }

  lemma {:induction false} Pow2NatAdd(a: nat, b: nat)
    ensures Pow2Nat(a + b) == Pow2Nat(a) * Pow2Nat(b)
  {
    if b > 0 {
      Pow2NatAdd(a, b - 1);
      assert Pow2Nat(a + b) == 2 * Pow2Nat(a + b - 1);
    }
  }

  /** The powers of two the concrete thumbnails need, found by doubling exponents. */
  lemma Pow2Values()
    ensures Pow2(-44) == 1.0 / 17592186044416.0
    ensures Pow2(-47) == 1.0 / 140737488355328.0
    ensures Pow2(-52) == 1.0 / 4503599627370496.0
    ensures Pow2(-53) == 1.0 / 9007199254740992.0
    ensures Pow2(-58) == 1.0 / 288230376151711744.0
  {
    assert Pow2Nat(1) == 2;
    Pow2NatAdd(1, 1);
    assert Pow2Nat(2) == 4;
    Pow2NatAdd(2, 2);
    assert Pow2Nat(4) == 16;
    Pow2NatAdd(4, 4);
    assert Pow2Nat(8) == 256;
    Pow2NatAdd(8, 8);
    assert Pow2Nat(16) == 65536;
    Pow2NatAdd(16, 16);
    assert Pow2Nat(32) == 4294967296;
    Pow2NatAdd(32, 8);
    assert Pow2Nat(40) == 1099511627776;
    Pow2NatAdd(40, 4);
    assert Pow2Nat(44) == 17592186044416;
    Pow2NatAdd(44, 2);
    assert Pow2Nat(46) == 70368744177664;
    Pow2NatAdd(46, 1);
    assert Pow2Nat(47) == 140737488355328;
    Pow2NatAdd(47, 4);
    assert Pow2Nat(51) == 2251799813685248;
    Pow2NatAdd(51, 1);
    assert Pow2Nat(52) == 4503599627370496;
    Pow2NatAdd(52, 1);
    assert Pow2Nat(53) == 9007199254740992;
    Pow2NatAdd(40, 16);
    assert Pow2Nat(56) == 72057594037927936;
    Pow2NatAdd(56, 2);
    assert Pow2Nat(58) == 288230376151711744;
  }

  /** 2^52 and 2^53: a binary64 significand, read as an integer, lies between them. */
  const MinSignificand: real := 4503599627370496.0
  const MaxSignificand: real := 9007199254740992.0

  /** `x` scaled by 2^-e. */
  function Significand(x: real, e: int): real {
    x / Pow2(e)
  }

  /** `n` scaled by 2^e. */
  function Scaled(n: int, e: int): real {
    n as real * Pow2(e)
  }

  /** Scaled by 2^-e, `x` has exactly 53 bits before the point. */
  predicate InBinade(x: real, e: int) {
    MinSignificand <= Significand(x, e) < MaxSignificand
  }

  /** Halving a real of at least 1 lowers its floor, which stays non-negative. */
  lemma HalfFloor(z: real)
    requires z >= 1.0
    ensures 0 <= (z / 2.0).Floor < z.Floor
  {
  }

  /** One exponent lower doubles the significand. */
  lemma SignificandStep(x: real, e: int)
    ensures Significand(x, e - 1) == 2.0 * Significand(x, e)
  {
    Pow2Succ(e - 1);
    var p := Pow2(e - 1);
    assert x / p == 2.0 * (x / (2.0 * p));
  }

  lemma HalfQuotient(c: real, y: real)
    requires y > 0.0
    ensures c / (2.0 * y) == (c / y) / 2.0
  {
  }

  /** The binade of `x`, searched upwards from `e`. */
  function BinadeUp(x: real, e: int): (r: int)
    requires Significand(x, e) >= MinSignificand
    ensures InBinade(x, r)
    decreases Significand(x, e).Floor
  {
    if Significand(x, e) < MaxSignificand then e
    else
      SignificandStep(x, e + 1);
      HalfFloor(Significand(x, e));
      BinadeUp(x, e + 1)
  }

  /** The binade of `x`, searched downwards from `e`. */
  function BinadeDown(x: real, e: int): (r: int)
    requires 0.0 < Significand(x, e) < MaxSignificand
    ensures InBinade(x, r)
    decreases (MinSignificand / Significand(x, e)).Floor
  {
    if Significand(x, e) >= MinSignificand then e
    else
      SignificandStep(x, e);
      HalfQuotient(MinSignificand, Significand(x, e));
      HalfFloor(MinSignificand / Significand(x, e));
      BinadeDown(x, e - 1)
  }

  /** The exponent that puts a positive `x` in its binade. */
  function Binade(x: real): (e: int)
    requires x > 0.0
    ensures InBinade(x, e)
  {
    assert Significand(x, 0) == x;
    if x >= MinSignificand then BinadeUp(x, 0) else BinadeDown(x, 0)
  }

  /** A real lies in one binade only. */
  lemma BinadeUnique(x: real, e1: int, e2: int)
    requires x > 0.0 && InBinade(x, e1) && InBinade(x, e2)
    ensures e1 == e2
  {
    if e1 < e2 {
      Pow2Grows(e1, e2);
      DivideByLarger(x, 2.0 * Pow2(e1), Pow2(e2));
    } else if e2 < e1 {
      Pow2Grows(e2, e1);
      DivideByLarger(x, 2.0 * Pow2(e2), Pow2(e1));
    }
  }

  lemma DivideByLarger(x: real, a: real, b: real)
    requires x > 0.0 && 0.0 < a <= b
    ensures x / b <= x / a && x / a == (x / (a / 2.0)) / 2.0
  {
  }

  /** The integer nearest `y`, the even one on a tie. */
  function NearestInt(y: real): (n: int)
    ensures -0.5 <= n as real - y <= 0.5
    ensures (n as real - y == 0.5 || y - n as real == 0.5) ==> n % 2 == 0
    ensures y == y.Floor as real ==> n == y.Floor
  {
    var f := y.Floor;
    var d := y - f as real;
    if d < 0.5 then f else if d > 0.5 then f + 1 else if f % 2 == 0 then f else f + 1
  }

  /**
   * The double nearest a positive real: its significand in the binade of `x` rounded to the
   * nearest integer. It is within one unit roundoff, 2^-53, of `x`, relative to `x`.
   */
  function Round(x: real): (r: real)
    requires x > 0.0
    ensures Near(r, x) && r > 0.0
  {
    var e := Binade(x);
    var n := NearestInt(Significand(x, e));
    RoundedInBinade(x, e, n);
    Scaled(n, e)
  }

  /** A significand rounded by at most one half, scaled back, is within one unit roundoff of `x`. */
  lemma RoundedInBinade(x: real, e: int, n: int)
    requires x > 0.0 && InBinade(x, e) && -0.5 <= n as real - Significand(x, e) <= 0.5
    ensures Near(Scaled(n, e), x) && Scaled(n, e) > 0.0
  {
    RoundingError(x, Pow2(e), n as real);
  }

  lemma RoundingError(x: real, p: real, v: real)
    requires x > 0.0 && p > 0.0 && MinSignificand <= x / p
    requires -0.5 <= v - x / p <= 0.5
    ensures Near(v * p, x) && v * p > 0.0
  {
    var y := x / p;
    assert x == y * p;
    assert v * p - x == (v - y) * p;
    assert p <= x / MinSignificand by {
      assert MinSignificand * p <= y * p;
    }
  }

  /** The rounding of `x` computed from a binade given for it; this is how a concrete double is found. */
  lemma RoundIn(x: real, e: int)
    requires x > 0.0 && InBinade(x, e)
    ensures Round(x) == Scaled(NearestInt(Significand(x, e)), e)
  {
    BinadeUnique(x, Binade(x), e);
  }

  lemma Pow2OfNat(k: nat)
    ensures Pow2(k) == Pow2Nat(k) as real
    ensures Pow2(-(k as int)) * Pow2(k) == 1.0
  {
  }

  /** Only a non-positive exponent gives a power of two below 2. */
  lemma Pow2BelowTwo(e: int)
    requires Pow2(e) < 2.0
    ensures e <= 0
  {
    if e > 0 {
      Pow2Grows(0, e);
    }
  }

  lemma ScaleBelowTwo(x: real, p: real)
    requires p > 0.0 && MinSignificand <= x / p && x < MaxSignificand
    ensures p < 2.0
  {
    var y := x / p;
    assert x == y * p;
    assert y * p >= MinSignificand * p;
  }

  lemma IntegerScaled(n: nat, k: nat, p: real)
    requires k >= 1 && p * k as real == 1.0
    ensures (n as real) / p == (n * k) as real && (n * k) as real * p == n as real
  {
    CastProduct(n, k);
  }

  /** A positive integer below 2^53 is a double: converting it changes nothing. */
  lemma RoundInteger(n: nat)
    requires 0 < n < 9007199254740992
    ensures Round(n as real) == n as real
  {
    var e := Binade(n as real);
    IntegerInBinade(n, e);
    RoundIn(n as real, e);
  }

  /** In its binade an integer below 2^53 has an integral significand, so rounding it changes nothing. */
  lemma IntegerInBinade(n: nat, e: int)
    requires 0 < n < 9007199254740992 && InBinade(n as real, e)
    ensures Scaled(NearestInt(Significand(n as real, e)), e) == n as real
  {
    var x := n as real;
    ScaleBelowTwo(x, Pow2(e));
    Pow2BelowTwo(e);
    var k := Pow2Nat(-e);
    assert Pow2(e) * k as real == 1.0;
    IntegerScaled(n, k, Pow2(e));
    assert Significand(x, e) == (n * k) as real;
    assert NearestInt(Significand(x, e)) == n * k;
  }

  /** A PHP number: an `int` or a `float`. */
  datatype Number = Int(i: int) | Float(f: real)

  function Value(a: Number): real {
    match a
    case Int(i) => i as real
    case Float(f) => f
  }

  /**
   * `(float)n` for a natural `n`: the rounding of `n`, which is `n` itself below 2^53
   * (`ToFloatRounds`).
   */
  function ToFloat(n: nat): (r: real)
    ensures n > 0 ==> r > 0.0
  {
    if n == 0 then 0.0 else if n < 9007199254740992 then n as real else Round(n as real)
  }

  lemma ToFloatRounds(n: nat)
    requires n > 0
    ensures ToFloat(n) == Round(n as real)
  {
    if n < 9007199254740992 {
      RoundInteger(n);
    }
  }

  /** `a / b` on two integers: an `int` when `b` divides `a`, otherwise the rounded quotient. */
  function Div(a: nat, b: nat): (r: Number)
    requires b > 0
    ensures Value(r) >= 0.0
  {
    if a % b == 0 then Int(a / b)
    else
      var q := ToFloat(a) / ToFloat(b);
      QuotientPositive(ToFloat(a), ToFloat(b));
      Float(Round(q))
  }

  lemma QuotientPositive(a: real, b: real)
    requires a > 0.0 && b > 0.0
    ensures a / b > 0.0
  {
  }

  /** `min(a, b)`: the second only when it is numerically smaller. */
  function Min(a: Number, b: Number): Number {
    if Value(b) < Value(a) then b else a
  }

  /** `n * a` for an integer `n` and a non-negative number `a`. */
  function Mul(n: nat, a: Number): (r: Number)
    requires Value(a) >= 0.0
    ensures Value(r) >= 0.0
  {
    match a
    case Int(i) => Int(n * i)
    case Float(f) => Float(RoundedProduct(ToFloat(n), f))
  }

  /** The double product of two non-negative doubles. */
  function RoundedProduct(x: real, y: real): (r: real)
    requires x >= 0.0 && y >= 0.0
    ensures r >= 0.0
  {
    if x == 0.0 || y == 0.0 then 0.0 else Round(x * y)
  }

  /** `intval(a)` and `(int)a`: truncation toward zero. */
  function Truncate(a: Number): (r: int)
    ensures Value(a) >= 0.0 ==> r == Value(a).Floor && r >= 0
  {
    match a
    case Int(i) => i
    case Float(f) => if f >= 0.0 then f.Floor else -((-f).Floor)
  }

  // ---------------------------------------------------------------- error bounds

  /** `v` is within one unit roundoff of `x`, relative to `x`. */
  predicate Near(v: real, x: real) {
    x - x / 9007199254740992.0 <= v <= x + x / 9007199254740992.0
  }

  /** `v` is within 2^-52 below and 2^-51 above `x`, relative to `x`: two roundings at most. */
  predicate TwiceNear(v: real, x: real) {
    x - x / 4503599627370496.0 <= v <= x + x / 2251799813685248.0
  }

  /** `a / b` on integers below 2^53 holds the quotient, rounded at most once. */
  lemma DivNear(a: nat, b: nat)
    requires 0 < a < 9007199254740992 && 0 < b < 9007199254740992
    ensures Value(Div(a, b)) > 0.0 && Near(Value(Div(a, b)), a as real / b as real)
  {
    if a % b == 0 {
      assert a == (a / b) * b;
      assert (a / b) as real * b as real == a as real;
    } else {
      RoundInteger(a);
      RoundInteger(b);
      QuotientPositive(a as real, b as real);
    }
  }

  /** `a / b` is above one half when `b` is at most `a`. */
  lemma DivAboveHalf(a: nat, b: nat)
    requires 0 < b <= a < 9007199254740992
    ensures Value(Div(a, b)) > 0.5
  {
    DivNear(a, b);
    QuotientAtLeastOne(a as real, b as real);
  }

  lemma QuotientAtLeastOne(a: real, b: real)
    requires 0.0 < b <= a
    ensures a / b >= 1.0
  {
  }

  /** The smaller of two ratios near `k / w` and `k / h` is near `k` over the longer side. */
  lemma MinNear(a: Number, b: Number, k: nat, w: nat, h: nat)
    requires k > 0 && w > 0 && h > 0
    requires Near(Value(a), k as real / w as real) && Near(Value(b), k as real / h as real)
    ensures Near(Value(Min(a, b)), k as real / (if w >= h then w else h) as real)
  {
    if w >= h {
      QuotientAntitone(k as real, h as real, w as real);
    } else {
      QuotientAntitone(k as real, w as real, h as real);
    }
  }

  lemma QuotientAntitone(k: real, x: real, y: real)
    requires k > 0.0 && 0.0 < x <= y
    ensures k / y <= k / x
  {
  }

  /**
   * An integer `s` times a ratio near `k / m`, truncated as `intval` does: `a / m` for `a = s * k` on
   * integers, except that an exact quotient may come out one lower.
   */
  lemma TruncatedProduct(s: nat, ratio: Number, k: nat, m: nat, a: nat)
    requires 0 < s && 0 < k && 0 < m && a == s * k && a < 2251799813685248
    requires Value(ratio) > 0.0 && Near(Value(ratio), k as real / m as real)
    ensures var t := Truncate(Mul(s, ratio));
      && (a % m != 0 ==> t == a / m)
      && (a % m == 0 ==> a / m - 1 <= t <= a / m)
  {
    PositiveProduct(s, k);
    MulTwiceNear(s, ratio, k, m);
    TruncateNumber(Mul(s, ratio), s, k, m, a);
  }

  /** `s` times a ratio near `k / m`, as PHP multiplies, is within two roundings of `s · k / m`. */
  lemma MulTwiceNear(s: nat, ratio: Number, k: nat, m: nat)
    requires 0 < s < 9007199254740992 && 0 < k && 0 < m
    requires Value(ratio) > 0.0 && Near(Value(ratio), k as real / m as real)
    ensures TwiceNear(Value(Mul(s, ratio)), s as real * (k as real / m as real))
  {
    QuotientPositive(k as real, m as real);
    MulNear(s, ratio, k as real / m as real, s as real * (k as real / m as real));
  }

  /** Truncating a non-negative number within two roundings of `s · k / m`, for `a = s · k` below 2^51. */
  lemma TruncateNumber(p: Number, s: nat, k: nat, m: nat, a: nat)
    requires 0 < a < 2251799813685248 && 0 < m && a == s * k
    requires Value(p) >= 0.0 && TwiceNear(Value(p), s as real * (k as real / m as real))
    ensures a % m != 0 ==> Truncate(p) == a / m
    ensures a % m == 0 ==> a / m - 1 <= Truncate(p) <= a / m
  {
    var x := s as real * (k as real / m as real);
    ScaleQuotient(s, k, m, x);
    TruncateNear(Value(p), x, a, m);
  }

  lemma PositiveProduct(s: nat, k: nat)
    requires s > 0 && k > 0
    ensures s * k > 0 && s <= s * k
  {
  }

  /** `x`, which is `s` times `k / m`, times `m` again is `s * k`. */
  lemma ScaleQuotient(s: nat, k: nat, m: nat, x: real)
    requires m > 0 && x == s as real * (k as real / m as real)
    ensures x * m as real == (s * k) as real
  {
    CastProduct(s, k);
    var (sR, kR, mR) := (s as real, k as real, m as real);
    assert sR * (kR / mR) * mR == sR * kR;
  }

  /** An integer `x` times a ratio near `q`, as PHP computes it, is within two roundings of the exact product. */
  lemma MulNear(n: nat, a: Number, q: real, y: real)
    requires 0 < n < 9007199254740992 && y == n as real * q
    requires q > 0.0 && Value(a) > 0.0 && Near(Value(a), q)
    ensures TwiceNear(Value(Mul(n, a)), y)
  {
    match a
    case Int(i) =>
      IntProductNear(n, i, q, y);
    case Float(f) =>
      assert Value(Mul(n, a)) == RoundedProduct(n as real, f);
      RoundedProductNear(n as real, f, q, y);
  }

  /** An exact product of integers, near `n · q` when the integer factor is near `q`. */
  lemma IntProductNear(n: nat, i: int, q: real, y: real)
    requires n > 0 && y == n as real * q && q > 0.0 && Near(i as real, q)
    ensures TwiceNear((n * i) as real, y)
  {
    ScaleNear(n as real, i as real, q);
    CastProduct(n, i);
    NearIsTwiceNear((n * i) as real, y);
  }

  /** The double product of `x` and a double `f` near `q` is within two roundings of `y = x · q`. */
  lemma RoundedProductNear(x: real, f: real, q: real, y: real)
    requires x > 0.0 && f > 0.0 && q > 0.0 && y == x * q && Near(f, q)
    ensures TwiceNear(RoundedProduct(x, f), y)
  {
    ScaleNear(x, f, q);
    ComposeNear(Round(x * f), x * f, x * q);
  }

  lemma ScaleNear(x: real, v: real, q: real)
    requires x > 0.0 && Near(v, q)
    ensures Near(x * v, x * q)
  {
  }

  lemma NearIsTwiceNear(v: real, x: real)
    requires x > 0.0 && Near(v, x)
    ensures TwiceNear(v, x)
  {
  }

  lemma ComposeNear(r: real, p: real, x: real)
    requires x > 0.0 && Near(r, p) && Near(p, x)
    ensures TwiceNear(r, x)
  {
    var u := 1.0 / 9007199254740992.0;
    assert p <= x + x * u;
    assert r <= p + p * u;
    assert p * u <= (x + x * u) * u;
    assert p >= x - x * u;
    assert r >= p - p * u;
    assert p * u <= (x + x * u) * u;
  }

  /**
   * Truncating a value within two roundings of `x = a / m`: the exact truncated quotient,
   * except that an exact integer quotient may come out one lower. This holds while `a` stays
   * below 2^51.
   */
  lemma TruncateNear(c: real, x: real, a: nat, m: nat)
    requires 0 < a < 2251799813685248 && m > 0
    requires x * m as real == a as real && TwiceNear(c, x)
    ensures c >= 0.0
    ensures a % m != 0 ==> c.Floor == a / m
    ensures a % m == 0 ==> a / m - 1 <= c.Floor <= a / m
  {
    ScaledWithin(c, x, a as real, m as real);
    var q := a / m;
    DivBracket(a, m);
    if a % m != 0 {
      CastBracket(a, m, q, q + 1);
      FloorBetween(c, a as real, m as real, q as real, (q + 1) as real);
    } else {
      CastBracket(a, m, q - 1, q + 1);
      FloorBetween(c, a as real, m as real, (q - 1) as real, (q + 1) as real);
    }
  }

  /** The multiples of `m` strictly around `a`: the neighbours of `a / m`, or of its predecessor when `m` divides `a`. */
  lemma DivBracket(a: nat, m: nat)
    requires m > 0
    ensures a % m != 0 ==> (a / m) * m + 1 <= a && a + 1 <= (a / m + 1) * m
    ensures a % m == 0 ==> (a / m - 1) * m + 1 <= a && a + 1 <= (a / m + 1) * m
  {
    assert a == (a / m) * m + a % m;
  }

  lemma CastBracket(a: int, m: int, lo: int, hi: int)
    requires lo * m + 1 <= a && a + 1 <= hi * m
    ensures lo as real * m as real + 1.0 <= a as real && a as real + 1.0 <= hi as real * m as real
  {
    CastProduct(lo, m);
    CastProduct(hi, m);
  }

  lemma FloorBetween(c: real, a: real, m: real, lo: real, hi: real)
    requires m > 0.0 && a - 1.0 < c * m < a + 1.0
    requires lo * m + 1.0 <= a && a + 1.0 <= hi * m
    ensures lo < c < hi
  {
    CancelFactor(c, lo, hi, m);
  }

  /** Scaled by `m`, a value within two roundings of `x = a / m` lies strictly between `a - 1` and `a + 1`. */
  lemma ScaledWithin(c: real, x: real, a: real, m: real)
    requires 0.0 < a < 2251799813685248.0 && m > 0.0
    requires x * m == a && TwiceNear(c, x)
    ensures c >= 0.0 && a - 1.0 < c * m < a + 1.0
  {
    assert c * m <= (x + x / 2251799813685248.0) * m;
    assert c * m >= (x - x / 4503599627370496.0) * m;
  }

  lemma CastProduct(q: int, m: int)
    ensures (q * m) as real == q as real * m as real
  {
  }

  lemma CancelFactor(c: real, lo: real, hi: real, m: real)
    requires m > 0.0 && lo * m < c * m < hi * m
    ensures lo < c < hi
  {
  }
}
