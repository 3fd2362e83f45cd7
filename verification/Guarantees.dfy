/**
 What the digits of dtoa mean for the double they came from: the statements about scaled
 whole numbers of module Digits carried over to values in units of 10^-1100.
 */
module Guarantees {
  import opened Arith
  import opened Digits
  import opened Scaling

  /** v rounded half-even to n significant digits; K is its decimal exponent. */
  ghost predicate CorrectlyRounded(v: nat, K: int, n: nat, ds: seq<char>, decpt: int)
  {
    && DecimalExponent(v, K) && n > 0
    && Canonical(ds) && |ds| <= n && (decpt == K + 1 || (decpt == K + 2 && ds == "1"))
    && HalfEven(v * Pow(10, n - 1), Decimal(1, K), Dec(ds) * Pow(10, n - |ds| + (decpt - (K + 1))))
  }

  predicate Within(v: nat, lo: nat, hi: nat, incl: bool, x: nat)
  {
    if incl then v - lo <= x <= v + hi else v - lo < x < v + hi
  }

  function Distance(x: nat, y: nat): nat
  {
    if x < y then y - x else x - y
  }

  /** d * 10^p in the interval around v; a decimal with digits below the unit is compared in units of its own. */
  ghost predicate DecimalWithin(v: nat, lo: nat, hi: nat, incl: bool, d: nat, p: int)
  {
    if p >= -UNITS then Within(v, lo, hi, incl, Decimal(d, p))
    else var q := Pow(10, -UNITS - p); Within(v * q, lo * q, hi * q, incl, d)
  }

  /** Of two decimals that are as near the one is taken whose last digit is even; or 10 and not 9. */
  predicate Even(ds: seq<char>, above: bool)
    requires Canonical(ds)
  {
    DigitOf(ds[|ds| - 1]) % 2 == 0 || (ds == "1" && above)
  }

  /** Another decimal of the interval that is as near to v. */
  ghost predicate AsNear(v: nat, lo: nat, hi: nat, incl: bool, out: nat, d: nat, p: int)
  {
    p >= -UNITS && Within(v, lo, hi, incl, Decimal(d, p)) && Decimal(d, p) != out && Distance(Decimal(d, p), v) == Distance(out, v)
  }

  /** A decimal in the interval around v; no decimal with fewer digits is in it, none with as many is in it
      and nearer to v, and if one is as near the last digit of this one is even. */
  ghost predicate ShortestDecimal(v: nat, lo: nat, hi: nat, incl: bool, ds: seq<char>, decpt: int)
  {
    && Canonical(ds) && decpt - |ds| >= -UNITS
    && var out := Decimal(Dec(ds), decpt - |ds|);
    && Within(v, lo, hi, incl, out)
    && (forall d: nat, p: int :: d < Pow(10, |ds| - 1) ==> !DecimalWithin(v, lo, hi, incl, d, p))
    && (forall d: nat, p: int :: d < Pow(10, |ds|) && DecimalWithin(v, lo, hi, incl, d, p) ==>
          p >= -UNITS && Distance(out, v) <= Distance(Decimal(d, p), v))
    && (forall d: nat, p: int :: d < Pow(10, |ds|) && AsNear(v, lo, hi, incl, out, d, p) ==> Even(ds, Decimal(d, p) < out))
  }

  // ----- mode 2

  /** Rounding looks at a ratio only. */
  lemma HalfEvenRatio(a: nat, b: nat, c: nat, d: nat, D: nat)
    requires b > 0 && d > 0 && a * d == c * b && HalfEven(a, b, D)
    ensures HalfEven(c, d, D)
  {
    var x, y := 2 * a - 2 * (D * b), 2 * c - 2 * (D * d);
    RatioStep(a, b, c, d, D);
    assert x * d == y * b;
    ScaleBound(x, b, y, d);
  }

  lemma RatioStep(a: nat, b: nat, c: nat, d: nat, D: nat)
    requires a * d == c * b
    ensures (2 * a - 2 * (D * b)) * d == (2 * c - 2 * (D * d)) * b
  {
    Distribute(2 * a, -2 * (D * b), d);
    Distribute(2 * c, -2 * (D * d), b);
    MulAssoc(D, b, d);
    MulAssoc(D, d, b);
    MulComm(b, d);
    MulAssoc(-2, D * b, d);
    MulAssoc(-2, D * d, b);
    MulAssoc(2, a, d);
    MulAssoc(2, c, b);
  }

  lemma ScaleBound(x: int, b: nat, y: int, d: nat)
    requires b > 0 && d > 0 && x * d == y * b && -(b as int) <= x <= b
    ensures -(d as int) <= y <= d
    ensures (x == b <==> y == d) && (x == -(b as int) <==> y == -(d as int))
  {
    MulLe(x, b, d);
    MulLe(-(b as int), x, d);
    MulComm(b, d);
    assert (-(b as int)) * d == (-(d as int)) * b by { MulAssoc(-1, b, d); MulAssoc(-1, d, b); }
    MulCancelLe(y, d, b);
    MulCancelLe(-(d as int), y, b);
    if x == b { MulCancelEq(y, d, b); }
    if x == -(b as int) { MulCancelEq(y, -(d as int), b); }
    if y == d { MulCancelEq(x, b, d); }
    if y == -(d as int) { MulCancelEq(x, -(b as int), d); }
  }

  lemma FixedMeaning(b: nat, S: nat, v: nat, K: int, n: nat, ds: seq<char>, up: nat)
    requires n > 0 && S > 0 && DecimalExponent(v, K) && Stands(b, S, v, K) && RoundedTo(b, S, n, ds, up)
    ensures CorrectlyRounded(v, K, n, ds, K + 1 + up)
  {
    var P, q := Pow(10, K + UNITS), Pow(10, n - 1);
    ProductSwap(b, q, P, v, S);
    HalfEvenRatio(b * q, S, v * q, Decimal(1, K), Dec(ds) * Pow(10, n - |ds| + up));
  }

  lemma ProductSwap(b: nat, q: nat, P: nat, v: nat, S: nat)
    requires b * P == v * S
    ensures b * q * P == v * q * S
  {
    MulAssoc(b, q, P);
    MulComm(q, P);
    MulAssoc(b, P, q);
    MulAssoc(v, q, S);
    MulComm(q, S);
    MulAssoc(v, S, q);
  }

  // ----- modes 0 and 1

  lemma CompareScaled(a: int, c: int, P: nat, a': int, c': int, W: nat)
    requires P > 0 && W > 0 && a * P == a' * W && c * P == c' * W
    ensures (a <= c <==> a' <= c') && (a < c <==> a' < c')
  {
    if a <= c { MulLe(a, c, P); MulCancelLe(a', c', W); }
    if a' <= c' { MulLe(a', c', W); MulCancelLe(a, c, P); }
    if a < c { MulLt(a, c, P); MulCancelLt(a', c', W); }
    if a' < c' { MulLt(a', c', W); MulCancelLt(a, c, P); }
  }

  /** The decimal D * 10^(k+1-i) in units, and the same comparison in scaled numbers. */
  lemma DigitPosition(D: nat, k: int, i: nat, S: nat)
    requires i > 0 && k >= -UNITS && k + 1 - i >= -UNITS
    ensures D * S * Pow(10, k + UNITS) == Decimal(D, k + 1 - i) * (S * Pow(10, i - 1))
  {
    var p, r := Pow(10, i - 1), Pow(10, k + 1 - i + UNITS);
    PowAdd(10, i - 1, k + 1 - i + UNITS);
    FourProduct(D, S, p, r);
  }

  lemma FourProduct(D: nat, S: nat, p: nat, r: nat)
    ensures D * S * (p * r) == D * r * (S * p)
  {
    MulAssoc(D, S, p * r);
    MulAssoc(S, p, r);
    MulComm(S * p, r);
    MulAssoc(D, r, S * p);
  }

  lemma ScaledTimes(b: nat, S: nat, v: nat, k: int, p: nat)
    requires k >= -UNITS && Stands(b, S, v, k)
    ensures b * p * Pow(10, k + UNITS) == v * (S * p)
  {
    ProductSwap(b, p, Pow(10, k + UNITS), v, S);
    MulAssoc(v, p, S);
    MulComm(p, S);
  }

  /** The scaled problem and what it stands for. */
  ghost predicate Problem(b: nat, S: nat, mlo: nat, mhi: nat, v: nat, lo: nat, hi: nat, k: int)
  {
    && DecimalExponent(v, k) && S > 0 && hi > 0
    && Stands(b, S, v, k) && Stands(mlo, S, lo, k) && Stands(mhi, S, hi, k)
  }

  lemma InsideMeans(b: nat, S: nat, mlo: nat, mhi: nat, v: nat, lo: nat, hi: nat, k: int, incl: bool, i: nat, D: nat)
    requires Problem(b, S, mlo, mhi, v, lo, hi, k) && i > 0 && k + 1 - i >= -UNITS
    ensures Inside(b, S, mlo, mhi, incl, i, D) <==> Within(v, lo, hi, incl, Decimal(D, k + 1 - i))
  {
    var p, P := Pow(10, i - 1), Pow(10, k + UNITS);
    var W, x := S * p, Decimal(D, k + 1 - i);
    MulPositive(S, p);
    DigitPosition(D, k, i, S);
    ScaledTimes(b, S, v, k, p);
    ScaledTimes(mlo, S, lo, k, p);
    ScaledTimes(mhi, S, hi, k, p);
    Distribute(b * p, -(mlo * p), P);
    Distribute(b * p, mhi * p, P);
    Distribute(v, -(lo as int), W);
    Distribute(v, hi, W);
    Negate(mlo * p, P, lo, W);
    CompareScaled(b * p - mlo * p, D * S, P, v - lo, x, W);
    CompareScaled(D * S, b * p + mhi * p, P, x, v + hi, W);
  }

  lemma Negate(a: int, P: int, c: int, W: int)
    requires a * P == c * W
    ensures -a * P == -c * W
  {
    MulAssoc(-1, a, P);
    MulAssoc(-1, c, W);
  }

  lemma AbsTimes(x: int, P: nat, y: int, W: nat)
    requires x * P == y * W && P > 0 && W > 0
    ensures Abs(x) * P == Abs(y) * W
  {
    Negate(x, P, y, W);
    CompareScaled(x, 0, P, y, 0, W);
  }

  lemma GapMeans(b: nat, S: nat, v: nat, k: int, i: nat, D: nat)
    requires k >= -UNITS && S > 0 && Stands(b, S, v, k) && i > 0 && k + 1 - i >= -UNITS
    ensures Gap(b, S, i, D) * Pow(10, k + UNITS) == Distance(Decimal(D, k + 1 - i), v) * (S * Pow(10, i - 1))
  {
    var p, P := Pow(10, i - 1), Pow(10, k + UNITS);
    var W, x := S * p, Decimal(D, k + 1 - i);
    MulPositive(S, p);
    DigitPosition(D, k, i, S);
    ScaledTimes(b, S, v, k, p);
    Negate(b * p, P, v, W);
    Distribute(D * S, -(b * p), P);
    Distribute(x, -(v as int), W);
    AbsTimes(D * S - b * p, P, x - v, W);
  }

  lemma GapOrder(b: nat, S: nat, v: nat, k: int, i: nat, D: nat, E: nat)
    requires k >= -UNITS && S > 0 && Stands(b, S, v, k) && i > 0 && k + 1 - i >= -UNITS
    ensures Gap(b, S, i, D) <= Gap(b, S, i, E) <==>
      Distance(Decimal(D, k + 1 - i), v) <= Distance(Decimal(E, k + 1 - i), v)
  {
    GapMeans(b, S, v, k, i, D);
    GapMeans(b, S, v, k, i, E);
    MulPositive(S, Pow(10, i - 1));
    CompareScaled(Gap(b, S, i, D), Gap(b, S, i, E), Pow(10, k + UNITS),
                  Distance(Decimal(D, k + 1 - i), v), Distance(Decimal(E, k + 1 - i), v), S * Pow(10, i - 1));
  }

  /** Any decimal with at most j digits is a multiple of 10^(k+1-j) or below 10^k. */
  lemma AtPosition(d: nat, p: int, k: int, j: nat) returns (E: nat)
    requires p >= -UNITS && k >= -UNITS && k + 1 - j >= -UNITS && d < Pow(10, j)
    ensures Decimal(E, k + 1 - j) == Decimal(d, p) || Decimal(d, p) < Decimal(1, k)
  {
    if p >= k + 1 - j {
      E := d * Pow(10, p - (k + 1 - j));
      PowAdd(10, p - (k + 1 - j), k + 1 - j + UNITS);
      MulAssoc(d, Pow(10, p - (k + 1 - j)), Pow(10, k + 1 - j + UNITS));
    } else {
      E := 0;
      MulLt(d, Pow(10, j), Pow(10, p + UNITS));
      PowAdd(10, j, p + UNITS);
      PowMonotone(10, j + p + UNITS, k + UNITS);
    }
  }

  /** 10^k itself has one digit. */
  lemma PowerAtPosition(k: int, j: nat)
    requires j > 0 && k >= -UNITS && k + 1 - j >= -UNITS
    ensures Decimal(Pow(10, j - 1), k + 1 - j) == Decimal(1, k)
  {
    PowAdd(10, j - 1, k + 1 - j + UNITS);
  }

  /** A decimal of at most j digits inside the interval has one at position j inside and as near. */
  lemma OnGrid(d: nat, p: int, k: int, j: nat, v: nat, lo: nat, hi: nat, incl: bool) returns (E: nat)
    requires DecimalExponent(v, k) && hi > 0 && 0 < j <= 17 && p >= -UNITS && d < Pow(10, j)
    ensures Within(v, lo, hi, incl, Decimal(d, p)) ==>
      Within(v, lo, hi, incl, Decimal(E, k + 1 - j)) && Distance(Decimal(E, k + 1 - j), v) <= Distance(Decimal(d, p), v)
    ensures Decimal(E, k + 1 - j) == Decimal(d, p) || Distance(Decimal(E, k + 1 - j), v) < Distance(Decimal(d, p), v)
  {
    E := AtPosition(d, p, k, j);
    ghost var x := Decimal(d, p);
    if Decimal(E, k + 1 - j) != x {
      E := Pow(10, j - 1);
      PowerAtPosition(k, j);
      Between(v, lo, hi, incl, x, Decimal(1, k));
    }
  }

  lemma Between(v: nat, lo: nat, hi: nat, incl: bool, x: nat, y: nat)
    requires x < y <= v && hi > 0
    ensures Within(v, lo, hi, incl, x) ==> Within(v, lo, hi, incl, y) && Distance(y, v) <= Distance(x, v)
  {
  }

  /** With so few digits a decimal below the unit is far below every double. */
  lemma TinyOutside(v: nat, lo: nat, hi: nat, k: int, incl: bool, j: nat, d: nat, p: int)
    requires DecimalExponent(v, k) && 2 * lo <= v && j <= 17 && d < Pow(10, j) && p < -UNITS
    ensures !DecimalWithin(v, lo, hi, incl, d, p)
  {
    var q := Pow(10, -UNITS - p);
    PowMonotone(10, j, 17);
    PowMonotone(10, 18, k + UNITS);
    TenTimesMore(17);
    assert Decimal(1, k) == Pow(10, k + UNITS);
    hide Pow;
    FarBelow(v, lo, q, d);
  }

  lemma FarBelow(v: nat, lo: nat, q: nat, d: nat)
    requires 2 * lo <= v && 2 * d < v && q > 0
    ensures v * q - lo * q > d
  {
    Distribute(v - lo, lo, q);
    MulLe(1, q, v - lo);
  }

  lemma TenTimesMore(n: nat)
    ensures Pow(10, n + 1) == 10 * Pow(10, n)
  {
  }

  lemma ZeroOutside(v: nat, lo: nat, hi: nat, incl: bool, d: nat, p: int)
    requires 0 < v && 2 * lo <= v && d < Pow(10, 0)
    ensures !DecimalWithin(v, lo, hi, incl, d, p)
  {
    if p < -UNITS {
      var q := Pow(10, -UNITS - p);
      MulLt(lo, v, q);
    }
  }

  lemma NoneShorter(b: nat, S: nat, mlo: nat, mhi: nat, v: nat, lo: nat, hi: nat, k: int, incl: bool, j: nat, d: nat, p: int)
    requires Problem(b, S, mlo, mhi, v, lo, hi, k) && 0 < j <= 17
    requires forall E: nat :: !Inside(b, S, mlo, mhi, incl, j, E)
    requires 2 * lo <= v && d < Pow(10, j)
    ensures !DecimalWithin(v, lo, hi, incl, d, p)
  {
    if p < -UNITS {
      TinyOutside(v, lo, hi, k, incl, j, d, p);
      return;
    }
    var E := OnGrid(d, p, k, j, v, lo, hi, incl);
    InsideMeans(b, S, mlo, mhi, v, lo, hi, k, incl, j, E);
  }

  lemma NoneNearer(b: nat, S: nat, mlo: nat, mhi: nat, v: nat, lo: nat, hi: nat, k: int, incl: bool, n: nat, D: nat, d: nat, p: int)
    requires Problem(b, S, mlo, mhi, v, lo, hi, k) && 0 < n <= 17
    requires forall E: nat :: Inside(b, S, mlo, mhi, incl, n, E) ==> Gap(b, S, n, D) <= Gap(b, S, n, E)
    requires 2 * lo <= v && d < Pow(10, n) && DecimalWithin(v, lo, hi, incl, d, p)
    ensures p >= -UNITS && Distance(Decimal(D, k + 1 - n), v) <= Distance(Decimal(d, p), v)
  {
    if p < -UNITS {
      TinyOutside(v, lo, hi, k, incl, n, d, p);
    }
    var E := OnGrid(d, p, k, n, v, lo, hi, incl);
    InsideMeans(b, S, mlo, mhi, v, lo, hi, k, incl, n, E);
    GapOrder(b, S, v, k, n, D, E);
  }

  /** One that is as near stands on the same grid. */
  lemma TieIsEven(b: nat, S: nat, mlo: nat, mhi: nat, v: nat, lo: nat, hi: nat, k: int, incl: bool, n: nat, D: nat, d: nat, p: int)
    requires Problem(b, S, mlo, mhi, v, lo, hi, k) && 0 < n <= 17
    requires forall E: nat :: Inside(b, S, mlo, mhi, incl, n, E) ==> Gap(b, S, n, D) <= Gap(b, S, n, E)
    requires forall E: nat :: Inside(b, S, mlo, mhi, incl, n, E) && E != D && Gap(b, S, n, E) == Gap(b, S, n, D) ==> D % 2 == 0
    requires p >= -UNITS && d < Pow(10, n) && Within(v, lo, hi, incl, Decimal(d, p))
    requires Decimal(d, p) != Decimal(D, k + 1 - n) && Distance(Decimal(d, p), v) == Distance(Decimal(D, k + 1 - n), v)
    ensures D % 2 == 0
  {
    hide Decimal, Inside, Gap, Pow, Within, Distance;
    var E := OnGrid(d, p, k, n, v, lo, hi, incl);
    InsideMeans(b, S, mlo, mhi, v, lo, hi, k, incl, n, E);
    GapOrder(b, S, v, k, n, D, E);
    GapOrder(b, S, v, k, n, E, D);
  }

  /** The parity of the last digit, and of ten. */
  lemma EvenMeans(ds: seq<char>, up: nat, D: nat, x: nat, out: nat, v: nat)
    requires Canonical(ds) && up <= 1 && (up == 1 ==> ds == "1") && D == Dec(ds) * Pow(10, up) && D % 2 == 0
    requires up == 1 ==> x < out
    ensures Even(ds, x < out)
  {
    LastParity(ds);
    if up == 0 {
      assert Pow(10, 0) == 1;
    }
  }

  lemma TieInFree(b: nat, S: nat, mlo: nat, mhi: nat, v: nat, lo: nat, hi: nat, k: int, incl: bool, ds: seq<char>, up: nat,
                  D: nat, out: nat, d: nat, p: int)
    requires Problem(b, S, mlo, mhi, v, lo, hi, k) && |ds| <= 17 && Shortest(b, S, mlo, mhi, incl, ds, up)
    requires D == Dec(ds) * Pow(10, up) && out == Decimal(D, k + 1 - |ds|) && (up == 1 ==> out == Decimal(1, k + 1))
    requires d < Pow(10, |ds|) && AsNear(v, lo, hi, incl, out, d, p)
    ensures Even(ds, Decimal(d, p) < out)
  {
    ShortestTies(b, S, mlo, mhi, incl, ds, up, D);
    hide Decimal, Inside, Gap, Pow, Within, Dec, Distance, DecimalExponent, Shortest, Stands, Canonical;
    TieIsEven(b, S, mlo, mhi, v, lo, hi, k, incl, |ds|, D, d, p);
    if up == 1 {
      TenAbove(v, k, Decimal(d, p));
    }
    EvenMeans(ds, up, D, Decimal(d, p), out, v);
  }

  lemma ShortestTies(b: nat, S: nat, mlo: nat, mhi: nat, incl: bool, ds: seq<char>, up: nat, D: nat)
    requires Shortest(b, S, mlo, mhi, incl, ds, up) && D == Dec(ds) * Pow(10, up)
    ensures Canonical(ds) && |ds| > 0 && up <= 1 && (up == 1 ==> ds == "1")
    ensures forall E: nat :: Inside(b, S, mlo, mhi, incl, |ds|, E) ==> Gap(b, S, |ds|, D) <= Gap(b, S, |ds|, E)
    ensures forall E: nat ::
      Inside(b, S, mlo, mhi, incl, |ds|, E) && E != D && Gap(b, S, |ds|, E) == Gap(b, S, |ds|, D) ==> D % 2 == 0
  {
    hide Inside, Gap, Dec, Pow;
  }

  lemma OnlyOne(ds: seq<char>)
    requires ds == "1"
    ensures Dec(ds) == 1
  {
    assert ds[..0] == [];
  }

  /** Ten is above the value, and what is as near is below. */
  lemma TenAbove(v: nat, k: int, x: nat)
    requires DecimalExponent(v, k) && x != Decimal(1, k + 1) && Distance(x, v) == Distance(Decimal(1, k + 1), v)
    ensures x < Decimal(1, k + 1)
  {
    hide Decimal;
  }

  lemma FreeMeaning(b: nat, S: nat, mlo: nat, mhi: nat, v: nat, lo: nat, hi: nat, k: int, incl: bool, ds: seq<char>, up: nat)
    requires Problem(b, S, mlo, mhi, v, lo, hi, k) && 2 * lo <= v && |ds| <= 17
    requires Shortest(b, S, mlo, mhi, incl, ds, up)
    ensures ShortestDecimal(v, lo, hi, incl, ds, k + 1 + up)
  {
    var n := |ds|;
    var D := Dec(ds) * Pow(10, up);
    SameDecimal(Dec(ds), up, k + 1 - n);
    if up == 1 {
      OnlyOne(ds);
    }
    hide Pow, Within, Inside, Gap, Distance, Decimal, Dec, Stands, AsNear, DecimalWithin, Even;
    InsideMeans(b, S, mlo, mhi, v, lo, hi, k, incl, n, D);
    forall d: nat, p: int | d < Pow(10, n - 1) ensures !DecimalWithin(v, lo, hi, incl, d, p) {
      if n == 1 {
        ZeroOutside(v, lo, hi, incl, d, p);
      } else {
        NoneShorter(b, S, mlo, mhi, v, lo, hi, k, incl, n - 1, d, p);
      }
    }
    forall d: nat, p: int | d < Pow(10, n) && DecimalWithin(v, lo, hi, incl, d, p)
      ensures p >= -UNITS && Distance(Decimal(D, k + 1 - n), v) <= Distance(Decimal(d, p), v) {
      NoneNearer(b, S, mlo, mhi, v, lo, hi, k, incl, n, D, d, p);
    }
    forall d: nat, p: int | d < Pow(10, n) && AsNear(v, lo, hi, incl, Decimal(D, k + 1 - n), d, p)
      ensures Even(ds, Decimal(d, p) < Decimal(D, k + 1 - n)) {
      TieInFree(b, S, mlo, mhi, v, lo, hi, k, incl, ds, up, D, Decimal(D, k + 1 - n), d, p);
    }
  }

  lemma SameDecimal(d: nat, up: nat, p: int)
    requires p >= -UNITS
    ensures Decimal(d * Pow(10, up), p) == Decimal(d, p + up)
  {
    PowAdd(10, up, p + UNITS);
    MulAssoc(d, Pow(10, up), Pow(10, p + UNITS));
  }
}
