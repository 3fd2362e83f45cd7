/**
 Doubles and decimals as whole numbers of 10^-1100, a unit small enough for all of them,
 and how the scaled numbers b, S, mlo and mhi of dtoa relate to these.
 */
module Scaling {
  import opened Arith
  import opened Limbs
  import opened Digits

  const UNITS: int := 1100

  /** The biased exponent and the 52 fraction bits of a double given as two words. */
  function BiasedExponent(word0: Limb): nat
  {
    (word0 / 0x10_0000) % 0x800
  }

  function Fraction(word0: Limb, word1: Limb): (f: nat)
    ensures f < 0x10_0000_0000_0000
  {
    (word0 % 0x10_0000) * 0x1_0000_0000 + word1
  }

  predicate FiniteNonzero(word0: Limb, word1: Limb)
  {
    BiasedExponent(word0) < 0x7FF && (BiasedExponent(word0) != 0 || Fraction(word0, word1) != 0)
  }

  /** The integer significand and the exponent of its unit: |d| is Significand * 2^Exponent. */
  function Significand(word0: Limb, word1: Limb): (m: nat)
    ensures m < 0x20_0000_0000_0000
    ensures FiniteNonzero(word0, word1) ==> m > 0
  {
    Fraction(word0, word1) + if BiasedExponent(word0) != 0 then 0x10_0000_0000_0000 else 0
  }

  function Exponent(word0: Limb): (e: int)
    ensures -1074 <= e <= 972
  {
    if BiasedExponent(word0) != 0 then BiasedExponent(word0) - 1075 else -1074
  }

  /** m * 2^e in units. */
  function Binary(m: nat, e: int): nat
    requires e >= -UNITS
  {
    m * Pow2(e + UNITS) * Pow(5, UNITS)
  }

  /** d * 10^p in units. */
  function Decimal(d: nat, p: int): nat
    requires p >= -UNITS
  {
    d * Pow(10, p + UNITS)
  }

  function Magnitude(word0: Limb, word1: Limb): nat
  {
    Binary(Significand(word0, word1), Exponent(word0))
  }

  /** A double by section 3.4 of IEEE 754-2008: sign, 11 bits of biased exponent and 52 bits of fraction in two words. */
  lemma FieldsOf(sign: nat, biased: nat, fraction: nat, word0: Limb, word1: Limb)
    requires sign < 2 && biased < 2048 && fraction < 0x10_0000_0000_0000
    requires word0 == sign * 0x8000_0000 + biased * 0x10_0000 + fraction / 0x1_0000_0000 && word1 == fraction % 0x1_0000_0000
    ensures BiasedExponent(word0) == biased && (word0 >= 0x8000_0000 <==> sign == 1)
    ensures FiniteNonzero(word0, word1) <==> biased < 2047 && (biased > 0 || fraction > 0)
    ensures biased == 0 ==> Magnitude(word0, word1) == Binary(fraction, -1074)
    ensures biased > 0 ==> Magnitude(word0, word1) == Binary(0x10_0000_0000_0000 + fraction, biased - 1075)
  {
    hide Binary;
    assert fraction / 0x1_0000_0000 < 0x10_0000;
    assert word0 / 0x10_0000 == sign * 2048 + biased;
  }

  /** The least significand of a binade whose lower neighbour lies in a finer one. */
  predicate PowerOfTwo(word0: Limb, word1: Limb)
  {
    Fraction(word0, word1) == 0 && BiasedExponent(word0) > 1
  }

  /** Half the distance to the next double up, and down. */
  function UpperGap(word0: Limb): nat
  {
    Binary(1, Exponent(word0) - 1)
  }

  function LowerGap(word0: Limb, word1: Limb): nat
  {
    Binary(1, if PowerOfTwo(word0, word1) then Exponent(word0) - 2 else Exponent(word0) - 1)
  }

  /** Trailing zero bits may move from the significand to the exponent. */
  lemma BinaryShift(m: nat, B: nat, e: int, t: nat)
    requires e >= -UNITS && m == B * Pow2(t)
    ensures Binary(m, e) == Binary(B, e + t)
  {
    PowAdd(2, t, e + UNITS);
    MulAssoc(B, Pow2(t), Pow2(e + UNITS));
  }

  /** What dtoa is told about k: the decimal exponent of v, or, when it is told to check, possibly
      one more. */
  ghost predicate Estimate(v: nat, k: int, check: bool)
  {
    && -400 <= k <= 400
    && v < Decimal(1, k + 1)
    && Decimal(1, if check then k - 1 else k) <= v
  }

  /** k is the decimal exponent of v. */
  ghost predicate DecimalExponent(v: nat, k: int)
  {
    -401 <= k <= 400 && Decimal(1, k) <= v < Decimal(1, k + 1)
  }

  // ----- scaled numbers

  /** x / S stands for v / 10^k. */
  ghost predicate Stands(x: nat, S: nat, v: nat, k: int)
    requires k >= -UNITS
  {
    x * Pow(10, k + UNITS) == v * S
  }

  /** The bookkeeping of b2, b5, s2, s5: their differences are all that matters. */
  lemma Exponents(B: nat, e: int, k: int, b2: nat, b5: nat, s2: nat, s5: nat)
    requires e >= -UNITS && k >= -UNITS
    requires b2 - s2 == e - k && b5 - s5 == -k
    ensures Stands(B * Pow(5, b5) * Pow2(b2), Pow(5, s5) * Pow2(s2), Binary(B, e), k)
  {
    var t := k + UNITS;
    PowProduct(2, 5, t);
    PowAdd(5, b5, t);
    PowAdd(2, b2, t);
    PowAdd(5, UNITS, s5);
    PowAdd(2, e + UNITS, s2);
    assert b5 + t == UNITS + s5 && b2 + t == e + UNITS + s2;
    Balance(B, Pow(5, b5), Pow2(b2), Pow2(t), Pow(5, t), Pow2(e + UNITS), Pow(5, UNITS), Pow(5, s5), Pow2(s2));
  }

  lemma Balance(x: nat, f: nat, g: nat, t2: nat, t5: nat, e2: nat, u5: nat, s5: nat, s2: nat)
    requires f * t5 == u5 * s5 && g * t2 == e2 * s2
    ensures x * f * g * (t2 * t5) == x * e2 * u5 * (s5 * s2)
  {
    Shuffle(x, f, g, t2, t5);
    Shuffle(x, u5, e2, s2, s5);
    MulComm(s2, s5);
    MulAssoc(x, u5, e2);
    MulAssoc(x, e2, u5);
    MulComm(u5, e2);
  }

  lemma Shuffle(x: nat, f: nat, g: nat, t2: nat, t5: nat)
    ensures x * f * g * (t2 * t5) == x * ((f * t5) * (g * t2))
  {
    calc {
      x * f * g * (t2 * t5);
      { MulAssoc(x * f, g, t2 * t5); MulAssoc(g, t2, t5); }
      x * f * ((g * t2) * t5);
      { MulComm(g * t2, t5); MulAssoc(x, f, t5 * (g * t2)); MulAssoc(f, t5, g * t2); }
      x * ((f * t5) * (g * t2));
    }
  }

  /** Ten times the numerator is one power of ten less. */
  lemma TenTimes(x: nat, S: nat, v: nat, k: int)
    requires k > -UNITS && Stands(x, S, v, k)
    ensures Stands(x * 10, S, v, k - 1)
  {
    MulAssoc(x, 10, Pow(10, k - 1 + UNITS));
  }

  /** A bound on the scaled number is a bound on what it stands for. */
  lemma StandsOrder(x: nat, S: nat, v: nat, k: int, c: nat)
    requires k >= -UNITS && Stands(x, S, v, k) && S > 0
    ensures c * S <= x <==> Decimal(c, k) <= v
    ensures x < c * S <==> v < Decimal(c, k)
  {
    var t := Pow(10, k + UNITS);
    ShuffleThree(c, S, t);
    if c * S <= x {
      MulLe(c * S, x, t);
      MulCancelLe(c * t, v, S);
    } else {
      MulLt(x, c * S, t);
      MulCancelLt(v, c * t, S);
    }
  }

  lemma ShuffleThree(c: nat, s: nat, t: nat)
    ensures c * s * t == c * t * s
  {
    MulAssoc(c, s, t);
    MulComm(s, t);
    MulAssoc(c, t, s);
  }

  /** Two scaled numbers over the same S are in the proportion of what they stand for. */
  lemma StandsMultiple(x: nat, y: nat, S: nat, v: nat, w: nat, k: int, c: nat)
    requires k >= -UNITS && Stands(x, S, v, k) && Stands(y, S, w, k) && v == c * w
    ensures x == c * y
  {
    var t := Pow(10, k + UNITS);
    MulAssoc(c, w, S);
    MulAssoc(c, y, t);
    MulCancelEq(x, c * y, t);
  }

  lemma StandsTwice(x: nat, S: nat, v: nat, k: int)
    requires k >= -UNITS && Stands(x, S, v, k)
    ensures Stands(2 * x, S, 2 * v, k)
  {
    MulAssoc(2, x, Pow(10, k + UNITS));
    MulAssoc(2, v, S);
  }

  lemma HalfGap(m: nat, e: int)
    requires e > -UNITS
    ensures Binary(m, e) == (2 * m) * Binary(1, e - 1)
    ensures Binary(1, e) == 2 * Binary(1, e - 1)
  {
    var t, f := Pow2(e - 1 + UNITS), Pow(5, UNITS);
    MulAssoc(m, 2, t);
    MulComm(m, 2);
    MulAssoc(2 * m, t, f);
  }

  // ----- the one tie that no double has

  lemma {:induction false} NoFive(n: nat)
    ensures Pow2(n) % 5 != 0
  {
    if n > 0 {
      NoFive(n - 1);
    }
  }

  lemma ManyFives(n: nat)
    requires n >= 2
    ensures Pow(5, n) % 25 == 0
  {
    PowAdd(5, 2, n - 2);
    assert Pow(5, 2) == 25;
  }

  predicate TwoFives(n: nat)
  {
    n % 25 == 0
  }

  /** With b = 2 m mhi, ten times S can only be b + mhi with mhi at least half of S for a tiny m,
      and then S would need a factor of five that it does not have. */
  lemma NoTie(m: nat, b: nat, S: nat, mhi: nat)
    requires b == 2 * m * mhi && mhi > 0
    requires m >= 10 || (TwoFives(mhi) && S % 5 != 0)
    ensures !(b + mhi == 10 * S && S <= 2 * mhi)
  {
    if b + mhi == 10 * S && S <= 2 * mhi {
      Distribute(2 * m, 1, mhi);
      MulCancelLe(2 * m + 1, 20, mhi);
      FiveDivides(2 * m + 1, mhi, S);
    }
  }

  lemma FiveDivides(c: nat, mhi: nat, S: nat)
    requires mhi % 25 == 0 && c * mhi == 10 * S
    ensures S % 5 == 0
  {
    var w := mhi / 25;
    MulAssoc(c, 25, w);
    MulComm(c, 25);
    MulAssoc(25, c, w);
    assert 25 * (c * w) == 10 * S;
  }

  /** The tiniest doubles are far below a hundredth. */
  lemma TinyIsSmall(m: nat, k: int)
    requires m < 10 && k > -UNITS && Decimal(1, k - 1) <= Binary(m, -1074)
    ensures k <= -2
  {
    if k > -2 {
      var f := Pow(5, 1098);
      PowMonotone(10, 1098, k - 1 + UNITS);
      PowProduct(2, 5, 1098);
      PowAdd(5, 2, 1098);
      PowMonotone(2, 40, 1098);
      PowAdd(2, 14, 26);
      assert Pow(5, 2) == 25;
      TinyBound(m, Pow2(26), f, Pow2(1098), Pow2(14));
      assert false;
    }
  }

  lemma TinyBound(m: nat, t: nat, f: nat, big: nat, c: nat)
    requires m < 10 && big >= c * t && c >= 251 && t > 0 && f > 0
    ensures m * t * (25 * f) < big * f
  {
    MulAssoc(m * t, 25, f);
    MulLe(m * 25, 250, t);
    MulAssoc(m, 25, t);
    MulAssoc(m, t, 25);
    MulComm(25, t);
    MulLt(250, 251, t);
    MulLe(251, c, t);
    MulLt(m * t * 25, big, f);
  }

  // ----- every finite nonzero double has a decimal exponent

  lemma FiveOverFour()
    ensures Pow(5, 401) >= Pow2(802)
  {
    PowMul(2, 2, 401);
    assert Pow(2, 2) == 4;
    PowBase(4, 5, 401);
  }

  lemma {:induction false} PowBase(a: nat, b: nat, e: nat)
    requires a <= b
    ensures Pow(a, e) <= Pow(b, e)
  {
    if e > 0 {
      PowBase(a, b, e - 1);
      MulLe(a, b, Pow(a, e - 1));
      MulLe(Pow(a, e - 1), Pow(b, e - 1), b);
    }
  }

  lemma SmallProduct(a: nat, p: nat, q: nat, m: nat, t: nat)
    requires a <= q && m > 0 && t > 0
    ensures a * p <= m * t * (p * q)
  {
    MulLe(a, q, p);
    MulComm(p, q);
    MulPositive(m, t);
    MulLe(1, m * t, p * q);
  }

  lemma LargeProduct(m: nat, c: nat, t: nat, a: nat, b: nat, q: nat, p: nat)
    requires m < c && t > 0 && c * t <= a * b && b <= q && p > 0
    ensures m * t * p < a * (p * q)
  {
    MulLt(m, c, t);
    MulLe(b, q, a);
    MulLt(m * t, a * q, p);
    MulAssoc(a, q, p);
    MulComm(p, q);
  }

  lemma TenPower(n: nat)
    ensures Pow(10, n) == Pow(2, n) * Pow(5, n)
  {
    PowProduct(2, 5, n);
  }

  lemma SmallestDouble(m: nat, e: int)
    requires m > 0 && e >= -1074
    ensures Decimal(1, -401) <= Binary(m, e)
  {
    hide Pow;
    FiveOverFour();
    PowAdd(5, 699, 401);
    TenPower(699);
    PowMonotone(2, 699, 802);
    SmallProduct(Pow(2, 699), Pow(5, 699), Pow(5, 401), m, Pow(2, e + UNITS));
  }

  lemma LargestDouble(m: nat, e: int)
    requires m < 0x20_0000_0000_0000 && -UNITS <= e <= 972
    ensures Binary(m, e) < Decimal(1, 401)
  {
    hide Pow;
    FiveOverFour();
    Fifty3();
    PowAdd(2, 53, e + UNITS);
    PowMonotone(2, 53 + (e + UNITS), 2303);
    PowAdd(2, 1501, 802);
    TenPower(1501);
    PowAdd(5, UNITS, 401);
    LargeProduct(m, Pow(2, 53), Pow(2, e + UNITS), Pow(2, 1501), Pow(2, 802), Pow(5, 401), Pow(5, UNITS));
  }

  lemma Fifty3()
    ensures Pow(2, 53) == 0x20_0000_0000_0000
  {
    assert Pow(2, 13) == 0x2000;
    assert Pow(2, 10) == 0x400;
    PowAdd(2, 10, 10);
    PowAdd(2, 20, 20);
    PowAdd(2, 40, 13);
  }

  lemma ExponentExists(word0: Limb, word1: Limb)
    requires FiniteNonzero(word0, word1)
    ensures exists k :: DecimalExponent(Magnitude(word0, word1), k)
  {
    var v := Magnitude(word0, word1);
    SmallestDouble(Significand(word0, word1), Exponent(word0));
    LargestDouble(Significand(word0, word1), Exponent(word0));
    hide Magnitude, Decimal;
    var k := -401;
    while v >= Decimal(1, k + 1)
      invariant -401 <= k <= 400 && Decimal(1, k) <= v < Decimal(1, 401)
      decreases 400 - k
    {
      k := k + 1;
    }
    assert DecimalExponent(v, k);
  }
}
