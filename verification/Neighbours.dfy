/** The doubles next to a double, and that a shortest decimal is nearer to its double than to any of them. */
module Neighbours {
  import opened Arith
  import opened Digits
  import opened Guarantees
  import opened Limbs
  import opened Scaling

  const TWO52: nat := 0x10_0000_0000_0000
  const TWO53: nat := 0x20_0000_0000_0000

  /** Significand and exponent of a finite double, zero among them. */
  predicate Finite(m: nat, e: int)
  {
    m < TWO53 && e >= -1074 && (m >= TWO52 || e == -1074)
  }

  /** The exponent of the unit below a double. */
  function Below(m: nat, e: int): int
  {
    if m == TWO52 && e > -1074 then e - 1 else e
  }

  lemma WordsFinite(word0: Limb, word1: Limb)
    requires BiasedExponent(word0) < 0x7FF
    ensures Finite(Significand(word0, word1), Exponent(word0))
    ensures PowerOfTwo(word0, word1) <==> Significand(word0, word1) == TWO52 && Exponent(word0) > -1074
  {
  }

  lemma BinaryTimes(m: nat, e: int)
    requires e >= -UNITS
    ensures Binary(m, e) == m * Binary(1, e)
  {
    MulAssoc(m, Pow2(e + UNITS), Pow(5, UNITS));
  }

  lemma BinaryOrder(a: nat, b: nat, e: int)
    requires e >= -UNITS
    ensures a <= b ==> Binary(a, e) <= Binary(b, e)
    ensures Binary(a, e) < Binary(b, e) ==> a < b && Binary(a, e) + Binary(1, e) <= Binary(b, e)
  {
    hide Binary;
    BinaryTimes(a, e);
    BinaryTimes(b, e);
    if a <= b {
      MulLe(a, b, Binary(1, e));
    } else {
      MulLe(b, a, Binary(1, e));
    }
    if a < b {
      MulLe(a + 1, b, Binary(1, e));
      Distribute(a, 1, Binary(1, e));
    }
  }

  /** The same number with a finer unit. */
  lemma Coarser(m: nat, e: int, f: int)
    requires -UNITS <= f <= e
    ensures Binary(m, e) == Binary(m * Pow2(e - f), f)
  {
    BinaryShift(m * Pow2(e - f), m, f, e - f);
  }

  /** A number in a finer binade stays below the coarser one by a unit of the binade between. */
  lemma Finer(m: nat, f: int, e: int)
    requires m < TWO53 && -UNITS <= f < e
    ensures Binary(m, f) + Binary(1, e - 1) <= Binary(TWO52, e)
  {
    hide Binary;
    var t := Pow2(e - 1 - f);
    Coarser(TWO52, e, e - 1);
    assert Pow2(1) == 2;
    Coarser(TWO53, e - 1, f);
    Coarser(TWO53 - 1, e - 1, f);
    MulLe(1, t, TWO53 - 1);
    BinaryOrder(m, (TWO53 - 1) * t, f);
    BinaryTimes(TWO53, e - 1);
    BinaryTimes(TWO53 - 1, e - 1);
    Distribute(TWO53 - 1, 1, Binary(1, e - 1));
  }

  /** The next double up is a unit away. */
  lemma UnitAbove(m: nat, e: int, n: nat, f: int)
    requires Finite(m, e) && Finite(n, f) && Binary(m, e) < Binary(n, f)
    ensures Binary(m, e) + Binary(1, e) <= Binary(n, f)
  {
    hide Binary;
    if e <= f {
      Coarser(n, f, e);
      BinaryOrder(m, n * Pow2(f - e), e);
    } else {
      Finer(n, f, e);
      BinaryOrder(TWO52, m, e);
      assert false;
    }
  }

  /** The next double down too, unless it lies in a finer binade. */
  lemma UnitBelow(m: nat, e: int, n: nat, f: int)
    requires Finite(m, e) && Finite(n, f) && Binary(n, f) < Binary(m, e)
    ensures Binary(n, f) + Binary(1, Below(m, e)) <= Binary(m, e)
  {
    hide Binary;
    HalfGap(1, e);
    if e <= f {
      Coarser(n, f, e);
      BinaryOrder(n * Pow2(f - e), m, e);
    } else {
      Finer(n, f, e);
      BinaryTimes(m, e);
      BinaryTimes(TWO52, e);
      MulLe(TWO52, m, Binary(1, e));
      if m > TWO52 {
        MulLe(TWO52 + 1, m, Binary(1, e));
        Distribute(TWO52, 1, Binary(1, e));
      }
    }
  }

  /** A double has one significand and one exponent. */
  lemma Unique(m: nat, e: int, n: nat, f: int)
    requires Finite(m, e) && Finite(n, f) && e <= f && Binary(m, e) == Binary(n, f)
    ensures m == n && e == f
  {
    hide Binary;
    Coarser(n, f, e);
    BinaryTimes(m, e);
    BinaryTimes(n * Pow2(f - e), e);
    UnitPositive(e);
    MulCancelEq(m, n * Pow2(f - e), Binary(1, e));
    if e < f {
      PowMonotone(2, 1, f - e);
      assert Pow2(1) == 2;
      MulLe(2, Pow2(f - e), n);
      assert false;
    }
    assert Pow2(0) == 1;
  }

  lemma UnitPositive(e: int)
    requires e >= -UNITS
    ensures Binary(1, e) > 0
  {
    MulPositive(Pow2(e + UNITS), Pow(5, UNITS));
  }

  /** The neighbours of a double with an even significand have odd ones. */
  lemma OddAbove(m: nat, e: int, n: nat, f: int)
    requires Finite(m, e) && Finite(n, f) && m % 2 == 0 && Binary(n, f) == Binary(m, e) + Binary(1, e)
    ensures n % 2 == 1
  {
    hide Binary;
    BinaryTimes(m, e);
    BinaryTimes(m + 1, e);
    Distribute(m, 1, Binary(1, e));
    if e <= f {
      Unique(m + 1, e, n, f);
    } else {
      Unique(n, f, m + 1, e);
    }
  }

  lemma OddBelow(m: nat, e: int, n: nat, f: int)
    requires Finite(m, e) && Finite(n, f) && m % 2 == 0
    requires Binary(n, f) + Binary(1, Below(m, e)) == Binary(m, e)
    ensures n % 2 == 1
  {
    hide Binary;
    var odd, g := m - 1, e;
    if m == TWO52 && e > -1074 {
      odd, g := TWO53 - 1, e - 1;
      HalfGap(m, e);
      BinaryTimes(TWO53, g);
    } else {
      BinaryTimes(m, e);
      UnitPositive(e);
      if m == 0 {
        assert false;
      }
    }
    BinaryTimes(odd, g);
    Distribute(odd, 1, Binary(1, g));
    if g <= f {
      Unique(odd, g, n, f);
    } else {
      Unique(n, f, odd, g);
    }
  }

  /** No other double lies within twice the gaps of one, and those just there have odd significands if it has an even one. */
  lemma GapsApart(word0: Limb, word1: Limb, w0: Limb, w1: Limb)
    requires BiasedExponent(word0) < 0x7FF && BiasedExponent(w0) < 0x7FF
    ensures var v, w := Magnitude(word0, word1), Magnitude(w0, w1);
      var up, down := v + 2 * UpperGap(word0), w + 2 * LowerGap(word0, word1);
      && (v == w || up <= w || down <= v)
      && (Significand(word0, word1) % 2 == 0 && (up == w || down == v) ==> Significand(w0, w1) % 2 == 1)
  {
    WordsFinite(word0, word1);
    WordsFinite(w0, w1);
    TwiceGaps(word0, word1);
    var m, e, n, f := Significand(word0, word1), Exponent(word0), Significand(w0, w1), Exponent(w0);
    hide Binary, Significand, Exponent, UpperGap, LowerGap, PowerOfTwo, Finite, BiasedExponent;
    Apart(m, e, n, f);
  }

  lemma TwiceGaps(word0: Limb, word1: Limb)
    requires BiasedExponent(word0) < 0x7FF
    ensures 2 * UpperGap(word0) == Binary(1, Exponent(word0))
    ensures 2 * LowerGap(word0, word1) == Binary(1, Below(Significand(word0, word1), Exponent(word0)))
  {
    WordsFinite(word0, word1);
    HalfGap(1, Exponent(word0));
    HalfGap(1, Exponent(word0) - 1);
    hide Binary, Significand, Exponent, BiasedExponent;
  }

  lemma Apart(m: nat, e: int, n: nat, f: int)
    requires Finite(m, e) && Finite(n, f)
    ensures var v, w := Binary(m, e), Binary(n, f);
      var up, down := v + Binary(1, e), w + Binary(1, Below(m, e));
      (v == w || up <= w || down <= v) && (m % 2 == 0 && (up == w || down == v) ==> n % 2 == 1)
  {
    hide Binary;
    if Binary(m, e) < Binary(n, f) {
      UnitAbove(m, e, n, f);
    } else if Binary(n, f) < Binary(m, e) {
      UnitBelow(m, e, n, f);
    }
    if m % 2 == 0 && Binary(m, e) + Binary(1, e) == Binary(n, f) {
      OddAbove(m, e, n, f);
    }
    if m % 2 == 0 && Binary(n, f) + Binary(1, Below(m, e)) == Binary(m, e) {
      OddBelow(m, e, n, f);
    }
  }

  /** Rounded to the nearest double, and to the even one of two, the decimal gives back the double. */
  ghost predicate Identifies(word0: Limb, word1: Limb, ds: seq<char>, decpt: int)
  {
    && AllDigits(ds) && decpt - |ds| >= -UNITS
    && forall w0: Limb, w1: Limb ::
        BiasedExponent(w0) < 0x7FF && Magnitude(w0, w1) != Magnitude(word0, word1) ==>
          Preferred(Decimal(Dec(ds), decpt - |ds|), word0, word1, w0, w1)
  }

  /** Of two doubles the first is nearer, or as near and even while the other is odd. */
  ghost predicate Preferred(out: nat, word0: Limb, word1: Limb, w0: Limb, w1: Limb)
  {
    var near, far := Distance(out, Magnitude(word0, word1)), Distance(out, Magnitude(w0, w1));
    near < far || (near == far && Significand(word0, word1) % 2 == 0 && Significand(w0, w1) % 2 == 1)
  }

  lemma ShortestIdentifies(word0: Limb, word1: Limb, incl: bool, ds: seq<char>, decpt: int)
    requires BiasedExponent(word0) < 0x7FF && (incl ==> Significand(word0, word1) % 2 == 0)
    requires ShortestDecimal(Magnitude(word0, word1), LowerGap(word0, word1), UpperGap(word0), incl, ds, decpt)
    ensures Identifies(word0, word1, ds, decpt)
  {
    hide Magnitude, LowerGap, UpperGap, Decimal;
    forall w0: Limb, w1: Limb | BiasedExponent(w0) < 0x7FF && Magnitude(w0, w1) != Magnitude(word0, word1)
      ensures Preferred(Decimal(Dec(ds), decpt - |ds|), word0, word1, w0, w1)
    {
      GapsApart(word0, word1, w0, w1);
    }
  }
}
