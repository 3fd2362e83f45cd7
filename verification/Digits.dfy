/**
 Decimal digit strings and the arithmetic of the two digit-generation loops of dtoa,
 stated on whole numbers: b / S is the scaled value, mlo / S and mhi / S the distances to
 the ends of its rounding interval.
 */
module Digits {
  import opened Arith

  predicate IsDigit(c: char)
  {
    '0' <= c <= '9'
  }

  function DigitOf(c: char): (d: nat)
    requires IsDigit(c)
    ensures d < 10
  {
    c as int - '0' as int
  }

  function DigitChar(d: nat): (c: char)
    requires d < 10
    ensures IsDigit(c) && DigitOf(c) == d
  {
    (d + '0' as int) as char
  }

  predicate AllDigits(s: seq<char>)
  {
    forall i :: 0 <= i < |s| ==> IsDigit(s[i])
  }

  /** The number a digit string denotes. */
  function Dec(s: seq<char>): nat
    requires AllDigits(s)
  {
    if s == [] then 0 else 10 * Dec(s[..|s| - 1]) + DigitOf(s[|s| - 1])
  }

  lemma DecAppend(s: seq<char>, c: char)
    requires AllDigits(s) && IsDigit(c)
    ensures AllDigits(s + [c]) && Dec(s + [c]) == 10 * Dec(s) + DigitOf(c)
  {
    assert (s + [c])[..|s|] == s;
  }

  lemma {:induction false} DecBound(s: seq<char>)
    requires AllDigits(s)
    ensures Dec(s) < Pow(10, |s|)
  {
    if s != [] {
      DecBound(s[..|s| - 1]);
    }
  }

  /** A leading nonzero digit fixes the magnitude. */
  lemma {:induction false} DecLower(s: seq<char>)
    requires AllDigits(s) && s != [] && s[0] != '0'
    ensures Dec(s) >= Pow(10, |s| - 1)
  {
    if |s| > 1 {
      DecLower(s[..|s| - 1]);
    } else {
      assert s[..0] == [];
    }
  }

  lemma {:induction false} DecConcat(s: seq<char>, t: seq<char>)
    requires AllDigits(s) && AllDigits(t)
    ensures AllDigits(s + t) && Dec(s + t) == Dec(s) * Pow(10, |t|) + Dec(t)
  {
    if t == [] {
      assert s + t == s;
    } else {
      var n := |t| - 1;
      DecConcat(s, t[..n]);
      assert (s + t)[..|s + t| - 1] == s + t[..n];
      MulAssoc(10, Dec(s), Pow(10, n));
      MulComm(10, Dec(s));
      MulAssoc(Dec(s), 10, Pow(10, n));
    }
  }

  /** What dtoa promises of its digits: no zeros at either end. */
  predicate Canonical(s: seq<char>)
  {
    s != [] && AllDigits(s) && s[0] != '0' && s[|s| - 1] != '0'
  }

  // ----- rounding to a given number of digits

  /** D is the whole number nearest to n / d, the even one of two that are equally near. */
  predicate HalfEven(n: nat, d: nat, D: nat)
  {
    && -(d as int) <= 2 * n - 2 * (D * d) <= d
    && (2 * n - 2 * (D * d) == d || 2 * n - 2 * (D * d) == -(d as int) ==> D % 2 == 0)
  }

  /** Rounding is a function: no number has two such neighbours. */
  lemma HalfEvenUnique(n: nat, d: nat, D: nat, E: nat)
    requires d > 0 && HalfEven(n, d, D) && HalfEven(n, d, E)
    ensures D == E
  {
    if D <= E {
      HalfEvenOrdered(n, d, D, E);
    } else {
      HalfEvenOrdered(n, d, E, D);
    }
  }

  lemma HalfEvenOrdered(n: nat, d: nat, D: nat, E: nat)
    requires d > 0 && HalfEven(n, d, D) && HalfEven(n, d, E) && D <= E
    ensures D == E
  {
    Distribute(E - D, D, d);
    MulCancelLe(E - D, 1, d);
  }

  /** The decimal ds * 10^(n - |ds| + up) is b * 10^(n-1) / S rounded half-even to a whole number. */
  ghost predicate RoundedTo(b: nat, S: nat, n: nat, ds: seq<char>, up: nat)
  {
    && Canonical(ds) && |ds| <= n && up <= 1
    && (up == 1 ==> ds == "1")
    && HalfEven(b * Pow(10, n - 1), S, Dec(ds) * Pow(10, n - |ds| + up))
  }

  /** State of the fixed-length loop after the digits ds: ds are the leading digits of b0 / S and
      b is what is left. */
  ghost predicate Leading(b0: nat, S: nat, ds: seq<char>, b: nat)
  {
    && AllDigits(ds) && ds != [] && ds[0] != '0'
    && b < S && b0 * Pow(10, |ds| - 1) == Dec(ds) * S + b
  }

  lemma LeadingFirst(b0: nat, S: nat, q: nat, b: nat)
    requires S <= b0 && b0 == S * q + b && b < S && q < 10
    ensures Leading(b0, S, [DigitChar(q)], b)
  {
    var ds := [DigitChar(q)];
    assert ds[..0] == [];
    assert q > 0 || S * q == 0;
    MulComm(S, q);
    assert Pow(10, 0) == 1;
  }

  lemma LeadingNext(b0: nat, S: nat, ds: seq<char>, b: nat, q: nat, b': nat)
    requires Leading(b0, S, ds, b)
    requires b * 10 == S * q + b' && b' < S && q < 10
    ensures Leading(b0, S, ds + [DigitChar(q)], b')
    ensures b > 0 && b' == 0 ==> q != 0
  {
    assert q == 0 ==> S * q == 0;
    var ds' := ds + [DigitChar(q)];
    DecAppend(ds, DigitChar(q));
    var p := Pow(10, |ds| - 1);
    assert Pow(10, |ds|) == 10 * p;
    calc {
      b0 * (10 * p);
      { MulComm(10, p); MulAssoc(b0, p, 10); }
      (b0 * p) * 10;
      (Dec(ds) * S + b) * 10;
      { Distribute(Dec(ds) * S, b, 10); MulComm(S, q); }
      Dec(ds) * S * 10 + q * S + b';
      { MulComm(Dec(ds) * S, 10); MulAssoc(10, Dec(ds), S); Distribute(10 * Dec(ds), q, S); }
      Dec(ds') * S + b';
    }
  }

  /** The decision at the last digit: up past the half, or at the half from an odd digit. */
  lemma RoundDecision(b0: nat, S: nat, ds: seq<char>, b: nat)
    requires Leading(b0, S, ds, b)
    ensures 2 * b > S || (2 * b == S && DigitOf(ds[|ds| - 1]) % 2 == 1) ==>
      HalfEven(b0 * Pow(10, |ds| - 1), S, Dec(ds) + 1)
    ensures !(2 * b > S || (2 * b == S && DigitOf(ds[|ds| - 1]) % 2 == 1)) ==>
      HalfEven(b0 * Pow(10, |ds| - 1), S, Dec(ds))
  {
    Distribute(Dec(ds), 1, S);
    assert Dec(ds) % 2 == DigitOf(ds[|ds| - 1]) % 2;
  }

  /** Scaling both sides by ten: an exact early end is still the rounding to n digits. */
  lemma ExactEnd(b0: nat, S: nat, ds: seq<char>, n: nat)
    requires Leading(b0, S, ds, 0) && |ds| <= n && S > 0
    ensures HalfEven(b0 * Pow(10, n - 1), S, Dec(ds) * Pow(10, n - |ds|))
  {
    var p, q := Pow(10, |ds| - 1), Pow(10, n - |ds|);
    PowAdd(10, |ds| - 1, n - |ds|);
    MulAssoc(b0, p, q);
    MulAssoc(Dec(ds), S, q);
    MulComm(S, q);
    MulAssoc(Dec(ds), q, S);
  }

  // ----- the shortest decimal inside the rounding interval

  /** The decimal D * 10^(1-i), i digits for D < 10^i, lies in the interval around b / S. */
  ghost predicate Inside(b: nat, S: nat, mlo: nat, mhi: nat, incl: bool, i: nat, D: nat)
    requires i > 0
  {
    var p := Pow(10, i - 1);
    if incl then b * p - mlo * p <= D * S <= b * p + mhi * p
    else b * p - mlo * p < D * S < b * p + mhi * p
  }

  function Abs(x: int): nat
  {
    if x < 0 then -x else x
  }

  function Gap(b: nat, S: nat, i: nat, D: nat): nat
    requires i > 0
  {
    Abs(D * S - b * Pow(10, i - 1))
  }

  /** ds * 10^up, read as a number of i = |ds| digits, is inside, no shorter decimal is, none of the same
      length is nearer, and if one is as near this one is even. */
  ghost predicate Shortest(b: nat, S: nat, mlo: nat, mhi: nat, incl: bool, ds: seq<char>, up: nat)
  {
    && Canonical(ds) && up <= 1 && (up == 1 ==> ds == "1")
    && var D := Dec(ds) * Pow(10, up);
    && Inside(b, S, mlo, mhi, incl, |ds|, D)
    && (forall j: nat, E: nat :: 0 < j < |ds| ==> !Inside(b, S, mlo, mhi, incl, j, E))
    && (forall E: nat :: Inside(b, S, mlo, mhi, incl, |ds|, E) ==> Gap(b, S, |ds|, D) <= Gap(b, S, |ds|, E))
    && (forall E: nat :: Inside(b, S, mlo, mhi, incl, |ds|, E) && E != D && Gap(b, S, |ds|, E) == Gap(b, S, |ds|, D) ==>
          D % 2 == 0)
  }

  /** The lower (upper) neighbour at the current digit lies in the interval; r is the remainder and
      lo, hi the scaled distances. */
  predicate LowIn(r: nat, lo: nat, incl: bool)
  {
    r < lo || (incl && r == lo)
  }

  predicate HighIn(S: nat, r: nat, hi: nat, incl: bool)
  {
    S - r < hi || (incl && S - r == hi)
  }

  /** State of the free-format loop when digit i = |ds| has been produced. */
  ghost predicate FreeState(b0: nat, S: nat, mlo0: nat, mhi0: nat, incl: bool, ds: seq<char>, r: nat, lo: nat, hi: nat)
  {
    && Leading(b0, S, ds, r)
    && lo == mlo0 * Pow(10, |ds| - 1) && hi == mhi0 * Pow(10, |ds| - 1)
    && forall j: nat, E: nat :: 0 < j < |ds| ==> !Inside(b0, S, mlo0, mhi0, incl, j, E)
  }

  /** Only the two neighbours matter: everything at or below the lower one is outside if it is, and
      everything at or above the upper one is outside if that is. */
  lemma InsideNeighbours(b0: nat, S: nat, mlo0: nat, mhi0: nat, incl: bool, ds: seq<char>, r: nat, lo: nat, hi: nat, E: nat)
    requires Leading(b0, S, ds, r)
    requires lo == mlo0 * Pow(10, |ds| - 1) && hi == mhi0 * Pow(10, |ds| - 1)
    ensures E <= Dec(ds) && Inside(b0, S, mlo0, mhi0, incl, |ds|, E) ==> LowIn(r, lo, incl)
    ensures E > Dec(ds) && Inside(b0, S, mlo0, mhi0, incl, |ds|, E) ==> HighIn(S, r, hi, incl)
    ensures E == Dec(ds) && LowIn(r, lo, incl) && hi > 0 ==> Inside(b0, S, mlo0, mhi0, incl, |ds|, E)
    ensures E == Dec(ds) + 1 && HighIn(S, r, hi, incl) && lo > 0 ==> Inside(b0, S, mlo0, mhi0, incl, |ds|, E)
    ensures E <= Dec(ds) ==> Gap(b0, S, |ds|, E) >= r
    ensures E > Dec(ds) ==> Gap(b0, S, |ds|, E) >= S - r
    ensures Gap(b0, S, |ds|, Dec(ds)) == r && Gap(b0, S, |ds|, Dec(ds) + 1) == S - r
    ensures E < Dec(ds) ==> Gap(b0, S, |ds|, E) >= S + r
    ensures E > Dec(ds) + 1 ==> Gap(b0, S, |ds|, E) > S
  {
    var D := Dec(ds);
    Distribute(D, 1, S);
    Distribute(D + 1, 1, S);
    Distribute(E, 1, S);
    if E <= D {
      MulLe(E, D, S);
      if E < D {
        MulLe(E + 1, D, S);
      }
    } else {
      MulLe(D + 1, E, S);
      if E > D + 1 {
        MulLe(D + 2, E, S);
      }
    }
  }

  /** When the lower neighbour is inside and not farther than the upper one, or alone, it is the answer. */
  lemma TakeLower(b0: nat, S: nat, mlo0: nat, mhi0: nat, incl: bool, ds: seq<char>, r: nat, lo: nat, hi: nat)
    requires FreeState(b0, S, mlo0, mhi0, incl, ds, r, lo, hi)
    requires LowIn(r, lo, incl) && hi > 0
    requires HighIn(S, r, hi, incl) ==> 2 * r <= S
    requires HighIn(S, r, hi, incl) && 2 * r == S ==> DigitOf(ds[|ds| - 1]) % 2 == 0
    requires ds[|ds| - 1] != '0'
    ensures Shortest(b0, S, mlo0, mhi0, incl, ds, 0)
  {
    var D := Dec(ds);
    assert Dec(ds) * Pow(10, 0) == D;
    InsideNeighbours(b0, S, mlo0, mhi0, incl, ds, r, lo, hi, D);
    LastParity(ds);
    hide Dec, Inside, Gap, Pow;
    forall E: nat | Inside(b0, S, mlo0, mhi0, incl, |ds|, E)
      ensures Gap(b0, S, |ds|, D) <= Gap(b0, S, |ds|, E)
      ensures E != D && Gap(b0, S, |ds|, E) == Gap(b0, S, |ds|, D) ==> D % 2 == 0
    {
      InsideNeighbours(b0, S, mlo0, mhi0, incl, ds, r, lo, hi, E);
    }
  }

  lemma LastParity(ds: seq<char>)
    requires AllDigits(ds) && ds != []
    ensures Dec(ds) % 2 == DigitOf(ds[|ds| - 1]) % 2
  {
  }

  /** The mirror image for the upper neighbour; a digit 9 can only round up at the first place. */
  lemma TakeUpper(b0: nat, S: nat, mlo0: nat, mhi0: nat, incl: bool, ds: seq<char>, r: nat, lo: nat, hi: nat,
                  out: seq<char>, up: nat)
    requires FreeState(b0, S, mlo0, mhi0, incl, ds, r, lo, hi)
    requires HighIn(S, r, hi, incl) && lo > 0
    requires LowIn(r, lo, incl) ==> S <= 2 * r
    requires LowIn(r, lo, incl) && 2 * r == S ==> DigitOf(ds[|ds| - 1]) % 2 == 1
    requires Canonical(out) && |out| == |ds| && Dec(out) * Pow(10, up) == Dec(ds) + 1
    requires up <= 1 && (up == 1 ==> out == "1")
    ensures Shortest(b0, S, mlo0, mhi0, incl, out, up)
  {
    var D := Dec(ds) + 1;
    hide Dec, Inside, Gap, Pow;
    LastParity(ds);
    InsideNeighbours(b0, S, mlo0, mhi0, incl, ds, r, lo, hi, D);
    forall E: nat | Inside(b0, S, mlo0, mhi0, incl, |ds|, E)
      ensures Gap(b0, S, |ds|, D) <= Gap(b0, S, |ds|, E)
      ensures E != D && Gap(b0, S, |ds|, E) == Gap(b0, S, |ds|, D) ==> D % 2 == 0
    {
      InsideNeighbours(b0, S, mlo0, mhi0, incl, ds, r, lo, hi, E);
    }
  }

  lemma BumpLast(s: seq<char>, t: seq<char>)
    requires AllDigits(s) && s != [] && s[|s| - 1] != '9' && |t| == |s|
    requires t[..|s| - 1] == s[..|s| - 1] && t[|s| - 1] == s[|s| - 1] + 1 as char
    ensures AllDigits(t) && Dec(t) == Dec(s) + 1 && t[|s| - 1] != '0'
  {
    var n := |s| - 1;
    forall i | 0 <= i < |t| ensures IsDigit(t[i]) {
      if i < n {
        assert t[i] == t[..n][i] == s[..n][i] == s[i];
      }
    }
  }

  /** Below 2^53 digits of relative precision, the seventeenth digit is always the last. */
  lemma SeventeenDigits(S: nat, lo0: nat, hi0: nat, n: nat, lo: nat, hi: nat)
    requires S < 0x20_0000_0000_0000 * (lo0 + hi0) && n > 0
    requires lo == lo0 * Pow(10, n - 1) && hi == hi0 * Pow(10, n - 1)
    requires lo + hi <= S
    ensures n <= 16
  {
    var p := Pow(10, n - 1);
    Distribute(lo0, hi0, p);
    MulComm(p, lo0 + hi0);
    MulCancelLt(p, 0x20_0000_0000_0000, lo0 + hi0);
    if n > 16 {
      PowMonotone(10, 16, n - 1);
      TenToSixteen();
      assert false;
    }
  }

  lemma TenToSixteen()
    ensures Pow(10, 16) == 10_000_000_000_000_000
  {
    assert Pow(10, 4) == 10_000;
    PowAdd(10, 4, 4);
    PowAdd(10, 8, 8);
  }

  /** A first digit 9 whose upper neighbour sits exactly on the end of the interval: the lower
      one is outside unless ten times S is b0 + mhi0 with mhi0 at least half of S. */
  lemma NineTie(b0: nat, S: nat, mlo0: nat, mhi0: nat, incl: bool, ds: seq<char>, r: nat, lo: nat, hi: nat)
    requires FreeState(b0, S, mlo0, mhi0, incl, ds, r, lo, hi) && lo <= hi
    requires |ds| == 1 && ds[0] == '9' && r + hi == S
    requires !(b0 + mhi0 == 10 * S && S <= 2 * mhi0)
    ensures r > lo
  {
    assert ds[..0] == [] && Pow(10, 0) == 1;
    assert Dec(ds) == 9;
  }

  /** The scaled problem of the free-format loop; its last conjunct rules out a tie that no double has. */
  ghost predicate FreeProblem(b0: nat, S: nat, mlo0: nat, mhi0: nat)
  {
    && 0 < S <= b0 < 10 * S
    && 0 < mlo0 <= mhi0 && S < 0x20_0000_0000_0000 * (mlo0 + mhi0)
    && !(b0 + mhi0 == 10 * S && S <= 2 * mhi0)
    && b0 % (2 * mhi0) == 0
  }

  /** The middle between two decimals is not half a gap away from the upper one, as the number is a whole number of gaps. */
  lemma NoMiddle(b0: nat, S: nat, mlo0: nat, mhi0: nat, incl: bool, ds: seq<char>, r: nat, lo: nat, hi: nat)
    requires FreeProblem(b0, S, mlo0, mhi0) && FreeState(b0, S, mlo0, mhi0, incl, ds, r, lo, hi)
    ensures !(2 * r == S && r == hi)
  {
    if 2 * r == S && r == hi {
      var m, p, D := b0 / (2 * mhi0), Pow(10, |ds| - 1), Dec(ds);
      hide Dec, Pow;
      DivModExact(b0, 2 * mhi0);
      WholeGaps(b0, m, mhi0, p, r, S);
      Distribute(m, -(D as int), S);
      MulAssoc(-1, D, S);
      NoHalf(m - D, S, r);
      assert false;
    }
  }

  lemma WholeGaps(b0: nat, m: nat, mhi0: nat, p: nat, r: nat, S: nat)
    requires b0 == m * (2 * mhi0) && r == mhi0 * p && 2 * r == S
    ensures b0 * p == m * S
  {
    MulAssoc(m, 2 * mhi0, p);
    MulAssoc(2, mhi0, p);
  }

  lemma NoHalf(q: int, S: nat, r: nat)
    requires q * S == r && r > 0
    ensures 2 * r != S
  {
    if q >= 1 {
      MulLe(1, q, S);
    } else {
      MulLe(q, 0, S);
    }
  }

  /** The loop's invariant in numbers: what is known at digit |ds| before it is decided upon. */
  ghost predicate FreeNumbers(b0: nat, S: nat, mlo0: nat, mhi0: nat, incl: bool, ds: seq<char>, r: nat, lo: nat, hi: nat)
  {
    && FreeProblem(b0, S, mlo0, mhi0)
    && FreeState(b0, S, mlo0, mhi0, incl, ds, r, lo, hi)
    && 0 < |ds| <= 17 && 0 < lo <= hi
    && (HighIn(S, r, hi, incl) && ds[|ds| - 1] == '9' ==> |ds| == 1)
    && (LowIn(r, lo, incl) ==> ds[|ds| - 1] != '0')
  }

  lemma FreeAdvance(b0: nat, S: nat, mlo0: nat, mhi0: nat, incl: bool, ds: seq<char>, r: nat, lo: nat, hi: nat, q: nat, r': nat)
    requires FreeState(b0, S, mlo0, mhi0, incl, ds, r, lo, hi)
    requires !LowIn(r, lo, incl) && !HighIn(S, r, hi, incl)
    requires r * 10 == S * q + r' && r' < S && q < 10
    ensures FreeState(b0, S, mlo0, mhi0, incl, ds + [DigitChar(q)], r', lo * 10, hi * 10)
    ensures HighIn(S, r', hi * 10, incl) ==> q != 9
    ensures LowIn(r', lo * 10, incl) ==> q != 0
  {
    LeadingNext(b0, S, ds, r, q, r');
    var p := Pow(10, |ds| - 1);
    MulAssoc(mlo0, p, 10);
    MulAssoc(mhi0, p, 10);
    var ds' := ds + [DigitChar(q)];
    forall j: nat, E: nat | 0 < j < |ds'| ensures !Inside(b0, S, mlo0, mhi0, incl, j, E) {
      if j == |ds| {
        InsideNeighbours(b0, S, mlo0, mhi0, incl, ds, r, lo, hi, E);
      }
    }
  }

  lemma FreeContinue(b0: nat, S: nat, mlo0: nat, mhi0: nat, incl: bool, ds: seq<char>, r: nat, lo: nat, hi: nat, q: nat, r': nat)
    requires FreeNumbers(b0, S, mlo0, mhi0, incl, ds, r, lo, hi)
    requires !LowIn(r, lo, incl) && !HighIn(S, r, hi, incl)
    requires r * 10 == S * q + r' && r' < S && q < 10
    ensures FreeNumbers(b0, S, mlo0, mhi0, incl, ds + [DigitChar(q)], r', lo * 10, hi * 10)
    ensures hi <= S
  {
    SeventeenDigits(S, mlo0, mhi0, |ds|, lo, hi);
    FreeAdvance(b0, S, mlo0, mhi0, incl, ds, r, lo, hi, q, r');
  }
}
