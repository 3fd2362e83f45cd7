/** The layout of numbers in g_fmt.c: digits and a decimal point become text. */
module Gfmt {
  import opened Arith
  import opened Digits

  // ----- decimal text

  /** A decimal number as it is written: sign, digits before and behind the point, and an exponent if there is one. */
  datatype Number = Number(negative: bool, whole: seq<char>, fraction: seq<char>, exponent: Exponent)

  datatype Exponent = NoExponent | Exponent(negative: bool, digits: seq<char>)

  predicate WellFormed(n: Number)
  {
    && AllDigits(n.whole) && n.whole != [] && AllDigits(n.fraction)
    && (n.exponent.Exponent? ==> AllDigits(n.exponent.digits) && |n.exponent.digits| >= 2)
  }

  function Written(n: Number): seq<char>
  {
    (if n.negative then "-" else "") + n.whole + (if n.fraction == [] then "" else "." + n.fraction) +
    match n.exponent
    case NoExponent => ""
    case Exponent(neg, digits) => "e" + (if neg then "-" else "+") + digits
  }

  /** It denotes Mantissa * 10^Scale, with its sign. */
  function Mantissa(n: Number): nat
    requires WellFormed(n)
  {
    Dec(n.whole + n.fraction)
  }

  function Scale(n: Number): int
    requires WellFormed(n)
  {
    (match n.exponent
     case NoExponent => 0
     case Exponent(neg, digits) => if neg then -(Dec(digits) as int) else Dec(digits)) - |n.fraction|
  }

  /** m * 10^e and n * 10^f are the same number. */
  ghost predicate Same(m: nat, e: int, n: nat, f: int)
  {
    if e >= f then m * Pow(10, e - f) == n else m == n * Pow(10, f - e)
  }

  // ----- the buffer

  method Put(b: array<char>, i: nat, c: char) returns (i': nat)
    requires i < b.Length
    modifies b
    ensures i' == i + 1 && b[..i'] == old(b[..i]) + [c]
  {
    b[i] := c;
    i' := i + 1;
  }

  /** The digits from p on, up to the NUL. */
  method PutDigits(b: array<char>, i: nat, s: seq<char>, p: nat) returns (i': nat)
    requires p < |s| && s[|s| - 1] == '\0' && AllDigits(s[..|s| - 1]) && i + |s| - 1 - p <= b.Length
    modifies b
    ensures i' == i + |s| - 1 - p && b[..i'] == old(b[..i]) + s[p..|s| - 1]
  {
    i' := i;
    var q := p;
    assert s[p..p] == [];
    while s[q] != '\0'
      invariant p <= q < |s| && i' == i + q - p && b[..i'] == old(b[..i]) + s[p..q]
      decreases |s| - q
    {
      assert s[p..q + 1] == s[p..q] + [s[q]];
      i' := Put(b, i', s[q]);
      q := q + 1;
    }
    OnlyNul(s, q);
  }

  lemma OnlyNul(s: seq<char>, q: nat)
    requires q < |s| && AllDigits(s[..|s| - 1]) && s[q] == '\0'
    ensures q == |s| - 1
  {
    if q < |s| - 1 {
      OneDigit(s, |s| - 1, q);
    }
  }

  lemma OneDigit(s: seq<char>, n: nat, q: nat)
    requires q < n <= |s| && AllDigits(s[..n])
    ensures s[q] != '\0'
  {
    assert s[..n][q] == s[q];
  }

  /** n zeros. */
  method PutZeros(b: array<char>, i: nat, n: nat) returns (i': nat)
    requires i + n <= b.Length
    modifies b
    ensures i' == i + n && b[..i'] == old(b[..i]) + Zeros(n)
  {
    i' := i;
    for k := 0 to n
      invariant i' == i + k && b[..i'] == old(b[..i]) + Zeros(k)
    {
      i' := Put(b, i', '0');
    }
  }

  function Zeros(n: nat): (s: seq<char>)
    ensures |s| == n && AllDigits(s)
  {
    if n == 0 then [] else Zeros(n - 1) + ['0']
  }

  lemma {:induction false} DecZeros(s: seq<char>, n: nat)
    requires AllDigits(s)
    ensures AllDigits(s + Zeros(n)) && Dec(s + Zeros(n)) == Dec(s) * Pow(10, n)
  {
    if n == 0 {
      assert s + [] == s;
    } else {
      DecZeros(s, n - 1);
      DecAppend(s + Zeros(n - 1), '0');
      assert s + Zeros(n) == s + Zeros(n - 1) + ['0'];
      MulAssoc(Dec(s), 10, Pow(10, n - 1));
      MulAssoc(10, Dec(s), Pow(10, n - 1));
      MulComm(10, Dec(s));
    }
  }

  lemma {:induction false} DecLeadingZeros(n: nat, s: seq<char>)
    requires AllDigits(s)
    ensures AllDigits(Zeros(n) + s) && Dec(Zeros(n) + s) == Dec(s)
  {
    DecConcat(Zeros(n), s);
    DecZeros([], n);
    assert [] + Zeros(n) == Zeros(n);
  }

  // ----- the exponent

  /** The digits of n, at least two of them. */
  lemma ExponentStep(cur: nat, k: nat, r: nat, q: nat, p: nat)
    requires cur == r * p && k == q * p && q > 0 && p > 0
    ensures k > 0 && cur / k == r / q && cur - (cur / k) * k == (r % q) * p
  {
    MulPositive(q, p);
    DivModExact(r, q);
    Distribute((r / q) * q, r % q, p);
    MulAssoc(r / q, q, p);
    MulLe(r % q + 1, q, p);
    Distribute(r % q, 1, p);
    DivUnique(cur, k, r / q, (r % q) * p);
  }

  /** The digits ds of e that are written, cur which holds the others, and the weights of the next ones. */
  ghost predicate ExponentInv(e: nat, J: nat, ds: seq<char>, cur: nat, r: nat)
  {
    && AllDigits(ds) && |ds| <= J && cur == r * Pow(10, |ds|)
    && e == Dec(ds) * Pow(10, J - |ds|) + r && r < Pow(10, J - |ds|)
  }

  lemma ExponentDigit(e: nat, J: nat, ds: seq<char>, cur: nat, r: nat, k: nat) returns (r': nat)
    requires ExponentInv(e, J, ds, cur, r) && |ds| < J && k == Pow(10, J - 1)
    ensures k > 0 && cur / k < 10
    ensures ExponentInv(e, J, ds + [DigitChar(cur / k)], (cur - (cur / k) * k) * 10, r')
  {
    var t := |ds|;
    var q, p := Pow(10, J - 1 - t), Pow(10, t);
    PowAdd(10, J - 1 - t, t);
    ExponentStep(cur, k, r, q, p);
    r' := r % q;
    var i := r / q;
    DivModExact(r, q);
    QuotientBelow(r, q);
    DecAppend(ds, DigitChar(i));
    hide Dec;
    assert Pow(10, J - t) == 10 * q && Pow(10, t + 1) == 10 * p;
    MulAssoc(10, Dec(ds), q);
    MulAssoc(Dec(ds), 10, q);
    MulComm(10, Dec(ds));
    Distribute(10 * Dec(ds), i, q);
    MulAssoc(r', p, 10);
    MulComm(p, 10);
  }

  lemma QuotientBelow(r: nat, q: nat)
    requires q > 0 && r < 10 * q
    ensures r / q < 10
  {
    DivModExact(r, q);
    if r / q >= 10 {
      MulLe(10, r / q, q);
    }
  }

  /** The exponent, in two digits or more. */
  method PutExponent(b: array<char>, i: nat, e: nat) returns (i': nat, ghost ds: seq<char>)
    requires e < 1000 && i + 3 <= b.Length
    modifies b
    ensures AllDigits(ds) && Dec(ds) == e && 2 <= |ds| <= 3 && (|ds| == 3 ==> e >= 100)
    ensures i' == i + |ds| && b[..i'] == old(b[..i]) + ds
  {
    hide Dec, Pow;
    var j, k := 2, 10;
    TenTo();
    while 10 * k <= e
      invariant (j == 2 && k == 10) || (j == 3 && k == 100 && e >= 100)
      decreases e - k
    {
      j, k := j + 1, k * 10;
    }
    ghost var J: nat, r: nat := j, e;
    ds, i' := [], i;
    var cur: nat := e;
    NothingYet(e);
    while true
      invariant 0 < j <= J <= 3 && |ds| == J - j && i' == i + |ds|
      invariant ExponentInv(e, J, ds, cur, r) && k == Pow(10, J - 1)
      invariant b[..i'] == old(b[..i]) + ds
      decreases j
    {
      r := ExponentDigit(e, J, ds, cur, r, k);
      var d := cur / k;
      i' := Put(b, i', DigitChar(d));
      ds := ds + [DigitChar(d)];
      j := j - 1;
      if j <= 0 {
        break;
      }
      cur := (cur - d * k) * 10;
    }
    TenTo();
  }

  lemma TenTo()
    ensures Pow(10, 0) == 1 && Pow(10, 1) == 10 && Pow(10, 2) == 100 && Pow(10, 3) == 1000
  {
  }

  lemma NothingYet(e: nat)
    ensures Dec([]) == 0
  {
  }

  // ----- the three layouts

  /** ds * 10^(decpt - |ds|) as 0.ds, as ds with a point or zeros, or with an exponent. */
  ghost function Layout(negative: bool, ds: seq<char>, decpt: int, precision: nat, digits: seq<char>): Number
    requires ds != []
  {
    if decpt <= -4 || decpt > precision then
      Number(negative, ds[..1], ds[1..], Exponent(decpt <= 0, digits))
    else if decpt <= 0 then Number(negative, "0", Zeros(-decpt) + ds, NoExponent)
    else if decpt < |ds| then Number(negative, ds[..decpt], ds[decpt..], NoExponent)
    else Number(negative, ds + Zeros(decpt - |ds|), [], NoExponent)
  }

  lemma Slices(ds: seq<char>, k: nat)
    requires AllDigits(ds) && k <= |ds|
    ensures AllDigits(ds[..k]) && AllDigits(ds[k..]) && ds[..k] + ds[k..] == ds
  {
  }

  lemma SameSelf(m: nat, e: int)
    ensures Same(m, e, m, e)
  {
    NoPower();
  }

  lemma ScientificDenotes(n: Number, ds: seq<char>, decpt: int)
    requires ds != [] && AllDigits(ds) && n.exponent.Exponent? && AllDigits(n.exponent.digits) && |n.exponent.digits| >= 2
    requires n.whole == ds[..1] && n.fraction == ds[1..] && n.exponent.negative == (decpt <= 0)
    requires Dec(n.exponent.digits) == if decpt <= 0 then 1 - decpt else decpt - 1
    ensures WellFormed(n) && Same(Mantissa(n), Scale(n), Dec(ds), decpt - |ds|)
  {
    hide Dec, Same;
    Slices(ds, 1);
    SameSelf(Dec(ds), decpt - |ds|);
  }

  lemma SmallDenotes(n: Number, ds: seq<char>, decpt: int)
    requires ds != [] && AllDigits(ds) && decpt <= 0
    requires n.whole == "0" && n.fraction == Zeros(-decpt) + ds && n.exponent.NoExponent?
    ensures WellFormed(n) && Same(Mantissa(n), Scale(n), Dec(ds), decpt - |ds|)
  {
    hide Dec, Same;
    DecLeadingZeros(-decpt, ds);
    DecLeadingZeros(1, Zeros(-decpt) + ds);
    OneZero();
    SameSelf(Dec(ds), decpt - |ds|);
    hide Zeros;
  }

  lemma OneZero()
    ensures Zeros(1) == "0"
  {
  }

  lemma PlainDenotes(n: Number, ds: seq<char>, decpt: int)
    requires ds != [] && AllDigits(ds) && 0 < decpt < |ds|
    requires n.whole == ds[..decpt] && n.fraction == ds[decpt..] && n.exponent.NoExponent?
    ensures WellFormed(n) && Same(Mantissa(n), Scale(n), Dec(ds), decpt - |ds|)
  {
    hide Dec, Same;
    Slices(ds, decpt);
    SameSelf(Dec(ds), decpt - |ds|);
  }

  lemma WholeDenotes(n: Number, ds: seq<char>, decpt: int)
    requires ds != [] && AllDigits(ds) && decpt >= |ds|
    requires n.whole == ds + Zeros(decpt - |ds|) && n.fraction == [] && n.exponent.NoExponent?
    ensures WellFormed(n) && Same(Mantissa(n), Scale(n), Dec(ds), decpt - |ds|)
  {
    hide Dec, Pow, Zeros;
    DecZeros(ds, decpt - |ds|);
    assert n.whole + [] == n.whole;
    NoPower();
  }

  predicate IsExponent(digits: seq<char>, decpt: int)
  {
    && AllDigits(digits) && 2 <= |digits| <= 3 && Dec(digits) == (if decpt <= 0 then 1 - decpt else decpt - 1)
    && (|digits| == 3 ==> Dec(digits) >= 100)
  }

  /**
   The layout: an exponent in two digits, or three where two are too few, for numbers below 10^-4 and those with more
   digits before the point than the precision; none otherwise, and then one zero before the point or as many digits as
   there are.
   */
  ghost predicate LaidOut(n: Number, ds: seq<char>, decpt: int, precision: nat)
    requires ds != []
  {
    if decpt <= -4 || decpt > precision then
      && n.whole == [ds[0]] && n.fraction == ds[1..] && n.exponent.Exponent? && (n.exponent.negative <==> decpt <= 0)
      && |n.exponent.digits| == if -99 <= decpt - 1 <= 99 then 2 else 3
    else
      && n.exponent.NoExponent?
      && if decpt <= 0 then n.whole == "0" && |n.fraction| == |ds| - decpt
         else |n.whole| == decpt && |n.fraction| == if |ds| > decpt then |ds| - decpt else 0
  }

  lemma LayoutIsLaidOut(negative: bool, ds: seq<char>, decpt: int, precision: nat, digits: seq<char>)
    requires ds != []
    requires decpt <= -4 || decpt > precision ==> IsExponent(digits, decpt) && -999 < decpt < 1000
    ensures LaidOut(Layout(negative, ds, decpt, precision, digits), ds, decpt, precision)
  {
    if decpt <= -4 || decpt > precision {
      DecBound(digits);
      TenTo();
    }
  }

  /** Each layout denotes the number it is made for. */
  lemma LayoutDenotes(negative: bool, ds: seq<char>, decpt: int, precision: nat, digits: seq<char>)
    requires ds != [] && AllDigits(ds)
    requires decpt <= -4 || decpt > precision ==> IsExponent(digits, decpt)
    ensures var n := Layout(negative, ds, decpt, precision, digits);
      WellFormed(n) && Same(Mantissa(n), Scale(n), Dec(ds), decpt - |ds|)
  {
    hide Dec, Same, WellFormed, Mantissa, Scale, AllDigits;
    var n := Layout(negative, ds, decpt, precision, digits);
    if decpt <= -4 || decpt > precision {
      ScientificDenotes(n, ds, decpt);
    } else if decpt <= 0 {
      SmallDenotes(n, ds, decpt);
    } else if decpt < |ds| {
      PlainDenotes(n, ds, decpt);
    } else {
      WholeDenotes(n, ds, decpt);
    }
  }

  lemma NoPower()
    ensures Pow(10, 0) == 1
  {
  }

  /** What stands in front of the exponent. */
  function Leading(ds: seq<char>): seq<char>
    requires ds != []
  {
    ds[..1] + if |ds| == 1 then "" else "." + ds[1..]
  }

  method PutLeading(b: array<char>, i: nat, s: seq<char>) returns (i': nat)
    requires |s| >= 2 && s[|s| - 1] == '\0' && AllDigits(s[..|s| - 1]) && i + |s| <= b.Length
    modifies b
    ensures i <= i' <= i + |s| && b[..i'] == old(b[..i]) + Leading(s[..|s| - 1])
  {
    ghost var ds := s[..|s| - 1];
    i' := Put(b, i, s[0]);
    assert ds[..1] == [s[0]];
    DigitIsNoNul(s);
    if s[1] != '\0' {
      i' := Put(b, i', '.');
      i' := PutDigits(b, i', s, 1);
      assert s[1..|s| - 1] == ds[1..];
    }
  }

  /** decpt <= -4 or beyond the precision: one digit, the others behind a point, and the exponent. */
  method PutScientific(b: array<char>, i: nat, s: seq<char>, decpt: int) returns (i': nat, ghost digits: seq<char>)
    requires |s| >= 2 && s[|s| - 1] == '\0' && AllDigits(s[..|s| - 1])
    requires -999 < decpt < 1000 && i + |s| + 5 <= b.Length
    modifies b
    ensures IsExponent(digits, decpt)
    ensures i <= i' <= i + |s| + 5
    ensures b[..i'] == old(b[..i]) + Leading(s[..|s| - 1]) + ("e" + (if decpt <= 0 then "-" else "+")) + digits
  {
    hide Dec, AllDigits, Leading;
    i' := PutLeading(b, i, s);
    ghost var b1 := b[..i'];
    i' := Put(b, i', 'e');
    var e := decpt - 1;
    if e < 0 {
      i' := Put(b, i', '-');
      e := -e;
    } else {
      i' := Put(b, i', '+');
    }
    assert b[..i'] == b1 + ("e" + if decpt <= 0 then "-" else "+");
    i', digits := PutExponent(b, i', e);
  }

  lemma DigitIsNoNul(s: seq<char>)
    requires |s| >= 2 && s[|s| - 1] == '\0' && AllDigits(s[..|s| - 1])
    ensures s[1] == '\0' <==> |s| == 2
  {
    if |s| > 2 {
      OneDigit(s, |s| - 1, 1);
    }
  }

  /** -4 < decpt <= 0: zeros behind the point, then the digits. */
  method PutSmall(b: array<char>, i: nat, s: seq<char>, decpt: int) returns (i': nat)
    requires |s| >= 2 && s[|s| - 1] == '\0' && AllDigits(s[..|s| - 1])
    requires decpt <= 0 && i + 2 - decpt + |s| <= b.Length
    modifies b
    ensures i' == i + 1 - decpt + |s| && b[..i'] == old(b[..i]) + "0." + (Zeros(-decpt) + s[..|s| - 1])
  {
    hide AllDigits, Zeros;
    ghost var b0 := b[..i];
    i' := Put(b, i, '0');
    i' := Put(b, i', '.');
    assert b[..i'] == b0 + "0.";
    i' := PutZeros(b, i', -decpt);
    i' := PutDigits(b, i', s, 0);
    assert s[0..|s| - 1] == s[..|s| - 1];
  }

  /** The first q digits, with the point behind the first d of them unless there are no more. */
  function Pointed(ds: seq<char>, d: nat, q: nat): seq<char>
    requires q <= |ds|
  {
    if q < d || d >= |ds| then ds[..q] else ds[..d] + "." + ds[d..q]
  }

  lemma PointedNext(ds: seq<char>, d: nat, q: nat)
    requires q < |ds| && d > 0
    ensures Pointed(ds, d, q + 1) ==
      Pointed(ds, d, q) + [ds[q]] + if q + 1 == d && q + 1 < |ds| then "." else ""
  {
    assert ds[..q + 1] == ds[..q] + [ds[q]];
    if d <= q && d < |ds| {
      assert ds[d..q + 1] == ds[d..q] + [ds[q]];
    }
  }

  /** 0 < decpt <= precision: the point between the digits, or zeros behind them. */
  method PutPlain(b: array<char>, i: nat, s: seq<char>, decpt0: nat) returns (i': nat)
    requires |s| >= 2 && s[|s| - 1] == '\0' && AllDigits(s[..|s| - 1])
    requires decpt0 > 0 && i + |s| + decpt0 <= b.Length
    modifies b
    ensures i <= i' && (decpt0 >= |s| - 1 ==> i' == i + decpt0) && (decpt0 < |s| - 1 ==> i' == i + |s|)
    ensures b[..i'] == old(b[..i]) + Pointed(s[..|s| - 1], decpt0, |s| - 1) +
                       Zeros(if decpt0 > |s| - 1 then decpt0 - (|s| - 1) else 0)
  {
    hide AllDigits, Zeros, Pointed;
    ghost var ds, b0 := s[..|s| - 1], b[..i];
    var q: nat, decpt: int := 0, decpt0;
    i' := i;
    NonePointed(ds, decpt0);
    while s[q] != '\0'
      invariant q < |s| && decpt == decpt0 - q && i' == i + |Pointed(ds, decpt0, q)| <= i + q + 1
      invariant b[..i'] == b0 + Pointed(ds, decpt0, q)
      decreases |s| - q
    {
      PointedNext(ds, decpt0, q);
      i' := Put(b, i', s[q]);
      NextNul(s, q + 1);
      PointedLength(ds, decpt0, q + 1);
      q := q + 1;
      decpt := decpt - 1;
      if decpt == 0 && s[q] != '\0' {
        i' := Put(b, i', '.');
      }
      assert b[..i'] == b0 + Pointed(ds, decpt0, q);
    }
    OnlyNul(s, q);
    PointedLength(ds, decpt0, q);
    i' := PutZeros(b, i', if decpt > 0 then decpt else 0);
  }

  lemma NonePointed(ds: seq<char>, d: nat)
    requires d > 0
    ensures Pointed(ds, d, 0) == []
  {
  }

  lemma PointedLength(ds: seq<char>, d: nat, q: nat)
    requires q <= |ds|
    ensures |Pointed(ds, d, q)| == if q < d || d >= |ds| then q else q + 1
  {
  }

  lemma NextNul(s: seq<char>, q: nat)
    requires q < |s| && s[|s| - 1] == '\0' && AllDigits(s[..|s| - 1])
    ensures s[q] == '\0' <==> q == |s| - 1
  {
    if q < |s| - 1 {
      OneDigit(s, |s| - 1, q);
    }
  }

  // ----- the whole text

  lemma ScientificText(negative: bool, ds: seq<char>, decpt: int, precision: nat, digits: seq<char>)
    requires ds != [] && (decpt <= -4 || decpt > precision)
    ensures Written(Layout(negative, ds, decpt, precision, digits)) ==
      (if negative then "-" else "") + Leading(ds) + ("e" + (if decpt <= 0 then "-" else "+")) + digits
  {
  }

  lemma SmallText(negative: bool, ds: seq<char>, decpt: int, precision: nat, digits: seq<char>)
    requires ds != [] && -4 < decpt <= 0
    ensures Written(Layout(negative, ds, decpt, precision, digits)) ==
      (if negative then "-" else "") + "0." + (Zeros(-decpt) + ds)
  {
    hide Zeros;
  }

  lemma PlainText(negative: bool, ds: seq<char>, decpt: int, precision: nat, digits: seq<char>)
    requires ds != [] && 0 < decpt <= precision
    ensures Written(Layout(negative, ds, decpt, precision, digits)) ==
      (if negative then "-" else "") + Pointed(ds, decpt, |ds|) + Zeros(if decpt > |ds| then decpt - |ds| else 0)
  {
    NoZeros();
    hide Zeros;
    assert decpt <= |ds| ==> ds[decpt..|ds|] == ds[decpt..];
  }

  lemma NoZeros()
    ensures Zeros(0) == []
  {
  }

  /** The branch of fpconv_g_fmt for the first layout: its text and what that denotes. */
  method FormatScientific(b: array<char>, i: nat, s: seq<char>, decpt: int, negative: bool, precision: nat)
    returns (i': nat, ghost n: Number)
    requires |s| >= 2 && s[|s| - 1] == '\0' && AllDigits(s[..|s| - 1])
    requires -999 < decpt < 1000 && (decpt <= -4 || decpt > precision) && i + |s| + 5 <= b.Length
    requires b[..i] == if negative then "-" else ""
    modifies b
    ensures i' <= i + |s| + 5 && b[..i'] == Written(n) && Denotes(n, negative, s[..|s| - 1], decpt)
    ensures LaidOut(n, s[..|s| - 1], decpt, precision)
  {
    hide Written, Layout, Leading, AllDigits, Dec, Same;
    ghost var digits;
    i', digits := PutScientific(b, i, s, decpt);
    n := Layout(negative, s[..|s| - 1], decpt, precision, digits);
    ScientificText(negative, s[..|s| - 1], decpt, precision, digits);
    LayoutDenotes(negative, s[..|s| - 1], decpt, precision, digits);
    LayoutSign(negative, s[..|s| - 1], decpt, precision, digits);
    LayoutIsLaidOut(negative, s[..|s| - 1], decpt, precision, digits);
  }

  /** The number n is that of the digits with their decimal point. */
  ghost predicate Denotes(n: Number, negative: bool, ds: seq<char>, decpt: int)
    requires AllDigits(ds)
  {
    n.negative == negative && WellFormed(n) && Same(Mantissa(n), Scale(n), Dec(ds), decpt - |ds|)
  }

  lemma LayoutSign(negative: bool, ds: seq<char>, decpt: int, precision: nat, digits: seq<char>)
    requires ds != []
    ensures Layout(negative, ds, decpt, precision, digits).negative == negative
  {
  }

  method FormatSmall(b: array<char>, i: nat, s: seq<char>, decpt: int, negative: bool, precision: nat)
    returns (i': nat, ghost n: Number)
    requires |s| >= 2 && s[|s| - 1] == '\0' && AllDigits(s[..|s| - 1])
    requires -4 < decpt <= 0 && i + 5 + |s| <= b.Length
    requires b[..i] == if negative then "-" else ""
    modifies b
    ensures i' <= i + 4 + |s| && b[..i'] == Written(n) && Denotes(n, negative, s[..|s| - 1], decpt)
    ensures LaidOut(n, s[..|s| - 1], decpt, precision)
  {
    hide Written, Layout, Zeros, AllDigits, Dec, Same;
    ghost var digits := [];
    i' := PutSmall(b, i, s, decpt);
    n := Layout(negative, s[..|s| - 1], decpt, precision, digits);
    SmallText(negative, s[..|s| - 1], decpt, precision, digits);
    LayoutDenotes(negative, s[..|s| - 1], decpt, precision, digits);
    LayoutSign(negative, s[..|s| - 1], decpt, precision, digits);
    LayoutIsLaidOut(negative, s[..|s| - 1], decpt, precision, digits);
  }

  method FormatPlain(b: array<char>, i: nat, s: seq<char>, decpt: nat, negative: bool, precision: nat)
    returns (i': nat, ghost n: Number)
    requires |s| >= 2 && s[|s| - 1] == '\0' && AllDigits(s[..|s| - 1])
    requires 0 < decpt <= precision && i + |s| + precision <= b.Length
    requires b[..i] == if negative then "-" else ""
    modifies b
    ensures i' <= i + |s| + precision && b[..i'] == Written(n) && Denotes(n, negative, s[..|s| - 1], decpt)
    ensures LaidOut(n, s[..|s| - 1], decpt, precision)
    ensures |s| - 1 <= precision ==> i' <= i + precision + 1
  {
    hide Written, Layout, Zeros, AllDigits, Dec, Same, Pointed;
    ghost var digits := [];
    i' := PutPlain(b, i, s, decpt);
    n := Layout(negative, s[..|s| - 1], decpt, precision, digits);
    PlainText(negative, s[..|s| - 1], decpt, precision, digits);
    LayoutDenotes(negative, s[..|s| - 1], decpt, precision, digits);
    LayoutSign(negative, s[..|s| - 1], decpt, precision, digits);
    LayoutIsLaidOut(negative, s[..|s| - 1], decpt, precision, digits);
  }

  /**
   fpconv_g_fmt behind dtoa: the text of digits with a decimal point, in at most 21 characters.
   Whichever layout it has, it denotes exactly the number of the digits.
   */
  method Format(b: array<char>, s: seq<char>, decpt: int, negative: bool, precision: nat)
    returns (len: nat, ghost n: Number)
    requires |s| >= 2 && s[|s| - 1] == '\0' && AllDigits(s[..|s| - 1])
    requires |s| - 1 <= precision <= 14 && -999 < decpt < 1000 && b.Length == 32
    modifies b
    ensures len <= 21 && b[..len] == Written(n) && b[len] == '\0'
    ensures Denotes(n, negative, s[..|s| - 1], decpt) && LaidOut(n, s[..|s| - 1], decpt, precision)
  {
    hide LaidOut, Denotes, Written, AllDigits;
    var i := 0;
    if negative {
      i := Put(b, 0, '-');
    }
    if decpt <= -4 || decpt > precision {
      len, n := FormatScientific(b, i, s, decpt, negative, precision);
    } else if decpt <= 0 {
      len, n := FormatSmall(b, i, s, decpt, negative, precision);
    } else {
      len, n := FormatPlain(b, i, s, decpt, negative, precision);
    }
    ghost var text := b[..len];
    b[len] := '\0';
    assert b[..len] == text;
  }
}
