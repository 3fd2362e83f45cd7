/** dtoa for any double, and fpconv_g_fmt around it. */
module Fpconv {
  import opened Bignum
  import opened Digits
  import opened Dtoa
  import opened Gfmt
  import opened Guarantees
  import opened Limbs
  import opened Scaling

  predicate Special(word0: Limb)
  {
    BiasedExponent(word0) == 0x7FF
  }

  predicate Zero(word0: Limb, word1: Limb)
  {
    BiasedExponent(word0) == 0 && Fraction(word0, word1) == 0
  }

  predicate Infinite(word0: Limb, word1: Limb)
  {
    Special(word0) && Fraction(word0, word1) == 0
  }

  /** What dtoa returns for numbers that have no digits of their own. */
  function Name(word0: Limb, word1: Limb): string
  {
    if Infinite(word0, word1) then "inf" else if Special(word0) then "nan" else "0"
  }

  /** nrv_alloc */
  method Copied(t: string) returns (s: array<char>, n: nat)
    requires forall k :: 0 <= k < |t| ==> t[k] != '\0'
    ensures fresh(s) && n == |t| < s.Length && s[..n] == t && s[n] == '\0'
  {
    s, n := new char[|t| + 1], 0;
    while n < |t|
      invariant n <= |t| && s[..n] == t[..n]
    {
      s[n] := t[n];
      n := n + 1;
    }
    s[n] := '\0';
  }

  /** dtoa in mode 2, for every double; k and check are the estimate of the decimal exponent. */
  method AnyDtoa(h: Heap, word0: Limb, word1: Limb, ndigits: nat, k: int, check: bool)
    returns (sign: bool, s: array<char>, n: nat, decpt: int, ghost K: int)
    requires h.Valid() && ndigits > 0
    requires FiniteNonzero(word0, word1) ==> Estimate(Magnitude(word0, word1), k, check)
    modifies h, h.Nodes()`next
    ensures h.Valid() && h.outstanding == old(h.outstanding) && fresh(s)
    ensures sign <==> word0 >= 0x8000_0000
    ensures 0 < n < s.Length && s[n] == '\0'
    ensures FiniteNonzero(word0, word1) ==> CorrectlyRounded(Magnitude(word0, word1), K, ndigits, s[..n], decpt)
    ensures !FiniteNonzero(word0, word1) ==> s[..n] == Name(word0, word1) && decpt == if Special(word0) then 9999 else 1
  {
    hide CorrectlyRounded, Magnitude, Estimate;
    K := 0;
    if Special(word0) {
      sign, decpt := word0 >= 0x8000_0000, 9999;
      s, n := Copied(if Fraction(word0, word1) == 0 then "inf" else "nan");
    } else if Zero(word0, word1) {
      sign, decpt := word0 >= 0x8000_0000, 1;
      s, n := Copied("0");
    } else {
      sign, s, n, decpt, K := Dtoa.Dtoa(h, word0, word1, 2, ndigits, k, check);
    }
  }

  /** "inf" or "nan" into the buffer. */
  method PutName(b: array<char>, i: nat, t: seq<char>) returns (len: nat)
    requires i + |t| < b.Length
    modifies b
    ensures len == i + |t| && b[..len] == old(b[..i]) + t && b[len] == '\0'
  {
    len := i;
    for p := 0 to |t|
      invariant len == i + p && b[..len] == old(b[..i]) + t[..p]
    {
      len := Put(b, len, t[p]);
    }
    ghost var text := b[..len];
    b[len] := '\0';
    assert b[..len] == text;
  }

  /**
   fpconv_g_fmt: the text of a double in at most 21 characters. That of a finite number denotes, whichever
   layout it has, its value rounded half-even to so many significant digits.
   */
  method GFmt(h: Heap, b: array<char>, word0: Limb, word1: Limb, precision: nat, k: int, check: bool)
    returns (len: nat, ghost n: Number, ghost ds: seq<char>, ghost decpt: int, ghost K: int)
    requires h.Valid() && 0 < precision <= 14 && b.Length == 32
    requires FiniteNonzero(word0, word1) ==> Estimate(Magnitude(word0, word1), k, check)
    modifies h, h.Nodes()`next, b
    ensures h.Valid() && h.outstanding == old(h.outstanding)
    ensures len <= 21 && b[len] == '\0'
    ensures Special(word0) ==> b[..len] == (if word0 >= 0x8000_0000 then "-" else "") + Name(word0, word1)
    ensures !Special(word0) ==>
      b[..len] == Written(n) && AllDigits(ds) && ds != [] && Denotes(n, word0 >= 0x8000_0000, ds, decpt) &&
      LaidOut(n, ds, decpt, precision)
    ensures FiniteNonzero(word0, word1) ==> CorrectlyRounded(Magnitude(word0, word1), K, precision, ds, decpt)
    ensures Zero(word0, word1) ==> ds == "0" && decpt == 1
  {
    hide CorrectlyRounded, Magnitude, Estimate, Denotes, LaidOut, Written;
    var sign, s, m, decpt', K' := AnyDtoa(h, word0, word1, precision, k, check);
    K, ds, decpt := K', s[..m], decpt';
    n := Number(sign, ds, [], NoExponent);
    var t := s[..m + 1];
    assert t[..m] == ds && t[m] == '\0';
    if decpt' == 9999 {
      if FiniteNonzero(word0, word1) {
        InRange(Magnitude(word0, word1), K, precision, ds, decpt);
      }
      var i := 0;
      if sign {
        i := Put(b, 0, '-');
      }
      len := PutName(b, i, s[..m]);
      return;
    }
    if FiniteNonzero(word0, word1) {
      InRange(Magnitude(word0, word1), K, precision, ds, decpt);
    }
    len, n := Format(b, t, decpt', sign, precision);
  }

  lemma InRange(v: nat, K: int, precision: nat, ds: seq<char>, decpt: int)
    requires CorrectlyRounded(v, K, precision, ds, decpt)
    ensures -999 < decpt < 1000 && AllDigits(ds) && 0 < |ds| <= precision
  {
  }
}
