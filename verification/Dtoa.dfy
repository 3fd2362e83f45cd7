/**
 dtoa's bignum path: from the two words of a double to its decimal digits, in mode 2
 (correctly rounded to a given length) and in modes 0 and 1 (shortest).
 */
module Dtoa {
  import opened Arith
  import opened Limbs
  import opened Bignum
  import opened Digits
  import opened Guarantees
  import opened Neighbours
  import opened Scaling

  // ----- finishing the digit string

  lemma CarryNine(p: seq<char>, n: nat)
    requires AllDigits(p) && p != [] && p[|p| - 1] == '9' && |p| <= n
    ensures (Dec(p) + 1) * Pow(10, n - |p|) == (Dec(p[..|p| - 1]) + 1) * Pow(10, n - |p| + 1)
  {
    MulAssoc(Dec(p[..|p| - 1]) + 1, 10, Pow(10, n - |p|));
  }

  /** roundoff: add one unit in the last place, dropping the nines it carries through. */
  method RoundOff(s: array<char>, n: nat) returns (m: nat, up: nat)
    requires 0 < n <= s.Length && AllDigits(s[..n]) && s[0] != '0'
    modifies s
    ensures 0 < m <= n && Canonical(s[..m]) && up <= 1 && (up == 1 ==> m == 1 && s[..m] == "1")
    ensures Dec(s[..m]) * Pow(10, n - m + up) == Dec(old(s[..n])) + 1
    ensures s[n..] == old(s[n..])
  {
    m := n;
    ghost var d := s[..n];
    assert Pow(10, 0) == 1;
    while m > 0 && s[m - 1] == '9'
      invariant 0 <= m <= n && s[..] == old(s[..])
      invariant AllDigits(s[..m])
      invariant Dec(d) + 1 == (Dec(s[..m]) + 1) * Pow(10, n - m)
    {
      CarryNine(s[..m], n);
      assert s[..m][..m - 1] == s[..m - 1];
      m := m - 1;
    }
    if m == 0 {
      s[0] := '1';
      m, up := 1, 1;
      assert s[..1] == ['1'] && s[..1][..0] == [];
    } else {
      up := 0;
      ghost var p := s[..m];
      assert s[..m][..m - 1] == s[..m - 1];
      s[m - 1] := s[m - 1] + 1 as char;
      assert s[..m][..m - 1] == p[..m - 1];
      assert AllDigits(s[..m - 1]) && s[m - 1] != '0';
    }
  }

  lemma DropZero(p: seq<char>, n: nat)
    requires AllDigits(p) && p != [] && p[|p| - 1] == '0' && |p| <= n
    ensures Dec(p) * Pow(10, n - |p|) == Dec(p[..|p| - 1]) * Pow(10, n - |p| + 1)
  {
    MulAssoc(Dec(p[..|p| - 1]), 10, Pow(10, n - |p|));
  }

  /** trimzeros */
  method TrimZeros(s: array<char>, n: nat) returns (m: nat)
    requires 0 < n <= s.Length && AllDigits(s[..n]) && s[0] != '0'
    ensures 0 < m <= n && Canonical(s[..m])
    ensures Dec(s[..m]) * Pow(10, n - m) == Dec(s[..n])
  {
    m := n;
    assert Pow(10, 0) == 1;
    while s[m - 1] == '0'
      invariant 0 < m <= n && AllDigits(s[..m])
      invariant Dec(s[..m]) * Pow(10, n - m) == Dec(s[..n])
      decreases m
    {
      DropZero(s[..m], n);
      assert s[..m][..m - 1] == s[..m - 1];
      m := m - 1;
    }
  }

  // ----- mode 2

  /** S is shifted as quorem wants it. */
  ghost predicate Divisor(S: Bigint)
    reads S`live, S`wds, S.x
  {
    S.live && S.Good() && 0x800_0000 <= S.x[S.wds - 1] < 0x1000_0000
  }

  method IsZero(b: Bigint) returns (z: bool)
    requires b.Number()
    ensures z <==> b.V() == 0
  {
    z := b.x[0] == 0 && b.wds <= 1;
    if b.wds > 1 {
      NormalTop(b.x[..b.wds]);
    } else if b.wds == 1 {
      OneLimb(b.x[..1]);
    }
  }

  /** b := b * 10, then the next digit. */
  method NextDigit(h: Heap, b: Bigint, S: Bigint) returns (r: Bigint, q: nat)
    requires b.live && b.Good() && Divisor(S) && b != S && b.x != S.x
    requires b.V() < S.V()
    modifies h`outstanding, b`live, b`wds, b.x
    ensures r == b || (fresh(r) && fresh(r.x))
    ensures r.Number() && q < 10 && r.V() < S.V()
    ensures old(b.V()) * 10 == S.V() * q + r.V()
    ensures r.live && h.outstanding == old(h.outstanding)
  {
    r := h.Multadd(b, 10, 0);
    q := h.Quorem(r, S);
  }

  lemma PositiveIsGood(b: Bigint)
    requires b.Number() && b.V() > 0
    ensures b.Good()
  {
  }

  /** The first digit. */
  method FirstDigit(h: Heap, b: Bigint, S: Bigint, s: array<char>)
    requires b.live && b.Good() && Divisor(S) && b != S && b.x != S.x
    requires S.V() <= b.V() < 10 * S.V() && 0 < s.Length
    modifies b`wds, b.x, s
    ensures b.Number() && Leading(old(b.V()), S.V(), s[..1], b.V())
    ensures s[0] != '0'
  {
    ghost var b0 := b.V();
    var q := h.Quorem(b, S);
    LeadingFirst(b0, S.V(), q, b.V());
    s[0] := DigitChar(q);
    assert s[..1] == [DigitChar(q)];
  }

  /** One more digit behind s[..n]. */
  method MoreDigit(h: Heap, b: Bigint, S: Bigint, s: array<char>, n: nat, ghost b0: nat) returns (r: Bigint, ghost q: nat)
    requires b.live && b.Number() && b.V() > 0 && Divisor(S) && b != S && b.x != S.x
    requires n < s.Length && Leading(b0, S.V(), s[..n], b.V())
    modifies h`outstanding, b`live, b`wds, b.x, s
    ensures r == b || (fresh(r) && fresh(r.x))
    ensures r.Number() && r.live && h.outstanding == old(h.outstanding)
    ensures q < 10 && s[..n + 1] == old(s[..n]) + [DigitChar(q)] && old(b.V()) * 10 == S.V() * q + r.V()
    ensures Leading(b0, S.V(), s[..n + 1], r.V())
    ensures r.V() == 0 ==> s[n] != '0'
  {
    ghost var ds, v := s[..n], b.V();
    PositiveIsGood(b);
    var d;
    r, d := NextDigit(h, b, S);
    q := d;
    LeadingNext(b0, S.V(), ds, v, q, r.V());
    s[n] := DigitChar(d);
    assert s[..n + 1] == ds + [DigitChar(q)];
  }

  /** The digit loop of mode 2: until the remainder is zero or ilim digits are out. */
  method FixedLoop(h: Heap, b: Bigint, S: Bigint, ilim: nat, s: array<char>) returns (r: Bigint, n: nat)
    requires b.live && b.Good() && Divisor(S) && b != S && b.x != S.x
    requires S.V() <= b.V() < 10 * S.V()
    requires 0 < ilim < s.Length
    modifies h`outstanding, b`live, b`wds, b.x, s
    ensures r == b || (fresh(r) && fresh(r.x))
    ensures r.Number() && r.live && h.outstanding == old(h.outstanding)
    ensures 0 < n <= ilim && Leading(old(b.V()), S.V(), s[..n], r.V())
    ensures r.V() == 0 || n == ilim
    ensures r.V() == 0 ==> s[n - 1] != '0'
  {
    ghost var b0 := b.V();
    r, n := b, 1;
    FirstDigit(h, b, S, s);
    var zero := IsZero(r);
    while !zero && n < ilim
      invariant 0 < n <= ilim && r.Number() && zero == (r.V() == 0)
      invariant r == b || (fresh(r) && fresh(r.x))
      invariant r.live && h.outstanding == old(h.outstanding)
      invariant Leading(b0, S.V(), s[..n], r.V())
      invariant zero ==> s[n - 1] != '0'
    {
      ghost var q;
      r, q := MoreDigit(h, r, S, s, n, b0);
      n := n + 1;
      zero := IsZero(r);
    }
  }

  /** b = lshift(b, 1), compared with S. */
  method AgainstHalf(h: Heap, b: Bigint, S: Bigint) returns (r: Bigint, j: int)
    requires b.live && b.Number() && b.V() > 0 && S.live && S.Good() && b != S
    modifies h`outstanding, b`live
    ensures fresh(r) && fresh(r.x) && r.Number()
    ensures r.live && h.outstanding == old(h.outstanding)
    ensures (j < 0 <==> 2 * b.V() < S.V()) && (j == 0 <==> 2 * b.V() == S.V())
  {
    PositiveIsGood(b);
    assert Pow2(1) == 2;
    r := h.Lshift(b, 1);
    j := h.Cmp(r, S);
  }

  lemma RoundedFrom(b0: nat, S: nat, n: nat, ds: seq<char>, up: nat, D: nat)
    requires Canonical(ds) && 0 < |ds| <= n && up <= 1 && (up == 1 ==> ds == "1")
    requires HalfEven(b0 * Pow(10, n - 1), S, D) && Dec(ds) * Pow(10, n - |ds| + up) == D
    ensures RoundedTo(b0, S, n, ds, up)
  {
  }

  /** Round off the last digit of mode 2. */
  method RoundLast(h: Heap, b: Bigint, S: Bigint, s: array<char>, n: nat, ghost b0: nat)
    returns (r: Bigint, m: nat, up: nat)
    requires b.live && b.Number() && b.V() > 0 && S.live && S.Good() && b != S
    requires 0 < n <= s.Length && Leading(b0, S.V(), s[..n], b.V())
    modifies h`outstanding, b`live, s
    ensures fresh(r) && fresh(r.x)
    ensures r.Number() && r.live && h.outstanding == old(h.outstanding)
    ensures 0 < m <= n && RoundedTo(b0, S.V(), n, s[..m], up)
  {
    ghost var ds := s[..n];
    RoundDecision(b0, S.V(), ds, b.V());
    assert ds[n - 1] == s[n - 1] && ds[0] == s[0];
    var odd := DigitOf(s[n - 1]) % 2 == 1;
    var j;
    r, j := AgainstHalf(h, b, S);
    up := 0;
    if j > 0 || (j == 0 && odd) {
      m, up := RoundOff(s, n);
      RoundedFrom(b0, S.V(), n, s[..m], up, Dec(ds) + 1);
    } else {
      m := TrimZeros(s, n);
      RoundedFrom(b0, S.V(), n, s[..m], up, Dec(ds));
    }
  }

  /** Mode 2 from the scaled quotient on: ilim digits, rounded half-even, trailing zeros suppressed. */
  method FixedDigits(h: Heap, b: Bigint, S: Bigint, ilim: nat, s: array<char>) returns (r: Bigint, n: nat, up: nat)
    requires b.live && b.Good() && Divisor(S) && b != S && b.x != S.x
    requires S.V() <= b.V() < 10 * S.V()
    requires 0 < ilim < s.Length
    modifies h`outstanding, b`live, b`wds, b.x, s
    ensures r == b || (fresh(r) && fresh(r.x))
    ensures r.Number() && r.live && h.outstanding == old(h.outstanding)
    ensures 0 < n <= ilim && RoundedTo(old(b.V()), S.V(), ilim, s[..n], up)
  {
    ghost var b0 := b.V();
    r, n := FixedLoop(h, b, S, ilim, s);
    up := 0;
    var zero := IsZero(r);
    if zero {
      assert s[..n][n - 1] == s[n - 1];
      ExactEnd(b0, S.V(), s[..n], ilim);
    } else {
      r, n, up := RoundLast(h, r, S, s, n, b0);
    }
  }

  // ----- modes 0 and 1

  datatype Choice = Keep | Up | Continue

  /** The comparisons of one round: b against mlo, and b against S - mhi. A zero b without limbs
      compares below a zero difference. */
  method Margins(h: Heap, b: Bigint, S: Bigint, mlo: Bigint, mhi: Bigint) returns (j: int, j1: int)
    requires b.live && S.live && mlo.live && mhi.live
    requires b.Number() && S.Good() && mlo.Good() && mhi.Good() && b.V() < S.V()
    requires mlo.V() > 0 && mhi.V() > 0
    modifies h`outstanding
    ensures h.outstanding == old(h.outstanding)
    ensures (j < 0 <==> b.V() < mlo.V()) && (j == 0 <==> b.V() == mlo.V())
    ensures j1 > 0 <==> S.V() - b.V() < mhi.V()
    ensures j1 == 0 ==> S.V() - b.V() == mhi.V()
    ensures S.V() - b.V() == mhi.V() && b.V() > 0 ==> j1 == 0
  {
    j := h.Cmp(b, mlo);
    assert b.x[..0] == [];
    var delta := h.Diff(S, mhi);
    if delta.sign != 0 {
      j1 := 1;
    } else {
      j1 := h.Cmp(b, delta);
    }
    h.Bfree(delta);
  }

  /** What becomes of the current digit: which of the two neighbours is inside, and the nearer one of
      two. At a tie on the upper end with a nine it is taken for granted that the lower one is outside. */
  method Choose(h: Heap, b: Bigint, S: Bigint, mlo: Bigint, mhi: Bigint, dig: nat, incl: bool)
    returns (r: Bigint, c: Choice)
    requires b.live && S.live && mlo.live && mhi.live && b != S
    requires b.Number() && S.Good() && mlo.Good() && mhi.Good() && b.V() < S.V()
    requires 0 < mlo.V() <= mhi.V()
    requires dig == 9 && incl && b.V() + mhi.V() == S.V() ==> b.V() > mlo.V()
    requires !(2 * b.V() == S.V() && b.V() == mhi.V())
    modifies h`outstanding, b`live
    ensures r == b || (fresh(r) && fresh(r.x))
    ensures r.Number() && r.live && h.outstanding == old(h.outstanding)
    ensures c == Continue ==> r == b && !LowIn(b.V(), mlo.V(), incl) && !HighIn(S.V(), b.V(), mhi.V(), incl)
    ensures c == Keep ==> LowIn(b.V(), mlo.V(), incl) && (HighIn(S.V(), b.V(), mhi.V(), incl) ==> 2 * b.V() <= S.V())
    ensures c == Up ==> HighIn(S.V(), b.V(), mhi.V(), incl) && (LowIn(b.V(), mlo.V(), incl) ==> S.V() <= 2 * b.V())
    ensures c == Keep && HighIn(S.V(), b.V(), mhi.V(), incl) && 2 * b.V() == S.V() ==> dig % 2 == 0
    ensures c == Up && LowIn(b.V(), mlo.V(), incl) && 2 * b.V() == S.V() ==> dig % 2 == 1
  {
    r := b;
    var j, j1 := Margins(h, b, S, mlo, mhi);
    if j1 == 0 && incl {
      c := if dig == 9 || j > 0 then Up else Keep;
      return;
    }
    if j < 0 || (j == 0 && incl) {
      var zero := IsZero(b);
      c := Keep;
      if !zero && j1 > 0 {
        r, j1 := AgainstHalf(h, b, S);
        if j1 > 0 || (j1 == 0 && dig % 2 == 1) {
          c := Up;
        }
      }
      return;
    }
    c := if j1 > 0 then Up else Continue;
  }

  /** The upper neighbour: one more in the last place, or through a nine, which is then the only digit. */
  method EmitUpper(s: array<char>, n: nat, ghost b0: nat, ghost S: nat, ghost mlo0: nat, ghost mhi0: nat, ghost incl: bool,
                   ghost v: nat, ghost lo: nat, ghost hi: nat) returns (m: nat, up: nat)
    requires 0 < n <= s.Length
    requires FreeState(b0, S, mlo0, mhi0, incl, s[..n], v, lo, hi)
    requires HighIn(S, v, hi, incl) && lo > 0 && (LowIn(v, lo, incl) ==> S <= 2 * v)
    requires LowIn(v, lo, incl) && 2 * v == S ==> IsDigit(s[n - 1]) && DigitOf(s[n - 1]) % 2 == 1
    requires s[n - 1] == '9' ==> n == 1
    modifies s
    ensures 0 < m <= n && Shortest(b0, S, mlo0, mhi0, incl, s[..m], up)
  {
    ghost var ds := s[..n];
    assert ds[n - 1] == s[n - 1] && ds[0] == s[0];
    assert Pow(10, 0) == 1 && Pow(10, 1) == 10;
    if s[n - 1] == '9' {
      m, up := RoundOff(s, n);
      DecBound(s[..m]);
      DecBound(ds);
      OneNine(ds, s[..m], up);
    } else {
      m, up := n, 0;
      s[n - 1] := s[n - 1] + 1 as char;
      assert s[..n][..n - 1] == ds[..n - 1];
      BumpLast(ds, s[..n]);
      assert s[..n][0] != '0';
    }
    TakeUpper(b0, S, mlo0, mhi0, incl, ds, v, lo, hi, s[..m], up);
  }

  lemma OneNine(ds: seq<char>, t: seq<char>, up: nat)
    requires |ds| == 1 && AllDigits(ds) && ds[0] == '9'
    requires |t| == 1 && AllDigits(t) && up <= 1 && Dec(t) * Pow(10, up) == Dec(ds) + 1
    ensures Dec(ds) == 9
  {
    assert ds[..0] == [];
  }

  /** mlo and mhi times ten; they are one block unless the value is a power of two. */
  method TenfoldMargins(h: Heap, mlo: Bigint, mhi: Bigint) returns (lo: Bigint, hi: Bigint)
    requires mlo.live && mhi.live && mlo.Good() && mhi.Good()
    requires mlo == mhi || mlo.x != mhi.x
    modifies h`outstanding, mlo`live, mlo`wds, mlo.x, mhi`live, mhi`wds, mhi.x
    ensures lo == mlo || (fresh(lo) && fresh(lo.x))
    ensures hi == mhi || (fresh(hi) && fresh(hi.x))
    ensures (mlo == mhi && lo == hi) || (mlo != mhi && lo != hi && lo.x != hi.x)
    ensures lo.Good() && hi.Good()
    ensures lo.V() == old(mlo.V()) * 10 && hi.V() == old(mhi.V()) * 10
    ensures lo.live && hi.live && h.outstanding == old(h.outstanding)
  {
    if mlo == mhi {
      hi := h.Multadd(mhi, 10, 0);
      lo := hi;
    } else {
      lo := h.Multadd(mlo, 10, 0);
      hi := h.Multadd(mhi, 10, 0);
    }
  }

  /** The blocks of the free-format loop share no limbs, except that mlo may be mhi. */
  ghost predicate Separate(b: Bigint, S: Bigint, mlo: Bigint, mhi: Bigint)
  {
    && b != S && b != mlo && b != mhi && S != mlo && S != mhi
    && b.x != S.x && b.x != mlo.x && b.x != mhi.x && S.x != mlo.x && S.x != mhi.x
    && (mlo == mhi || mlo.x != mhi.x)
  }

  ghost predicate Owned(b: Bigint, S: Bigint, mlo: Bigint, mhi: Bigint)
    reads b`live, b`wds, b.x, S`live, S`wds, S.x, mlo`live, mlo`wds, mlo.x, mhi`live, mhi`wds, mhi.x
  {
    && b.live && mlo.live && mhi.live
    && b.Number() && Divisor(S) && mlo.Good() && mhi.Good()
    && Separate(b, S, mlo, mhi)
  }

  ghost predicate FreeInv(b: Bigint, S: Bigint, mlo: Bigint, mhi: Bigint, incl: bool, s: array<char>, n: nat,
                          b0: nat, mlo0: nat, mhi0: nat)
    reads b`live, b`wds, b.x, S`live, S`wds, S.x, mlo`live, mlo`wds, mlo.x, mhi`live, mhi`wds, mhi.x, s
  {
    && Owned(b, S, mlo, mhi) && n <= s.Length
    && 0 < n && mhi.V() > 0
    && FreeNumbers(b0, S.V(), mlo0, mhi0, incl, s[..n], b.V(), mlo.V(), mhi.V())
  }

  method StartFree(h: Heap, b: Bigint, S: Bigint, mlo: Bigint, mhi: Bigint, ghost incl: bool, s: array<char>)
    requires Owned(b, S, mlo, mhi) && b.Good()
    requires FreeProblem(b.V(), S.V(), mlo.V(), mhi.V()) && s.Length > 0
    modifies b`wds, b.x, s
    ensures FreeInv(b, S, mlo, mhi, incl, s, 1, old(b.V()), mlo.V(), mhi.V())
  {
    FirstDigit(h, b, S, s);
    assert Pow(10, 0) == 1;
  }

  /** One round of the loop that found neither neighbour inside. */
  method ContinueFree(h: Heap, b: Bigint, S: Bigint, mlo: Bigint, mhi: Bigint, ghost incl: bool, s: array<char>, n: nat,
                      ghost b0: nat, ghost mlo0: nat, ghost mhi0: nat)
    returns (r: Bigint, lo: Bigint, hi: Bigint)
    requires FreeInv(b, S, mlo, mhi, incl, s, n, b0, mlo0, mhi0)
    requires !LowIn(b.V(), mlo.V(), incl) && !HighIn(S.V(), b.V(), mhi.V(), incl)
    requires n < s.Length
    modifies h`outstanding, b`live, b`wds, b.x, mlo`live, mlo`wds, mlo.x, mhi`live, mhi`wds, mhi.x, s
    ensures FreeInv(r, S, lo, hi, incl, s, n + 1, b0, mlo0, mhi0)
    ensures hi.V() == 10 * old(mhi.V()) && old(mhi.V()) <= S.V() == old(S.V())
    ensures r == b || (fresh(r) && fresh(r.x))
    ensures (lo == mlo || (fresh(lo) && fresh(lo.x))) && (hi == mhi || (fresh(hi) && fresh(hi.x)))
    ensures lo == hi <==> mlo == mhi
    ensures r.live && lo.live && hi.live && h.outstanding == old(h.outstanding)
  {
    hide Val, Pow, Pow2, Dec, Canonical, Normal;
    ghost var v, lo0, hi0, ds := b.V(), mlo.V(), mhi.V(), s[..n];
    lo, hi := TenfoldMargins(h, mlo, mhi);
    ghost var q;
    r, q := MoreDigit(h, b, S, s, n, b0);
    FreeContinue(b0, S.V(), mlo0, mhi0, incl, ds, v, lo0, hi0, q, r.V());
  }

  lemma TieOutside(b0: nat, S: nat, mlo0: nat, mhi0: nat, incl: bool, ds: seq<char>, r: nat, lo: nat, hi: nat)
    requires FreeNumbers(b0, S, mlo0, mhi0, incl, ds, r, lo, hi)
    ensures ds[|ds| - 1] == '9' && incl && r + hi == S ==> r > lo
    ensures !(2 * r == S && r == hi)
  {
    NoMiddle(b0, S, mlo0, mhi0, incl, ds, r, lo, hi);
    if ds[|ds| - 1] == '9' && incl && r + hi == S {
      NineTie(b0, S, mlo0, mhi0, incl, ds, r, lo, hi);
    }
  }

  method EmitChoice(c: Choice, s: array<char>, n: nat, ghost b0: nat, ghost S: nat, ghost mlo0: nat, ghost mhi0: nat,
                    ghost incl: bool, ghost v: nat, ghost lo: nat, ghost hi: nat) returns (m: nat, up: nat)
    requires n <= s.Length && FreeNumbers(b0, S, mlo0, mhi0, incl, s[..n], v, lo, hi)
    requires c == Keep ==> LowIn(v, lo, incl) && (HighIn(S, v, hi, incl) ==> 2 * v <= S)
    requires c == Up ==> HighIn(S, v, hi, incl) && (LowIn(v, lo, incl) ==> S <= 2 * v)
    requires n > 0 && IsDigit(s[n - 1])
    requires c == Keep && HighIn(S, v, hi, incl) && 2 * v == S ==> DigitOf(s[n - 1]) % 2 == 0
    requires c == Up && LowIn(v, lo, incl) && 2 * v == S ==> DigitOf(s[n - 1]) % 2 == 1
    modifies s
    ensures c == Continue ==> m == n && s[..] == old(s[..])
    ensures c != Continue ==> 0 < m <= n && Shortest(b0, S, mlo0, mhi0, incl, s[..m], up)
  {
    assert s[..n][n - 1] == s[n - 1];
    m, up := n, 0;
    if c == Up {
      m, up := EmitUpper(s, n, b0, S, mlo0, mhi0, incl, v, lo, hi);
    } else if c == Keep {
      TakeLower(b0, S, mlo0, mhi0, incl, s[..n], v, lo, hi);
    }
  }

  /** Emit the digit chosen, if one was. */
  method StopFree(h: Heap, b: Bigint, S: Bigint, mlo: Bigint, mhi: Bigint, incl: bool, s: array<char>, n: nat,
                  ghost b0: nat, ghost mlo0: nat, ghost mhi0: nat)
    returns (r: Bigint, c: Choice, m: nat, up: nat)
    requires FreeInv(b, S, mlo, mhi, incl, s, n, b0, mlo0, mhi0)
    modifies h`outstanding, b`live, s
    ensures r == b || (fresh(r) && fresh(r.x))
    ensures r.Number() && r.live && h.outstanding == old(h.outstanding)
    ensures c == Continue ==> r == b && m == n && s[..] == old(s[..])
    ensures c == Continue ==> !LowIn(b.V(), mlo.V(), incl) && !HighIn(S.V(), b.V(), mhi.V(), incl)
    ensures c != Continue ==> 0 < m <= n && Shortest(b0, S.V(), mlo0, mhi0, incl, s[..m], up)
  {
    ghost var v := b.V();
    TieOutside(b0, S.V(), mlo0, mhi0, incl, s[..n], v, mlo.V(), mhi.V());
    assert s[..n][n - 1] == s[n - 1];
    r, c := Choose(h, b, S, mlo, mhi, DigitOf(s[n - 1]), incl);
    m, up := EmitChoice(c, s, n, b0, S.V(), mlo0, mhi0, incl, v, mlo.V(), mhi.V());
  }

  /** One pass through the loop: either the answer stands in s, or there is one more digit. */
  method FreeRound(h: Heap, b: Bigint, S: Bigint, mlo: Bigint, mhi: Bigint, incl: bool, s: array<char>, n: nat,
                   ghost b0: nat, ghost mlo0: nat, ghost mhi0: nat)
    returns (done: bool, r: Bigint, lo: Bigint, hi: Bigint, m: nat, up: nat)
    requires FreeInv(b, S, mlo, mhi, incl, s, n, b0, mlo0, mhi0) && s.Length >= 18
    modifies h`outstanding, b`live, b`wds, b.x, mlo`live, mlo`wds, mlo.x, mhi`live, mhi`wds, mhi.x, s
    ensures S.V() == old(S.V())
    ensures !done ==> FreeInv(r, S, lo, hi, incl, s, m, b0, mlo0, mhi0)
    ensures !done ==> hi.V() == 10 * old(mhi.V()) && old(mhi.V()) <= S.V()
    ensures done ==> 0 < m <= 17 && m <= s.Length && Shortest(b0, S.V(), mlo0, mhi0, incl, s[..m], up)
    ensures r == b || (fresh(r) && fresh(r.x))
    ensures (lo == mlo || (fresh(lo) && fresh(lo.x))) && (hi == mhi || (fresh(hi) && fresh(hi.x)))
    ensures (lo == hi <==> mlo == mhi) && r != lo && r != hi
    ensures r.live && lo.live && hi.live && h.outstanding == old(h.outstanding)
  {
    lo, hi := mlo, mhi;
    var c;
    r, c, m, up := StopFree(h, b, S, mlo, mhi, incl, s, n, b0, mlo0, mhi0);
    done := c != Continue;
    if !done {
      assert s[..n] == s[..][..n];
      r, lo, hi := ContinueFree(h, b, S, mlo, mhi, incl, s, n, b0, mlo0, mhi0);
      m := n + 1;
    }
  }

  /** Modes 0 and 1 from the scaled quotient on: digits until the interval around b / S is met. */
  method FreeDigits(h: Heap, b: Bigint, S: Bigint, mlo: Bigint, mhi: Bigint, incl: bool, s: array<char>)
    returns (r: Bigint, lo: Bigint, hi: Bigint, n: nat, up: nat)
    requires Owned(b, S, mlo, mhi) && b.Good()
    requires FreeProblem(b.V(), S.V(), mlo.V(), mhi.V()) && s.Length >= 18
    modifies h`outstanding, b`live, b`wds, b.x, mlo`live, mlo`wds, mlo.x, mhi`live, mhi`wds, mhi.x, s
    ensures r.live && lo.live && hi.live && h.outstanding == old(h.outstanding)
    ensures r != lo && r != hi && (lo == hi <==> mlo == mhi)
    ensures (r == b || fresh(r)) && (lo == mlo || fresh(lo)) && (hi == mhi || fresh(hi))
    ensures 0 < n <= 17
    ensures Shortest(old(b.V()), S.V(), old(mlo.V()), old(mhi.V()), incl, s[..n], up)
  {
    hide FreeNumbers, FreeProblem, Shortest;
    r, lo, hi, n, up := b, mlo, mhi, 1, 0;
    ghost var b0, mlo0, mhi0 := b.V(), mlo.V(), mhi.V();
    StartFree(h, b, S, mlo, mhi, incl, s);
    var done := false;
    while !done
      invariant S.Good() && S.V() == old(S.V())
      invariant !done ==> FreeInv(r, S, lo, hi, incl, s, n, b0, mlo0, mhi0)
      invariant done ==> 0 < n <= 17 && Shortest(b0, S.V(), mlo0, mhi0, incl, s[..n], up)
      invariant r.live && lo.live && hi.live && h.outstanding == old(h.outstanding)
      invariant r == b || (fresh(r) && fresh(r.x))
      invariant (lo == mlo || (fresh(lo) && fresh(lo.x))) && (hi == mhi || (fresh(hi) && fresh(hi.x)))
      invariant (lo == hi <==> mlo == mhi) && r != lo && r != hi
      decreases !done, if done then 0 else S.V() - hi.V()
    {
      done, r, lo, hi, n, up := FreeRound(h, r, S, lo, hi, incl, s, n, b0, mlo0, mhi0);
    }
  }

  // ----- from the words of a double to a scaled quotient

  lemma JoinProduct(z: nat, w: nat, y: nat, lo: nat, hi: nat, q: nat, r: nat)
    requires z == q * lo + r && w == y * lo && hi * lo == BASE
    ensures (y + r * hi + q * BASE) * lo == z * BASE + w
  {
    Distribute(y + r * hi, q * BASE, lo);
    Distribute(y, r * hi, lo);
    MulAssoc(r, hi, lo);
    MulAssoc(q, BASE, lo);
    MulComm(BASE, lo);
    MulAssoc(q, lo, BASE);
    Distribute(q * lo, r, BASE);
  }

  /** Both words shifted right by k, where the k low bits are zero. */
  lemma JoinWords(z: Limb, word1: Limb, y: nat, k: nat, lo: nat, hi: nat)
    requires k < 32 && word1 == y * lo && lo == Pow2(k) && hi == Pow2(32 - k)
    ensures y + (z * hi) % BASE < BASE && z / lo < BASE
    ensures (y + (z * hi) % BASE + (z / lo) * BASE) * lo == z * BASE + word1
  {
    PowSplit32(k);
    MulComm(lo, hi);
    ShiftWord(z, hi, lo);
    MulCancelLt(y, hi, lo);
    DivModExact(z, lo);
    MulLe(1, lo, z / lo);
    JoinProduct(z, word1, y, lo, hi, z / lo, z % lo);
  }

  /** The two limbs of the significand with their trailing zero bits gone. */
  method Significant(z: Limb, word1: Limb, x: array<Limb>) returns (wds: nat, k: nat)
    requires x.Length == 2 && (z > 0 || word1 > 0)
    modifies x
    ensures 0 < wds <= 2 && Normal(x[..wds]) && x[wds - 1] != 0
    ensures k < 64 && Val(x[..wds]) * Pow2(k) == z * BASE + word1
  {
    if word1 != 0 {
      var y;
      k, y := Lo0bits(word1);
      ghost var lo, hi := Pow2(k), Pow2(32 - k);
      JoinWords(z, word1, y, k, lo, hi);
      var z' := z;
      if k != 0 {
        x[0] := y + ShiftLeft(z, 32 - k);
        z' := ShiftRight(z, k);
      } else {
        x[0] := y;
      }
      x[1] := z';
      wds := if z' != 0 then 2 else 1;
      TwoLimbs(x[..2]);
      assert x[..2][..wds] == x[..wds];
    } else {
      var z';
      k, z' := Lo0bits(z);
      x[0] := z';
      wds := 1;
      OneLimb(x[..1]);
      PowAdd(2, k, 32);
      Pow2Of32();
      MulAssoc(z', Pow2(k), BASE);
      k := k + 32;
    }
  }

  lemma TwoLimbs(s: seq<Limb>)
    requires |s| == 2
    ensures Val(s) == s[0] + s[1] * BASE
    ensures s[1] == 0 ==> Val(s[..1]) == s[0]
  {
    OneLimb(s[..1]);
    assert Pow(BASE, 1) == BASE;
  }

  /** 32-bit shifts. */
  function ShiftLeft(x: Limb, k: nat): Limb
  {
    (x * Pow2(k)) % BASE
  }

  function ShiftRight(x: Limb, k: nat): (r: Limb)
  {
    MulLe(1, Pow2(k), x / Pow2(k));
    x / Pow2(k)
  }

  lemma NormalBits(B: nat, t: nat, m: nat)
    requires m == B * Pow2(t) && 0x10_0000_0000_0000 <= m < 0x20_0000_0000_0000
    ensures t <= 52 && Pow2(52 - t) <= B < Pow2(53 - t)
  {
    FiftyTwo();
    if t >= 53 {
      PowMonotone(2, 53, t);
      MulCancelLt(B, 1, Pow2(53)) by { MulLe(Pow2(53), Pow2(t), B); }
      assert false;
    }
    PowAdd(2, 52 - t, t);
    PowAdd(2, 53 - t, t);
    MulCancelLe(Pow2(52 - t), B, Pow2(t));
    MulCancelLt(B, Pow2(53 - t), Pow2(t));
  }

  lemma FiftyTwo()
    ensures Pow2(52) == 0x10_0000_0000_0000 && Pow2(53) == 0x20_0000_0000_0000
  {
    SmallPowers();
    Pow2Of32();
    PowAdd(2, 16, 4);
    PowAdd(2, 32, 20);
    PowAdd(2, 52, 1);
  }

  /** d2b's exponent and length of the number b, which lacks k trailing zero bits. */
  method BinaryExponent(b: Bigint, de: nat, k: nat, ghost m: nat) returns (be: int, bbits: int)
    requires b.Good() && b.V() > 0 && m == b.V() * Pow2(k)
    requires de != 0 ==> 0x10_0000_0000_0000 <= m < 0x20_0000_0000_0000
    ensures be == (if de != 0 then de - 1075 else -1074) + k
    ensures de != 0 ==> bbits == 53 - (k as int)
    ensures bbits > 0 && Pow2(bbits - 1) <= b.V() < Pow2(bbits)
  {
    var k1: int := k;
    if de != 0 {
      be := de - 1075 + k;
      bbits := 53 - k1;
      NormalBits(b.V(), k, m);
    } else {
      be := -1074 + k;
      PositiveTop(b.x[..b.wds]);
      var top := b.x[b.wds - 1];
      var hi := Hi0bits(top);
      bbits := 32 * b.wds - hi;
      BitLength(b.x[..b.wds], hi);
    }
  }

  /** The significand of a double without its trailing zero bits, with its exponent and length. */
  method D2b(h: Heap, word0: Limb, word1: Limb) returns (b: Bigint, be: int, bbits: int, ghost t: nat)
    requires FiniteNonzero(word0, word1)
    modifies h`outstanding
    ensures fresh(b) && fresh(b.x) && b.live && h.outstanding == old(h.outstanding) + 1
    ensures b.Good() && b.V() > 0
    ensures Significand(word0, word1) == b.V() * Pow2(t) && be == Exponent(word0) + t
    ensures BiasedExponent(word0) != 0 ==> bbits == 53 - (t as int)
    ensures bbits > 0 && Pow2(bbits - 1) <= b.V() < Pow2(bbits)
  {
    b := h.Balloc(1);
    assert Pow2(1) == 2;
    var de := word0 / 0x10_0000 % 0x800;
    var z: Limb := word0 % 0x10_0000 + (if de != 0 then 0x10_0000 else 0);
    var wds, k := Significant(z, word1, b.x);
    b.wds, t := wds, k;
    NormalTop(b.x[..wds]);
    be, bbits := BinaryExponent(b, de, k, Significand(word0, word1));
  }

  lemma ShiftResidue(w: int, hi: int, p2: int)
    ensures (32 * w - hi + p2 + (hi - 4 - p2) % 32) % 32 == 28
  {
    var i := (hi - 4 - p2) % 32;
    var q := (hi - 4 - p2) / 32;
    assert hi - 4 - p2 == 32 * q + i;
    assert 32 * w - hi + p2 + i == 32 * (w - q - 1) + 28;
  }

  /** The further shift that brings a number, shifted by p2, to four leading zero bits. L is its length. */
  method Dshift(b: Bigint, p2: nat) returns (i: nat, ghost L: nat)
    requires b.Good() && b.V() > 0
    ensures i < 32 && L > 0 && (L + p2 + i) % 32 == 28
    ensures Pow2(L - 1) <= b.V() < Pow2(L)
  {
    PositiveTop(b.x[..b.wds]);
    var top := b.x[b.wds - 1];
    var hi: int := Hi0bits(top);
    var rv := hi - 4;
    if p2 > 0 {
      rv := rv - p2;
    }
    i := rv % 32;
    L := 32 * b.wds - hi;
    ShiftResidue(b.wds, hi, p2);
    BitLength(b.x[..b.wds], hi);
  }

  lemma PositiveTop(s: seq<Limb>)
    requires Normal(s) && s != [] && Val(s) > 0
    ensures s[|s| - 1] > 0
  {
    if |s| == 1 {
      OneLimb(s);
    }
  }

  lemma ShiftedBits(v: nat, L: nat, k: nat)
    requires L > 0 && Pow2(L - 1) <= v < Pow2(L)
    ensures Pow2(L + k - 1) <= v * Pow2(k) < Pow2(L + k)
  {
    PowAdd(2, L - 1, k);
    PowAdd(2, L, k);
    MulLe(Pow2(L - 1), v, Pow2(k));
    MulLt(v, Pow2(L), Pow2(k));
  }

  /** lshift, where there is something to shift. */
  method ShiftBy(h: Heap, b: Bigint, k: nat) returns (r: Bigint)
    requires b.live && b.Good() && b.V() > 0
    modifies h`outstanding, b`live
    ensures r == b || (fresh(r) && fresh(r.x))
    ensures r.live && h.outstanding == old(h.outstanding)
    ensures r.Good() && r.V() == b.V() * Pow2(k)
  {
    r := b;
    if k > 0 {
      r := h.Lshift(b, k);
    }
  }

  /** S = 5^s5 * 2^(s2+i), where i is the shift that dshift finds to leave four leading zero bits. */
  method MakeDivisor(h: Heap, s5: nat, s2: nat) returns (S: Bigint, i: nat)
    requires h.Valid()
    modifies h, h.Nodes()`next
    ensures h.Valid()
    ensures forall p :: p in h.Nodes() ==> p in old(h.Nodes()) || (fresh(p) && fresh(p.x))
    ensures fresh(S) && fresh(S.x) && S.live && h.outstanding == old(h.outstanding) + 1 && h.Apart(S)
    ensures Divisor(S) && S.V() == Pow(5, s5) * Pow2(s2 + i) && i < 32
  {
    S := PowerOfFive(h, s5);
    ghost var L, v;
    i, L := Dshift(S, s2);
    v := S.V();
    ShiftedBits(v, L, s2 + i);
    S := ShiftBy(h, S, s2 + i);
    FourLeadingZeros(S.x[..S.wds], L + s2 + i);
  }

  method PowerOfFive(h: Heap, k: nat) returns (p: Bigint)
    requires h.Valid()
    modifies h, h.Nodes()`next
    ensures h.Valid()
    ensures forall p :: p in h.Nodes() ==> p in old(h.Nodes()) || (fresh(p) && fresh(p.x))
    ensures fresh(p) && fresh(p.x) && p.live && h.outstanding == old(h.outstanding) + 1 && h.Apart(p)
    ensures p.Good() && p.V() == Pow(5, k)
  {
    p := h.I2b(1);
    h.SameNodes();
    if k > 0 {
      p := h.Pow5mult(p, k);
    }
  }

  /** b2, b5, s2 and s5: the powers of two and five to put above and below. */
  method Powers(j: int, k: int) returns (b2: nat, b5: nat, s2: nat, s5: nat)
    ensures b2 - s2 == -j - k && b5 - s5 == -k
    ensures k >= 0 ==> b5 == 0
    ensures k < 0 ==> s5 == 0
  {
    if j >= 0 {
      b2, s2 := 0, j;
    } else {
      b2, s2 := -j, 0;
    }
    if k >= 0 {
      b5, s5, s2 := 0, k, s2 + k;
    } else {
      b2, b5, s5 := b2 - k, -k, 0;
    }
  }

  /** The binary exponent i of the double and from it j, the twos below: minus the exponent of b. */
  method TwosBelow(word0: Limb, be: int, bbits: int, ghost t: nat) returns (j: int)
    requires be == Exponent(word0) + t
    requires BiasedExponent(word0) != 0 ==> bbits == 53 - (t as int)
    ensures j == -be
  {
    var de := word0 / 0x10_0000 % 0x800;
    var i: int;
    if de != 0 {
      i := de - 1023;
    } else {
      i := bbits + be + (1023 + 52 - 1);
      i := i - ((1023 + 52 - 1) + 1);
    }
    j := bbits - i - 1;
  }

  /** b * 5^b5, if that is anything. */
  method TimesFives(h: Heap, b: Bigint, b5: nat) returns (r: Bigint)
    requires h.Valid() && h.Apart(b) && b.live && b.Good() && b.V() > 0
    modifies h, h.Nodes()`next, b`live, b`wds, b.x
    ensures h.Valid()
    ensures forall p :: p in h.Nodes() ==> p in old(h.Nodes()) || (fresh(p) && fresh(p.x))
    ensures r == b || (fresh(r) && fresh(r.x))
    ensures r.live && h.outstanding == old(h.outstanding) && h.Apart(r)
    ensures r.Good() && r.V() == old(b.V()) * Pow(5, b5) && r.V() > 0
  {
    r := b;
    if b5 > 0 {
      r := h.Pow5mult(b, b5);
    }
  }

  /** All powers of two, common ones removed: b2 above, s2 below, m2 over the half gap. */
  method Twos(word0: Limb, be: int, bbits: int, k: int, leftright: bool, ghost t: nat)
    returns (b2: nat, b5: nat, s2: nat, s5: nat, m2: nat)
    requires be == Exponent(word0) + t
    requires BiasedExponent(word0) != 0 ==> bbits == 53 - (t as int)
    ensures b2 - s2 == be - k && b5 - s5 == -k && m2 <= b2
    ensures k < 0 ==> s5 == 0
    ensures leftright ==> m2 - s2 == Exponent(word0) - 1 - k
  {
    var j := TwosBelow(word0, be, bbits, t);
    b2, b5, s2, s5 := Powers(j, k);
    m2 := b2;
    if leftright {
      var i: int;
      if word0 / 0x10_0000 % 0x800 == 0 {
        i := be + (1023 + 52 - 1 + 1);
      } else {
        i := 1 + 53 - bbits;
      }
      b2, s2 := b2 + i, s2 + i;
    }
    if m2 > 0 && s2 > 0 {
      var i := if m2 < s2 then m2 else s2;
      b2, m2, s2 := b2 - i, m2 - i, s2 - i;
    }
  }

  ghost function TimesPow2(x: nat, k: nat): nat
  {
    x * Pow2(k)
  }

  ghost function Product(B: nat, fives: nat, twos: nat): nat
  {
    B * Pow(5, fives) * Pow2(twos)
  }

  /** b * 2^(b2+i) over S = 5^s5 * 2^(s2+i), with i chosen for quorem. */
  method FinishQuotient(h: Heap, b0: Bigint, b2: nat, s2: nat, s5: nat) returns (b: Bigint, S: Bigint, i: nat)
    requires h.Valid() && h.Apart(b0) && b0.live && b0.Good() && b0.V() > 0
    modifies h, h.Nodes()`next, b0`live
    ensures h.Valid() && h.outstanding == old(h.outstanding) + 1
    ensures forall p :: p in h.Nodes() ==> p in old(h.Nodes()) || (fresh(p) && fresh(p.x))
    ensures b == b0 || (fresh(b) && fresh(b.x))
    ensures fresh(S) && fresh(S.x) && b != S && b.x != S.x && b.live && S.live
    ensures h.Apart(b) && h.Apart(S)
    ensures b.Good() && b.V() == b0.V() * Pow2(b2 + i) && b.V() > 0
    ensures Divisor(S) && S.V() == Product(1, s5, s2 + i)
  {
    S, i := MakeDivisor(h, s5, s2);
    MulPositive(b0.V(), Pow2(b2 + i));
    b := ShiftBy(h, b0, b2 + i);
  }

  lemma QuotientStands(m: nat, e: int, t: nat, B: nat, k: int, b2: nat, b5: nat, s2: nat, s5: nat, b1: nat, b: nat, S: nat)
    requires e >= -UNITS && k >= -UNITS && m == B * Pow2(t)
    requires b2 - s2 == e + t - k && b5 - s5 == -k
    requires b1 == B * Pow(5, b5) && b == b1 * Pow2(b2) && S == Product(1, s5, s2)
    ensures Stands(b, S, Binary(m, e), k)
  {
    BinaryShift(m, B, e, t);
    Exponents(B, e + t, k, b2, b5, s2, s5);
  }

  /** The numerator of mode 2 up to its power of two. */
  method FixedNumerator(h: Heap, word0: Limb, word1: Limb, k: int)
    returns (b: Bigint, b2: nat, s2: nat, s5: nat, ghost B: nat, ghost b5: nat, ghost t: nat)
    requires h.Valid() && FiniteNonzero(word0, word1)
    modifies h, h.Nodes()`next
    ensures h.Valid() && h.outstanding == old(h.outstanding) + 1
    ensures forall p :: p in h.Nodes() ==> p in old(h.Nodes()) || (fresh(p) && fresh(p.x))
    ensures fresh(b) && fresh(b.x) && b.live && h.Apart(b) && b.Good() && b.V() > 0
    ensures b.V() == B * Pow(5, b5) && Significand(word0, word1) == B * Pow2(t)
    ensures b2 - s2 == Exponent(word0) + t - k && b5 - s5 == -k
  {
    var be, bbits;
    b, be, bbits, t := D2b(h, word0, word1);
    B := b.V();
    var fives, m2;
    b2, fives, s2, s5, m2 := Twos(word0, be, bbits, k, false, t);
    b5 := fives;
    b := TimesFives(h, b, fives);
  }

  /** The numerator and the divisor of mode 2 for the estimate k. */
  method FixedScale(h: Heap, word0: Limb, word1: Limb, k: int) returns (b: Bigint, S: Bigint)
    requires h.Valid() && FiniteNonzero(word0, word1) && k >= -UNITS
    modifies h, h.Nodes()`next
    ensures h.Valid() && h.outstanding == old(h.outstanding) + 2
    ensures fresh(b) && fresh(b.x) && fresh(S) && fresh(S.x) && b != S && b.x != S.x && b.live && S.live
    ensures h.Apart(b) && h.Apart(S)
    ensures b.Good() && b.V() > 0 && Divisor(S) && Stands(b.V(), S.V(), Magnitude(word0, word1), k)
  {
    var b2, s2, s5, i;
    ghost var B, b5, t;
    b, b2, s2, s5, B, b5, t := FixedNumerator(h, word0, word1, k);
    ghost var b1 := b.V();
    b, S, i := FinishQuotient(h, b, b2, s2, s5);
    QuotientStands(Significand(word0, word1), Exponent(word0), t, B, k, b2 + i, b5, s2 + i, s5, b1, b.V(), S.V());
  }

  /** k_check: when b is below S after all, the estimate was one too large. */
  method CheckEstimate(h: Heap, b0: Bigint, S: Bigint, k0: int, check: bool, ghost v: nat) returns (b: Bigint, k: int)
    requires b0.live && b0.Good() && b0.V() > 0 && Divisor(S) && b0 != S && b0.x != S.x
    requires Estimate(v, k0, check) && Stands(b0.V(), S.V(), v, k0)
    modifies h`outstanding, b0`live, b0`wds, b0.x
    ensures b == b0 || (fresh(b) && fresh(b.x))
    ensures b.live && h.outstanding == old(h.outstanding)
    ensures b.Good() && S.V() <= b.V() < 10 * S.V()
    ensures DecimalExponent(v, k) && Stands(b.V(), S.V(), v, k)
    ensures k == k0 || (k == k0 - 1 && check)
    ensures k == k0 ==> b.V() == old(b0.V())
  {
    b, k := b0, k0;
    DivisorPositive(S);
    StandsOrder(b0.V(), S.V(), v, k, 1);
    StandsOrder(b0.V(), S.V(), v, k, 10);
    assert Decimal(10, k) == Decimal(1, k + 1);
    if check {
      var c := h.Cmp(b, S);
      if c < 0 {
        TenTimes(b0.V(), S.V(), v, k);
        k := k - 1;
        b := h.Multadd(b, 10, 0);
        StandsOrder(b.V(), S.V(), v, k, 1);
      }
    }
  }

  lemma DivisorPositive(S: Bigint)
    requires Divisor(S)
    ensures S.V() > 0
  {
    NormalTop(S.x[..S.wds]);
  }

  /** b and mhi times 5^b5, the latter shared: mhi = 5^b5 first, then b * mhi. */
  method ShareFives(h: Heap, b0: Bigint, b5: nat) returns (b: Bigint, mhi: Bigint)
    requires h.Valid() && h.Apart(b0) && b0.live && b0.Good() && b0.V() > 0
    modifies h, h.Nodes()`next, b0`live
    ensures h.Valid() && h.outstanding == old(h.outstanding) + 1
    ensures forall p :: p in h.Nodes() ==> p in old(h.Nodes()) || (fresh(p) && fresh(p.x))
    ensures b == b0 || (fresh(b) && fresh(b.x))
    ensures fresh(mhi) && fresh(mhi.x) && b != mhi && b.x != mhi.x && b.live && mhi.live
    ensures h.Apart(b) && h.Apart(mhi)
    ensures mhi.Good() && mhi.V() == Pow(5, b5)
    ensures b.Good() && b.V() == b0.V() * Pow(5, b5) && b.V() > 0
  {
    b := b0;
    mhi := PowerOfFive(h, b5);
    assert Pow(5, 0) == 1;
    if b5 > 0 {
      b := h.Mult(mhi, b0);
      MulPositive(b0.V(), Pow(5, b5));
      MulComm(b0.V(), Pow(5, b5));
      h.Bfree(b0);
    }
  }

  /** The numerator and the half gap of modes 0 and 1, up to their powers of two. */
  method FreeNumerator(h: Heap, word0: Limb, word1: Limb, k: int)
    returns (b: Bigint, mhi: Bigint, b2: nat, s2: nat, s5: nat, m2: nat, ghost B: nat, ghost b5: nat, ghost t: nat)
    requires h.Valid() && FiniteNonzero(word0, word1)
    modifies h, h.Nodes()`next
    ensures h.Valid() && h.outstanding == old(h.outstanding) + 2
    ensures forall p :: p in h.Nodes() ==> p in old(h.Nodes()) || (fresh(p) && fresh(p.x))
    ensures fresh(b) && fresh(b.x) && b.live && h.Apart(b) && b.Good() && b.V() > 0
    ensures fresh(mhi) && fresh(mhi.x) && mhi.live && h.Apart(mhi) && b != mhi && b.x != mhi.x
    ensures b.V() == B * Pow(5, b5) && Significand(word0, word1) == B * Pow2(t)
    ensures mhi.Good() && mhi.V() == Pow(5, b5)
    ensures b2 - s2 == Exponent(word0) + t - k && b5 - s5 == -k && m2 - s2 == Exponent(word0) - 1 - k
    ensures k < 0 ==> s5 == 0
  {
    var be, bbits;
    b, be, bbits, t := D2b(h, word0, word1);
    B := b.V();
    var fives;
    b2, fives, s2, s5, m2 := Twos(word0, be, bbits, k, true, t);
    b5 := fives;
    b, mhi := ShareFives(h, b, fives);
  }

  /** For the lower end of a binade everything but the lower half gap doubles. */
  predicate SpecialCase(word0: Limb, word1: Limb)
    ensures SpecialCase(word0, word1) <==> PowerOfTwo(word0, word1)
  {
    word1 == 0 && word0 % 0x10_0000 == 0 && word0 / 0x20_0000 % 0x400 != 0
  }

  lemma LowerGapStands(word0: Limb, word1: Limb, k: int, b5: nat, s5: nat, m2: nat, s2: nat)
    requires k >= -UNITS && b5 - s5 == -k
    requires m2 - s2 == Exponent(word0) - 1 - k - (if PowerOfTwo(word0, word1) then 1 else 0)
    ensures Stands(Product(1, b5, m2), Product(1, s5, s2), LowerGap(word0, word1), k)
  {
    Exponents(1, m2 - s2 + k, k, m2, b5, s2, s5);
  }

  /** b, S and 5^b5 with the shift m2 that makes it the lower half gap. */
  method FreeScale(h: Heap, word0: Limb, word1: Limb, k: int)
    returns (b: Bigint, S: Bigint, mhi: Bigint, m2: nat)
    requires h.Valid() && FiniteNonzero(word0, word1) && k >= -UNITS
    modifies h, h.Nodes()`next
    ensures h.Valid() && h.outstanding == old(h.outstanding) + 3
    ensures fresh(b) && fresh(b.x) && b.live && h.Apart(b) && b.Good() && b.V() > 0
    ensures fresh(S) && fresh(S.x) && S.live && h.Apart(S) && Divisor(S)
    ensures fresh(mhi) && fresh(mhi.x) && mhi.live && h.Apart(mhi) && mhi.Good() && mhi.V() > 0
    ensures b != mhi && b.x != mhi.x && b != S && b.x != S.x && S != mhi && S.x != mhi.x
    ensures Stands(b.V(), S.V(), Magnitude(word0, word1), k)
    ensures Stands(TimesPow2(mhi.V(), m2), S.V(), LowerGap(word0, word1), k)
    ensures k <= -2 ==> TwoFives(mhi.V()) && S.V() % 5 != 0
  {
    hide Stands, TimesPow2, Product, Magnitude, LowerGap, Pow, Pow2;
    var b2, s2, s5, i;
    ghost var B, b5, t;
    b, mhi, b2, s2, s5, m2, B, b5, t := FreeNumerator(h, word0, word1, k);
    if SpecialCase(word0, word1) {
      b2, s2 := b2 + 1, s2 + 1;
    }
    ghost var b1 := b.V();
    b, S, i := FinishQuotient(h, b, b2, s2, s5);
    m2 := m2 + i;
    FreeStands(word0, word1, B, t, k, b2 + i, b5, s2 + i, s5, m2, b1, b.V(), S.V(), mhi.V());
  }

  lemma FreeStands(word0: Limb, word1: Limb, B: nat, t: nat, k: int, b2: nat, b5: nat, s2: nat, s5: nat, m2: nat,
                   b1: nat, b: nat, S: nat, mhi: nat)
    requires k >= -UNITS && Significand(word0, word1) == B * Pow2(t)
    requires b2 - s2 == Exponent(word0) + t - k && b5 - s5 == -k
    requires m2 - s2 == Exponent(word0) - 1 - k - (if PowerOfTwo(word0, word1) then 1 else 0)
    requires k < 0 ==> s5 == 0
    requires b1 == B * Pow(5, b5) && b == b1 * Pow2(b2) && S == Product(1, s5, s2) && mhi == Pow(5, b5)
    ensures Stands(b, S, Magnitude(word0, word1), k)
    ensures Stands(TimesPow2(mhi, m2), S, LowerGap(word0, word1), k)
    ensures k <= -2 ==> TwoFives(mhi) && S % 5 != 0
  {
    QuotientStands(Significand(word0, word1), Exponent(word0), t, B, k, b2, b5, s2, s5, b1, b, S);
    LowerGapStands(word0, word1, k, b5, s5, m2, s2);
    if k <= -2 {
      ManyFives(b5);
      NoFive(s2);
      assert Pow(5, 0) == 1;
    }
  }

  lemma TenfoldTimes(x: nat, m2: nat, S: nat, v: nat, k: int)
    requires k > -UNITS && Stands(TimesPow2(x, m2), S, v, k)
    ensures Stands(TimesPow2(x * 10, m2), S, v, k - 1)
  {
    TenTimes(TimesPow2(x, m2), S, v, k);
    MulAssoc(x, 10, Pow2(m2));
    MulComm(10, Pow2(m2));
    MulAssoc(x, Pow2(m2), 10);
  }

  lemma FivesKept(x: nat)
    ensures TwoFives(x) ==> TwoFives(x * 10)
  {
  }

  /** k_check in modes 0 and 1, where the margin follows the numerator. */
  method CheckFree(h: Heap, b0: Bigint, S: Bigint, mhi0: Bigint, ghost m2: nat, k0: int, check: bool, ghost v: nat, ghost gap: nat)
    returns (b: Bigint, mhi: Bigint, k: int)
    requires b0.live && b0.Good() && b0.V() > 0 && Divisor(S) && mhi0.live && mhi0.Good() && mhi0.V() > 0
    requires b0 != S && b0.x != S.x && mhi0 != S && mhi0.x != S.x && b0 != mhi0 && b0.x != mhi0.x
    requires Estimate(v, k0, check) && Stands(b0.V(), S.V(), v, k0) && Stands(TimesPow2(mhi0.V(), m2), S.V(), gap, k0)
    modifies h`outstanding, b0`live, b0`wds, b0.x, mhi0`live, mhi0`wds, mhi0.x
    ensures b == b0 || (fresh(b) && fresh(b.x))
    ensures mhi == mhi0 || (fresh(mhi) && fresh(mhi.x))
    ensures b != mhi && b.x != mhi.x
    ensures b.live && mhi.live && h.outstanding == old(h.outstanding)
    ensures b.Good() && S.V() <= b.V() < 10 * S.V() && mhi.Good() && mhi.V() > 0
    ensures DecimalExponent(v, k) && Stands(b.V(), S.V(), v, k) && Stands(TimesPow2(mhi.V(), m2), S.V(), gap, k)
    ensures old(TwoFives(mhi0.V())) ==> TwoFives(mhi.V())
  {
    hide Stands, TimesPow2, TwoFives, Estimate, DecimalExponent;
    mhi := mhi0;
    b, k := CheckEstimate(h, b0, S, k0, check, v);
    if k != k0 {
      TenfoldTimes(mhi0.V(), m2, S.V(), gap, k0);
      FivesKept(mhi0.V());
      mhi := h.Multadd(mhi0, 10, 0);
    }
  }

  /** mlo = mhi << m2; mhi is the same block, or twice as much in its own. */
  method MakeMargins(h: Heap, m: Bigint, m2: nat, special: bool) returns (mlo: Bigint, mhi: Bigint)
    requires m.live && m.Good() && m.V() > 0
    modifies h`outstanding, m`live
    ensures mlo == m || (fresh(mlo) && fresh(mlo.x))
    ensures (special && fresh(mhi) && fresh(mhi.x) && mlo != mhi && mlo.x != mhi.x) || (!special && mlo == mhi)
    ensures mlo.live && mhi.live && h.outstanding == old(h.outstanding) + if special then 1 else 0
    ensures mlo.Good() && mlo.V() == TimesPow2(m.V(), m2)
    ensures mhi.Good() && mhi.V() == if special then 2 * mlo.V() else mlo.V()
  {
    mlo := ShiftBy(h, m, m2);
    MulPositive(m.V(), Pow2(m2));
    mhi := mlo;
    if special {
      var c := h.Balloc(mlo.k);
      c.sign, c.wds := mlo.sign, mlo.wds;
      h.CopyLimbs(mlo.x, mlo.wds, c.x);
      assert Pow2(1) == 2;
      mhi := h.Lshift(c, 1);
    }
  }

  lemma MarginDivides(x: nat, m2: nat)
    ensures x > 0 ==> TimesPow2(x, m2) > 0
    ensures TwoFives(x) ==> TwoFives(TimesPow2(x, m2)) && TwoFives(2 * TimesPow2(x, m2))
  {
    if x > 0 {
      MulPositive(x, Pow2(m2));
    }
    if TwoFives(x) {
      FivesTimes(x, Pow2(m2));
    }
  }

  lemma FivesTimes(x: nat, y: nat)
    requires TwoFives(x)
    ensures TwoFives(x * y) && TwoFives(2 * (x * y))
  {
    var w := x / 25;
    MulAssoc(25, w, y);
  }

  /** The scaled problem of a double: all that the digit loop asks of it. */
  lemma ProblemHolds(word0: Limb, word1: Limb, b: nat, S: nat, mlo: nat, mhi: nat, k: int, k0: int, check: bool)
    requires FiniteNonzero(word0, word1) && DecimalExponent(Magnitude(word0, word1), k)
    requires Estimate(Magnitude(word0, word1), k0, check)
    requires Stands(b, S, Magnitude(word0, word1), k) && Stands(mlo, S, LowerGap(word0, word1), k)
    requires S <= b < 10 * S && S > 0 && mlo > 0
    requires mhi == if PowerOfTwo(word0, word1) then 2 * mlo else mlo
    requires k0 <= -2 ==> TwoFives(mhi) && S % 5 != 0
    ensures FreeProblem(b, S, mlo, mhi)
    ensures Problem(b, S, mlo, mhi, Magnitude(word0, word1), LowerGap(word0, word1), UpperGap(word0), k)
    ensures 2 * LowerGap(word0, word1) <= Magnitude(word0, word1)
  {
    var m, e := Significand(word0, word1), Exponent(word0);
    HalfGap(m, e);
    HalfGap(1, e - 1);
    if PowerOfTwo(word0, word1) {
      StandsTwice(mlo, S, LowerGap(word0, word1), k);
    }
    assert UpperGap(word0) > 0 && LowerGap(word0, word1) > 0 by { GapPositive(e); }
    StandsMultiple(b, mhi, S, Magnitude(word0, word1), UpperGap(word0), k, 2 * m);
    MulLe(2, 2 * m, UpperGap(word0));
    if m < 10 {
      TinyIsSmall(m, k0);
    }
    NoTie(m, b, S, mhi);
    EvenMultiple(b, m, mhi);
    RelativeGap(m, b, S, mlo, mhi, PowerOfTwo(word0, word1));
  }

  lemma EvenMultiple(b: nat, m: nat, mhi: nat)
    requires b == 2 * m * mhi && mhi > 0
    ensures b % (2 * mhi) == 0
  {
    MulComm(2, m);
    MulAssoc(m, 2, mhi);
    DivUnique(b, 2 * mhi, m, 0);
  }

  lemma GapPositive(e: int)
    requires e - 2 >= -UNITS
    ensures Binary(1, e - 1) > 0 && Binary(1, e - 2) > 0
  {
    MulPositive(Pow2(e - 1 + UNITS), Pow(5, UNITS));
    MulPositive(Pow2(e - 2 + UNITS), Pow(5, UNITS));
  }

  lemma RelativeGap(m: nat, b: nat, S: nat, mlo: nat, mhi: nat, special: bool)
    requires S <= b == 2 * m * mhi && mlo > 0 && mhi == (if special then 2 * mlo else mlo)
    requires m < 0x20_0000_0000_0000 && (special ==> m == 0x10_0000_0000_0000)
    ensures S < 0x20_0000_0000_0000 * (mlo + mhi)
  {
    MulLt(2 * m, 0x40_0000_0000_0000, mhi);
  }

  // ----- dtoa

  /** Mode 2 once b and S are there; both are given back. */
  method FixedRest(h: Heap, b0: Bigint, S: Bigint, ndigits: nat, k0: int, check: bool, s: array<char>, ghost v: nat)
    returns (n: nat, decpt: int, ghost K: int)
    requires b0.live && b0.Good() && b0.V() > 0 && Divisor(S) && S.live && b0 != S && b0.x != S.x
    requires Estimate(v, k0, check) && Stands(b0.V(), S.V(), v, k0)
    requires 0 < ndigits < s.Length
    modifies h`outstanding, b0`live, b0`wds, b0.x, S`live, s
    ensures h.outstanding == old(h.outstanding) - 2
    ensures 0 < n <= ndigits && CorrectlyRounded(v, K, ndigits, s[..n], decpt)
  {
    var b, k := CheckEstimate(h, b0, S, k0, check, v);
    ghost var b1 := b.V();
    var up;
    b, n, up := FixedDigits(h, b, S, ndigits, s);
    DivisorPositive(S);
    FixedMeaning(b1, S.V(), v, k, ndigits, s[..n], up);
    K, decpt := k, k + 1 + up;
    h.Bfree(S);
    h.Bfree(b);
  }

  /** The bignum path of mode 2. */
  method FixedPath(h: Heap, word0: Limb, word1: Limb, ndigits: nat, k0: int, check: bool, s: array<char>)
    returns (n: nat, decpt: int, ghost K: int)
    requires h.Valid() && FiniteNonzero(word0, word1) && Estimate(Magnitude(word0, word1), k0, check)
    requires 0 < ndigits < s.Length
    modifies h, h.Nodes()`next, s
    ensures h.Valid() && h.outstanding == old(h.outstanding)
    ensures 0 < n <= ndigits && CorrectlyRounded(Magnitude(word0, word1), K, ndigits, s[..n], decpt)
  {
    var b, S := FixedScale(h, word0, word1, k0);
    n, decpt, K := FixedRest(h, b, S, ndigits, k0, check, s, Magnitude(word0, word1));
  }

  /** The check of k and the margins, before the digit loop of modes 0 and 1. */
  method FreeAdjust(h: Heap, b0: Bigint, S: Bigint, m: Bigint, m2: nat, k0: int, check: bool, special: bool,
                    ghost v: nat, ghost gap: nat)
    returns (b: Bigint, mlo: Bigint, mhi: Bigint, k: int)
    requires b0.live && b0.Good() && b0.V() > 0 && Divisor(S) && m.live && m.Good() && m.V() > 0
    requires b0 != S && b0.x != S.x && m != S && m.x != S.x && b0 != m && b0.x != m.x
    requires Estimate(v, k0, check) && Stands(b0.V(), S.V(), v, k0) && Stands(TimesPow2(m.V(), m2), S.V(), gap, k0)
    requires k0 <= -2 ==> TwoFives(m.V()) && S.V() % 5 != 0
    modifies h`outstanding, b0`live, b0`wds, b0.x, m`live, m`wds, m.x
    ensures b == b0 || (fresh(b) && fresh(b.x))
    ensures mlo == m || (fresh(mlo) && fresh(mlo.x))
    ensures mhi == mlo || (fresh(mhi) && fresh(mhi.x))
    ensures Owned(b, S, mlo, mhi) && b.Good() && S.V() <= b.V() < 10 * S.V() && mlo.V() > 0
    ensures (special <==> mlo != mhi) && mhi.V() == if special then 2 * mlo.V() else mlo.V()
    ensures h.outstanding == old(h.outstanding) + if special then 1 else 0
    ensures DecimalExponent(v, k) && Stands(b.V(), S.V(), v, k) && Stands(mlo.V(), S.V(), gap, k)
    ensures k0 <= -2 ==> TwoFives(mhi.V())
  {
    hide Stands, TimesPow2, TwoFives, Estimate, DecimalExponent;
    b, mhi, k := CheckFree(h, b0, S, m, m2, k0, check, v, gap);
    MarginDivides(mhi.V(), m2);
    mlo, mhi := MakeMargins(h, mhi, m2, special);
  }

  /** The digit loop of modes 0 and 1 on a scaled double; all blocks are given back. */
  method FreeRest(h: Heap, b0: Bigint, S: Bigint, m: Bigint, m2: nat, word0: Limb, word1: Limb, incl: bool,
                  k0: int, check: bool, s: array<char>)
    returns (n: nat, decpt: int)
    requires FiniteNonzero(word0, word1) && Estimate(Magnitude(word0, word1), k0, check)
    requires b0.live && b0.Good() && b0.V() > 0 && Divisor(S) && S.live && m.live && m.Good() && m.V() > 0
    requires b0 != S && b0.x != S.x && m != S && m.x != S.x && b0 != m && b0.x != m.x
    requires Stands(b0.V(), S.V(), Magnitude(word0, word1), k0)
    requires Stands(TimesPow2(m.V(), m2), S.V(), LowerGap(word0, word1), k0)
    requires k0 <= -2 ==> TwoFives(m.V()) && S.V() % 5 != 0
    requires s.Length >= 18
    modifies h`outstanding, b0`live, b0`wds, b0.x, m`live, m`wds, m.x, S`live, s
    ensures h.outstanding == old(h.outstanding) - 3
    ensures 0 < n <= 17
    ensures ShortestDecimal(Magnitude(word0, word1), LowerGap(word0, word1), UpperGap(word0), incl, s[..n], decpt)
  {
    hide Stands, TimesPow2, TwoFives, Estimate, DecimalExponent, Magnitude, LowerGap, UpperGap, Problem, FreeProblem, Shortest, ShortestDecimal;
    ghost var v, lo, hi := Magnitude(word0, word1), LowerGap(word0, word1), UpperGap(word0);
    var special := SpecialCase(word0, word1);
    var b, mlo, mhi, k := FreeAdjust(h, b0, S, m, m2, k0, check, special, v, lo);
    ghost var b1, mlo0, mhi0 := b.V(), mlo.V(), mhi.V();
    DivisorPositive(S);
    ProblemHolds(word0, word1, b1, S.V(), mlo0, mhi0, k, k0, check);
    var up;
    b, mlo, mhi, n, up := FreeDigits(h, b, S, mlo, mhi, incl, s);
    FreeMeaning(b1, S.V(), mlo0, mhi0, v, lo, hi, k, incl, s[..n], up);
    decpt := k + 1 + up;
    FreeAll(h, S, mlo, mhi, b);
  }

  method FreeAll(h: Heap, S: Bigint, mlo: Bigint, mhi: Bigint, b: Bigint)
    requires S.live && mlo.live && mhi.live && b.live && S != mlo && S != mhi && b != S && b != mlo && b != mhi
    modifies h`outstanding, S`live, mlo`live, mhi`live, b`live
    ensures h.outstanding == old(h.outstanding) - (if mlo == mhi then 3 else 4)
  {
    h.Bfree(S);
    if mlo != mhi {
      h.Bfree(mlo);
    }
    h.Bfree(mhi);
    h.Bfree(b);
  }

  /** The bignum path of modes 0 and 1. */
  method FreePath(h: Heap, word0: Limb, word1: Limb, incl: bool, k0: int, check: bool, s: array<char>)
    returns (n: nat, decpt: int)
    requires h.Valid() && FiniteNonzero(word0, word1) && Estimate(Magnitude(word0, word1), k0, check)
    requires s.Length >= 18
    modifies h, h.Nodes()`next, s
    ensures h.Valid() && h.outstanding == old(h.outstanding)
    ensures 0 < n <= 17
    ensures ShortestDecimal(Magnitude(word0, word1), LowerGap(word0, word1), UpperGap(word0), incl, s[..n], decpt)
  {
    var b, S, m, m2 := FreeScale(h, word0, word1, k0);
    n, decpt := FreeRest(h, b, S, m, m2, word0, word1, incl, k0, check, s);
  }

  /** dtoa for a finite nonzero double: the sign, and a fresh buffer with the digits and their NUL.
      The estimate k of the decimal exponent, computed in floating point by the original, comes in
      as an argument together with the flag that says whether it may be one too large. */
  method Dtoa(h: Heap, word0: Limb, word1: Limb, mode: nat, ndigits: int, k: int, check: bool)
    returns (sign: bool, s: array<char>, n: nat, decpt: int, ghost K: int)
    requires h.Valid() && FiniteNonzero(word0, word1) && mode <= 2
    requires Estimate(Magnitude(word0, word1), k, check)
    modifies h, h.Nodes()`next
    ensures h.Valid() && h.outstanding == old(h.outstanding) && fresh(s)
    ensures sign <==> word0 >= 0x8000_0000
    ensures 0 < n < s.Length && s[n] == '\0'
    ensures mode == 2 ==>
      CorrectlyRounded(Magnitude(word0, word1), K, if ndigits <= 0 then 1 else ndigits, s[..n], decpt)
    ensures mode < 2 ==> n <= 17
    ensures mode < 2 ==>
      ShortestDecimal(Magnitude(word0, word1), LowerGap(word0, word1), UpperGap(word0),
                      mode == 0 && Significand(word0, word1) % 2 == 0, s[..n], decpt)
    ensures mode < 2 ==> Identifies(word0, word1, s[..n], decpt)
  {
    hide ShortestDecimal, CorrectlyRounded, Identifies, Magnitude, LowerGap, UpperGap, Estimate;
    sign := word0 >= 0x8000_0000;
    K := 0;
    if mode == 2 {
      var nd := if ndigits <= 0 then 1 else ndigits;
      s := new char[nd + 1];
      n, decpt, K := FixedPath(h, word0, word1, nd, k, check, s);
    } else {
      s := new char[19];
      var incl := mode != 1 && word1 % 2 == 0;
      n, decpt := FreePath(h, word0, word1, incl, k, check, s);
      ShortestIdentifies(word0, word1, incl, s[..n], decpt);
    }
    ghost var ds := s[..n];
    s[n] := '\0';
    assert s[..n] == ds;
  }
}
