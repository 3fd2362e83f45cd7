/** The Bigint functions of dtoa.c that serve reading numbers: shifting right, testing low bits, adding one, decimal digits. */
module BignumBits {
  import opened Arith
  import opened Bignum
  import opened Digits
  import opened Limbs

  // ----- low bits

  lemma {:induction false} PowerOfBase(n: nat)
    ensures Pow(BASE, n) == Pow2(32 * n)
  {
    Pow2Of32();
    PowMul(2, 32, n);
  }

  /** 2^k in whole limbs and bits. */
  lemma SplitPower(k: nat)
    ensures Pow2(k) == Pow2(k % 32) * Pow(BASE, k / 32)
  {
    PowerOfBase(k / 32);
    PowAdd(2, k % 32, 32 * (k / 32));
  }

  /** The number below bit k. */
  ghost function LowBits(s: seq<Limb>, k: nat): nat
  {
    var n := k / 32;
    if n < |s| then Val(s[..n]) + (s[n] % Lo(k)) * Pow(BASE, n) else Val(s)
  }

  function Lo(k: nat): (p: nat)
    ensures 0 < p && p * Pow2(32 - k % 32) == BASE && Pow2(32 - k % 32) > 0
  {
    PowSplit32(k % 32);
    PowSplit32(32 - k % 32);
    Pow2(k % 32)
  }

  /** The limbs from n on, shifted by less than a limb. */
  lemma UpperLimbs(s: seq<Limb>, n: nat, lo: nat, hi: nat) returns (q: nat)
    requires n < |s| && lo > 0 && lo * hi == BASE
    ensures Val(s[n..]) == q * lo + s[n] % lo
  {
    var a, b := s[n], s[n + 1..];
    assert s[n..] == [a] + b;
    ValConcat([a], b);
    OneLimb([a]);
    var w := Val(b);
    assert Pow(BASE, 1) == BASE;
    hide Val, Pow;
    q := a / lo + w * hi;
    DivModExact(a, lo);
    MulComm(lo, hi);
    MulAssoc(w, hi, lo);
    Distribute(a / lo, w * hi, lo);
  }

  lemma LowBitsBelow(s: seq<Limb>, n: nat, lo: nat, p: nat, r: nat)
    requires n <= |s| && p == Pow(BASE, n) && r < lo
    ensures Val(s[..n]) + r * p < lo * p
  {
    ValBound(s[..n]);
    MulLe(r + 1, lo, p);
    Distribute(r, 1, p);
  }

  /** What the bits from k on stand for, and those below. */
  lemma Parts(s: seq<Limb>, k: nat) returns (q: nat)
    ensures Val(s) == q * Pow2(k) + LowBits(s, k) && LowBits(s, k) < Pow2(k)
    ensures k / 32 < |s| ==> Val(s[k / 32..]) == q * Lo(k) + s[k / 32] % Lo(k)
    ensures k / 32 >= |s| ==> q == 0
  {
    SplitPower(k);
    var n, lo := k / 32, Lo(k);
    var p := Pow(BASE, n);
    if n < |s| {
      q := UpperLimbs(s, n, lo, Pow2(32 - k % 32));
      assert s == s[..n] + s[n..];
      ValConcat(s[..n], s[n..]);
      var r := s[n] % lo;
      Distribute(q * lo, r, p);
      MulAssoc(q, lo, p);
      LowBitsBelow(s, n, lo, p, r);
    } else {
      q := 0;
      ValBound(s);
      PowMonotone(BASE, |s|, n);
      MulLe(1, lo, p);
    }
  }

  lemma LowBitsAre(s: seq<Limb>, k: nat)
    ensures Val(s) % Pow2(k) == LowBits(s, k)
  {
    var q := Parts(s, k);
    hide LowBits, Val, Pow2;
    DivUnique(Val(s), Pow2(k), q, LowBits(s, k));
  }

  /** Where any limb below n, or any bit of limb n below k, is set. */
  lemma LowBitsZero(s: seq<Limb>, k: nat)
    ensures LowBits(s, k) == 0 <==>
      (forall i :: 0 <= i < k / 32 && i < |s| ==> s[i] == 0) && (k / 32 < |s| ==> s[k / 32] % Lo(k) == 0)
  {
    var n := if k / 32 < |s| then k / 32 else |s|;
    var r := if k / 32 < |s| then s[k / 32] % Lo(k) else 0;
    var p := Pow(BASE, k / 32);
    assert s[..|s|] == s;
    if r > 0 {
      MulPositive(r, p);
    }
    hide Lo;
    if forall i :: 0 <= i < n ==> s[i] == 0 {
      ValZeros(s[..n]);
    } else if Val(s[..n]) == 0 {
      ValZeroOnly(s[..n]);
      assert forall i :: 0 <= i < n ==> s[..n][i] == s[i];
    }
  }

  /** any_on: whether one of the k low bits is set. */
  method AnyOn(b: Bigint, k: nat) returns (any: bool)
    requires b.live && b.Number()
    ensures any <==> b.V() % Pow2(k) != 0
  {
    ghost var s := b.x[..b.wds];
    LowBitsAre(s, k);
    LowBitsZero(s, k);
    hide LowBits, Val, Pow2, Normal;
    var n := k / 32;
    if n > b.wds {
      n := b.wds;
    } else if n < b.wds && k % 32 != 0 {
      var x2 := b.x[n];
      assert s[n] == x2;
      DivModExact(x2, Lo(k));
      if (x2 / Lo(k)) * Lo(k) != x2 {
        return true;
      }
    }
    WholeLimb(k);
    var i := n;
    while i > 0
      invariant 0 <= i <= n && forall j :: i <= j < n ==> s[j] == 0
    {
      i := i - 1;
      if b.x[i] != 0 {
        assert s[i] != 0;
        return true;
      }
    }
    any := false;
  }

  lemma WholeLimb(k: nat)
    ensures k % 32 == 0 ==> Lo(k) == 1 && forall x: nat :: x % Lo(k) == 0
  {
  }

  // ----- shifting right

  /** The limbs below i are done, y is what limb i begins with, and limbs from n + i + 1 on are still the old ones. */
  ghost predicate RightInv(o: seq<Limb>, s: seq<Limb>, n: nat, i: nat, lo: nat, y: nat)
  {
    && lo > 0 && n + i < |o| <= |s| && y < BASE
    && Val(o[n..n + i + 1]) == (Val(s[..i]) + y * Pow(BASE, i)) * lo + o[n] % lo
    && y == o[n + i] / lo
    && forall j :: n + i < j < |o| ==> s[j] == o[j]
  }

  /** The value with one more limb. */
  lemma RightStep(v0: nat, v: nat, y: nat, m: nat, p: nat, lo: nat, hi: nat, r: nat)
    requires v0 == (v + y * p) * lo + r && lo > 0 && lo * hi == BASE
    ensures v0 + m * (BASE * p) == (v + (y + (m % lo) * hi) * p + (m / lo) * (BASE * p)) * lo + r
  {
    var q, t := m / lo, m % lo;
    assert m == q * lo + t;
    Distribute(v + y * p, t * hi * p, lo);
    Distribute(y, t * hi, p);
    Distribute(v + (y + t * hi) * p, q * (BASE * p), lo);
    Distribute(q * lo, t, BASE * p);
    MulAssoc(q, lo, BASE * p);
    MulComm(lo, BASE * p);
    MulAssoc(q, BASE * p, lo);
    MulComm(t * hi * p, lo);
    MulComm(t * hi, p);
    MulAssoc(t, hi, p);
    MulComm(lo, hi);
    Middle(t, hi, p, lo);
  }

  lemma Middle(t: nat, hi: nat, p: nat, lo: nat)
    requires lo * hi == BASE
    ensures t * hi * p * lo == t * (BASE * p)
  {
    MulAssoc(t, hi, p);
    MulAssoc(t, hi * p, lo);
    MulComm(hi * p, lo);
    MulAssoc(lo, hi, p);
  }

  /** A word from the upper bits of one limb and the lower bits of the next. */
  lemma RightWord(y: nat, m: Limb, lo: nat, hi: nat)
    requires lo > 0 && hi > 0 && lo * hi == BASE && y < hi
    ensures (m * hi) % BASE == (m % lo) * hi && (m % lo) * hi + y < BASE && m / lo < hi
  {
    MulComm(lo, hi);
    ShiftWord(m, hi, lo);
  }

  lemma RightAdvance(o: seq<Limb>, s: seq<Limb>, n: nat, i: nat, lo: nat, hi: nat, y: nat)
    requires RightInv(o, s, n, i, lo, y) && n + i + 1 < |o| && hi > 0 && lo * hi == BASE && y < hi
    ensures s[n + i + 1] == o[n + i + 1] && (o[n + i + 1] * hi) % BASE + y < BASE && o[n + i + 1] / lo < hi
    ensures RightInv(o, s[i := (o[n + i + 1] * hi) % BASE + y], n, i + 1, lo, o[n + i + 1] / lo)
  {
    var m, p := o[n + i + 1], Pow(BASE, i);
    RightWord(y, m, lo, hi);
    var z := (m * hi) % BASE + y;
    ValPut(s, i, z);
    var t := o[n..];
    assert t[..i + 1] == o[n..n + i + 1] && t[..i + 2] == o[n..n + i + 2];
    ValPrefix(t, i + 1);
    RightStep(Val(o[n..n + i + 1]), Val(s[..i]), y, m, p, lo, hi, o[n] % lo);
    assert Pow(BASE, i + 1) == BASE * p;
    hide Val, Pow;
    assert s[i := z][..i + 1] == s[i := z][..i + 1];
    assert m / lo <= m by { QuotientBound(m, lo); }
  }

  lemma QuotientBound(m: nat, lo: nat)
    requires lo > 0
    ensures m / lo <= m
  {
    DivModExact(m, lo);
    MulLe(1, lo, m / lo);
  }

  lemma RightStart(o: seq<Limb>, s: seq<Limb>, n: nat, lo: nat)
    requires n < |o| <= |s| && lo > 0 && s[..|o|] == o
    ensures o[n] / lo < BASE && RightInv(o, s, n, 0, lo, o[n] / lo)
  {
    QuotientBound(o[n], lo);
    DivModExact(o[n], lo);
    assert o[n..n + 1] == [o[n]] && s[..0] == [];
    OneLimb(o[n..n + 1]);
    assert forall j :: n < j < |o| ==> s[j] == s[..|o|][j];
  }

  lemma RightEnd(o: seq<Limb>, s: seq<Limb>, n: nat, i: nat, lo: nat, y: Limb, w: nat)
    requires RightInv(o, s, n, i, lo, y) && n + i + 1 == |o| && w == if y == 0 then i else i + 1
    ensures i < |s| && Val(o[n..]) == Val(s[i := y][..w]) * lo + o[n] % lo
  {
    ValPut(s, i, y);
    assert o[n..n + i + 1] == o[n..];
    assert s[i := y][..i] == s[..i];
  }

  /** rshift's loop for a shift that is no whole number of limbs. */
  method RightLimbs(x: array<Limb>, wds: nat, n: nat, lo: nat, hi: nat) returns (w: nat)
    requires n < wds <= x.Length && lo > 1 && hi > 1 && lo * hi == BASE
    requires wds > 1 ==> x[wds - 1] != 0
    modifies x
    ensures w <= wds && Normal(x[..w]) && (w == 0 ==> x[0] == 0) && (w == 1 ==> x[0] != 0)
    ensures Val(old(x[..wds])[n..]) == Val(x[..w]) * lo + old(x[n]) % lo
  {
    hide Val, Pow, RightInv;
    ghost var o := x[..wds];
    RightStart(o, x[..], n, lo);
    FirstBound(x[n], lo, hi);
    var i: nat, y: nat := 0, x[n] / lo;
    while n + i + 1 < wds
      invariant n + i < wds && y < hi && RightInv(o, x[..], n, i, lo, y)
      invariant i > 0 && y == 0 && o[n + i] != 0 ==> x[i - 1] != 0
    {
      y := RightWordInto(x, o, n, i, lo, hi, y);
      i := i + 1;
    }
    w := RightTop(x, o, n, i, lo, y);
  }

  lemma RightRoom(o: seq<Limb>, s: seq<Limb>, n: nat, i: nat, lo: nat, y: nat)
    requires RightInv(o, s, n, i, lo, y)
    ensures |o| <= |s| && lo > 0
  {
  }

  /** The body of the loop. */
  method RightWordInto(x: array<Limb>, ghost o: seq<Limb>, n: nat, i: nat, lo: nat, hi: nat, y: nat) returns (y': nat)
    requires RightInv(o, x[..], n, i, lo, y) && n + i + 1 < |o| && hi > 0 && lo * hi == BASE && y < hi
    modifies x
    ensures y' < hi && RightInv(o, x[..], n, i + 1, lo, y')
    ensures y' == 0 && o[n + i + 1] != 0 ==> x[i] != 0
  {
    hide Val, Pow, RightInv;
    ghost var s := x[..];
    RightRoom(o, s, n, i, lo, y);
    RightAdvance(o, s, n, i, lo, hi, y);
    TopBits(o[n + i + 1], lo, hi);
    var m := x[n + i + 1];
    assert m == s[n + i + 1];
    var z: Limb := (m * hi) % BASE + y;
    x[i] := z;
    assert x[..] == s[i := z];
    y' := m / lo;
  }

  /** What is behind the loop: the last word, unless it is zero. */
  method RightTop(x: array<Limb>, ghost o: seq<Limb>, n: nat, i: nat, lo: nat, y: nat) returns (w: nat)
    requires RightInv(o, x[..], n, i, lo, y) && n + i + 1 == |o|
    requires i > 0 && y == 0 && o[n + i] != 0 ==> x[i - 1] != 0
    requires |o| > 1 ==> o[|o| - 1] != 0
    modifies x
    ensures w <= |o| <= x.Length && Normal(x[..w]) && (w == 0 ==> x[0] == 0) && (w == 1 ==> x[0] != 0)
    ensures Val(o[n..]) == Val(x[..w]) * lo + o[n] % lo
  {
    hide Val, Pow;
    ghost var s := x[..];
    w := if y == 0 then i else i + 1;
    RightEnd(o, s, n, i, lo, y, w);
    x[i] := y;
    assert x[..] == s[i := y];
    assert s[i := y][..w] == x[..w];
    if y == 0 && i > 0 {
      assert x[i - 1] == s[i - 1];
    }
  }

  lemma FirstBound(m: Limb, lo: nat, hi: nat)
    requires lo > 0 && hi > 0 && lo * hi == BASE
    ensures m / lo < hi
  {
    RightWord(0, m, lo, hi);
  }

  /** A limb none of whose bits stay above has bits that go into the word below. */
  lemma TopBits(m: Limb, lo: nat, hi: nat)
    requires lo > 0 && hi > 0 && lo * hi == BASE
    ensures m / lo == 0 && m != 0 ==> (m * hi) % BASE != 0
  {
    RightWord(0, m, lo, hi);
    DivModExact(m, lo);
    if m / lo == 0 && m != 0 {
      MulPositive(m % lo, hi);
    }
  }

  /** rshift: divides by 2^k and drops the remainder; where nothing is left there is no limb left either. */
  method Rshift(b: Bigint, k: nat)
    requires b.live && b.Number()
    modifies b`wds, b.x
    ensures b.Number() && b.V() == old(b.V()) / Pow2(k)
    ensures k > 0 && b.V() == 0 ==> b.wds == 0
  {
    ghost var o := b.x[..b.wds];
    ghost var q := Parts(o, k);
    var n, wds := k / 32, b.wds;
    ghost var lo := Lo(k);
    Quotient(o, k, q);
    hide Val, Pow2, LowBits, Lo;
    if n < wds {
      if k % 32 != 0 {
        PowersOf(k);
        var w := RightLimbs(b.x, wds, n, Lo(k), Pow2(32 - k % 32));
        SameQuotient(Val(b.x[..w]), q, lo, o[n] % lo);
        b.wds := w;
        NoZeroLimb(b.x[..w]);
      } else {
        OneIs(k);
        MoveDown(b.x, wds, n);
        assert b.x[..wds - n] == o[n..];
        b.wds := wds - n;
        if k > 0 {
          assert o[n..][wds - n - 1] == o[wds - 1];
          NoZeroLimb(o[n..]);
        }
      }
    } else {
      b.wds := 0;
      assert b.x[..0] == [];
      NoLimbs();
    }
    if b.wds == 0 {
      b.x[0] := 0;
    }
  }

  /** Without a zero at the top there is no limb in a zero. */
  lemma NoZeroLimb(s: seq<Limb>)
    requires s != [] ==> s[|s| - 1] != 0
    ensures Val(s) == 0 ==> s == []
  {
    if s != [] && Val(s) == 0 {
      ValZeroOnly(s);
    }
  }

  lemma NoLimbs()
    ensures Val([]) == 0
  {
  }

  lemma Quotient(o: seq<Limb>, k: nat, q: nat)
    requires Val(o) == q * Pow2(k) + LowBits(o, k) && LowBits(o, k) < Pow2(k)
    ensures Pow2(k) > 0 && Val(o) / Pow2(k) == q
  {
    hide Val, Pow2, LowBits;
    DivUnique(Val(o), Pow2(k), q, LowBits(o, k));
  }

  lemma SameQuotient(a: nat, q: nat, lo: nat, r: nat)
    requires a * lo + r == q * lo + r && lo > 0
    ensures a == q
  {
    MulCancelEq(a, q, lo);
  }

  lemma PowersOf(k: nat)
    requires k % 32 != 0
    ensures Lo(k) > 1 && Pow2(32 - k % 32) > 1 && Lo(k) * Pow2(32 - k % 32) == BASE
  {
    PowStrict(2, 0, k % 32);
    PowStrict(2, 0, 32 - k % 32);
  }

  lemma OneIs(k: nat)
    requires k % 32 == 0
    ensures Lo(k) == 1 && forall a: nat :: a % Lo(k) == 0 && a * Lo(k) == a
  {
  }

  /** rshift's loop for whole limbs. */
  method MoveDown(x: array<Limb>, wds: nat, n: nat)
    requires n < wds <= x.Length
    modifies x
    ensures x[..wds - n] == old(x[n..wds])
  {
    for i := 0 to wds - n
      invariant x[..i] == old(x[n..n + i])
      invariant forall j :: n + i <= j < wds ==> x[j] == old(x[j])
    {
      x[i] := x[n + i];
    }
  }

  // ----- adding one

  /** The limbs below i were all ones, and are zero now. */
  ghost predicate CarryInv(o: seq<Limb>, s: seq<Limb>, i: nat)
  {
    && i <= |o| == |s| && s[i..] == o[i..]
    && Val(s[..i]) + Pow(BASE, i) == Val(o[..i]) + 1
  }

  lemma CarryStep(o: seq<Limb>, s: seq<Limb>, i: nat)
    requires CarryInv(o, s, i) && i < |o| && s[i] == BASE - 1
    ensures CarryInv(o, s[i := 0], i + 1)
  {
    assert s[i] == s[i..][0] == o[i];
    ValPut(s, i, 0);
    ValPrefix(o, i);
    Distribute(BASE - 1, 1, Pow(BASE, i));
    assert s[i := 0][i + 1..] == s[i..][1..] == o[i..][1..] == o[i + 1..];
  }

  lemma CarryEnd(o: seq<Limb>, s: seq<Limb>, i: nat)
    requires CarryInv(o, s, i) && i < |o| && s[i] < BASE - 1
    ensures Val(s[i := s[i] + 1]) == Val(o) + 1
  {
    hide Val, Pow;
    var t := s[i := s[i] + 1];
    Behind(o, s, i);
    ValPut(s, i, s[i] + 1);
    ValPrefix(o, i);
    Distribute(o[i], 1, Pow(BASE, i));
    assert t[i + 1..] == s[i + 1..];
    ValCut(t, i + 1);
    ValCut(o, i + 1);
  }

  lemma Behind(o: seq<Limb>, s: seq<Limb>, i: nat)
    requires i < |o| == |s| && s[i..] == o[i..]
    ensures s[i] == o[i] && s[i + 1..] == o[i + 1..]
  {
    assert s[i] == s[i..][0] == o[i];
    assert s[i + 1..] == s[i..][1..];
    assert o[i + 1..] == o[i..][1..];
  }

  lemma ValCut(s: seq<Limb>, n: nat)
    requires n <= |s|
    ensures Val(s) == Val(s[..n]) + Val(s[n..]) * Pow(BASE, n)
  {
    hide Val, Pow;
    ValConcat(s[..n], s[n..]);
    assert s == s[..n] + s[n..];
  }

  /** The loop of increment: done says that a limb took the carry. */
  method CarryLimbs(x: array<Limb>, wds: nat) returns (done: bool)
    requires 0 < wds <= x.Length
    modifies x
    ensures done ==> Val(x[..wds]) == old(Val(x[..wds])) + 1 && (old(x[wds - 1]) != 0 ==> x[wds - 1] != 0)
    ensures !done ==> Val(x[..wds]) + Pow(BASE, wds) == old(Val(x[..wds])) + 1
  {
    hide Val, Pow;
    ghost var o := x[..wds];
    CarryStart(o);
    var i := 0;
    while i < wds
      invariant i <= wds && CarryInv(o, x[..wds], i)
    {
      ghost var s := x[..wds];
      if x[i] < 0xffffffff {
        CarryEnd(o, s, i);
        assert i < wds - 1 ==> s[wds - 1] == s[i..][wds - 1 - i] == o[wds - 1];
        assert s[i] == x[i];
        var v: Limb := x[i] + 1;
        x[i] := v;
        assert x[..wds] == s[i := v];
        return true;
      }
      CarryStep(o, s, i);
      x[i] := 0;
      assert x[..wds] == s[i := 0];
      i := i + 1;
    }
    assert o[..wds] == o && x[..wds][..wds] == x[..wds];
    done := false;
  }

  lemma CarryStart(o: seq<Limb>)
    ensures CarryInv(o, o, 0)
  {
    assert o[..0] == [];
  }

  /**
   increment: adds one. A number of no limbs (a zero that quorem or rshift left) does not get one:
   its first limb changes, but it still has none.
   */
  method Increment(h: Heap, b: Bigint) returns (r: Bigint)
    requires b.live && b.Number()
    modifies h`outstanding, b`live, b`wds, b.x
    ensures old(b.wds) > 0 ==> r.Good() && r.V() == old(b.V()) + 1
    ensures old(b.wds) == 0 ==> r == b && b.wds == 0 && b.x[0] == 1
    ensures r.live && h.outstanding == old(h.outstanding) && (r == b || (fresh(r) && fresh(r.x)))
  {
    hide Val, Pow, Pow2;
    r := b;
    if b.wds == 0 {
      b.x[0] := b.x[0] + 1;
      return;
    }
    var done := CarryLimbs(b.x, b.wds);
    if done {
      return;
    }
    var wds := b.wds;
    if wds >= b.x.Length {
      r := h.Grow(b);
      MoreRoom(b.k);
    }
    h.PutTop(r, wds, 1);
  }

  /** Rounding up behind a shift works exactly if the shift leaves anything. */
  method ShiftAndIncrement(h: Heap, b: Bigint, k: nat) returns (r: Bigint)
    requires b.live && b.Number() && k > 0
    modifies h`outstanding, b`live, b`wds, b.x
    ensures Pow2(k) > 0
    ensures r.Good() && r.V() == old(b.V()) / Pow2(k) + 1 <==> old(b.V()) >= Pow2(k)
    ensures old(b.V()) < Pow2(k) ==> r == b && r.wds == 0 && r.x[0] == 1
    ensures r.live && h.outstanding == old(h.outstanding) && (r == b || (fresh(r) && fresh(r.x)))
  {
    hide Val, Pow, Pow2;
    ghost var v, p := b.V(), Pow2(k);
    Quotients(v, k);
    Rshift(b, k);
    assert b.wds == 0 ==> b.V() == 0 by {
      NoLimbs();
      assert b.x[..0] == [];
    }
    r := Increment(h, b);
  }

  lemma Quotients(v: nat, k: nat)
    ensures Pow2(k) > 0 && (v / Pow2(k) == 0 <==> v < Pow2(k))
  {
    DivUnique(v, Pow2(k), v / Pow2(k), v % Pow2(k));
    if v < Pow2(k) {
      DivUnique(v, Pow2(k), 0, v);
    }
  }

  lemma MoreRoom(k: nat)
    ensures Pow2(k + 1) > Pow2(k)
  {
    PowStrict(2, k, k + 1);
  }

  // ----- decimal digits

  /** Where the i-th digit stands in a text whose decimal point, dplen bytes long, comes behind nd0 digits. */
  function Position(nd0: nat, dplen: nat, i: nat): nat
  {
    if i < nd0 then i else i + dplen
  }

  /** s2b: the number that the nd digits of a text denote; y9 is what the first nine denote. */
  method S2b(h: Heap, s: seq<char>, nd0: nat, nd: nat, y9: Limb, dplen: nat, ghost ds: seq<char>) returns (b: Bigint)
    requires 0 < nd && nd0 <= nd && nd + dplen <= |s| && |ds| == nd && AllDigits(ds)
    requires forall i :: 0 <= i < nd ==> ds[i] == s[Position(nd0, dplen, i)]
    requires y9 == Dec(ds[..if nd < 9 then nd else 9])
    modifies h`outstanding
    ensures fresh(b) && fresh(b.x) && b.live && b.Good() && b.V() == Dec(ds)
    ensures h.outstanding == old(h.outstanding) + 1
  {
    hide Val, Pow, Pow2, Dec;
    b := FirstNine(h, nd, y9);
    assert nd <= 9 ==> ds[..nd] == ds;
    var i, p := 9, 9;
    if 9 < nd0 {
      while i < nd0
        invariant 9 <= i <= nd0 && p == i
        invariant fresh(b) && fresh(b.x) && b.live && b.Good() && b.V() == Dec(ds[..i])
        invariant h.outstanding == old(h.outstanding) + 1
      {
        b := NextDigit(h, b, s[p], ds, i);
        i, p := i + 1, p + 1;
      }
      p := p + dplen;
    } else {
      p := dplen + 9;
    }
    while i < nd
      invariant 9 <= i && (i <= nd || i == 9) && (i < nd ==> p == Position(nd0, dplen, i))
      invariant fresh(b) && fresh(b.x) && b.live && b.Good() && b.V() == Dec(ds[..if i < nd then i else nd])
      invariant h.outstanding == old(h.outstanding) + 1
    {
      b := NextDigit(h, b, s[p], ds, i);
      i, p := i + 1, p + 1;
    }
    assert ds[..nd] == ds;
  }

  /** A block with room for nd digits, and the first nine of them in it. */
  method FirstNine(h: Heap, nd: nat, y9: Limb) returns (b: Bigint)
    modifies h`outstanding
    ensures fresh(b) && fresh(b.x) && b.live && b.Good() && b.V() == y9
    ensures h.outstanding == old(h.outstanding) + 1
    ensures 9 * b.x.Length >= nd
  {
    hide Val, Pow;
    var k, y := 0, 1;
    NotDoubled();
    while (nd + 8) / 9 > y
      invariant y == Pow2(k) && y > 0 && h.outstanding == old(h.outstanding)
      decreases (nd + 8) / 9 - y
    {
      Doubled(k);
      y, k := 2 * y, k + 1;
    }
    b := h.Balloc(k);
    b.x[0] := y9;
    b.wds := 1;
    assert b.x[..1] == [y9];
    OneLimb(b.x[..1]);
  }

  lemma NotDoubled()
    ensures Pow2(0) == 1
  {
  }

  lemma Doubled(k: nat)
    ensures Pow2(k + 1) == 2 * Pow2(k)
  {
  }

  method NextDigit(h: Heap, b: Bigint, c: char, ghost ds: seq<char>, ghost i: nat) returns (r: Bigint)
    requires AllDigits(ds) && i < |ds| && ds[i] == c && b.live && b.Good() && b.V() == Dec(ds[..i])
    modifies h`outstanding, b`live, b`wds, b.x
    ensures r == b || (fresh(r) && fresh(r.x))
    ensures r.live && r.Good() && r.V() == Dec(ds[..i + 1]) && h.outstanding == old(h.outstanding)
  {
    hide Val, Pow, Pow2, Dec;
    DecAppend(ds[..i], c);
    assert ds[..i + 1] == ds[..i] + [c];
    r := h.Multadd(b, 10, DigitOf(c));
  }
}
