/**
 Little-endian numbers in 32-bit limbs, and the limb loops of the bignum functions.
 Shifts of machine words are written as multiplication and division by powers of two,
 and an `|` of words with disjoint bits as an addition.
 */
module Limbs {
  import opened Arith

  const BASE: nat := 0x1_0000_0000

  type Limb = x: nat | x < 0x1_0000_0000

  /** The number a sequence of limbs denotes, least significant limb first. */
  function Val(s: seq<Limb>): nat
  {
    if s == [] then 0
    else Val(s[..|s| - 1]) + s[|s| - 1] * Pow(BASE, |s| - 1)
  }

  lemma ValAppend(s: seq<Limb>, v: Limb)
    ensures Val(s + [v]) == Val(s) + v * Pow(BASE, |s|)
  {
    assert (s + [v])[..|s|] == s;
  }

  lemma {:induction false} ValBound(s: seq<Limb>)
    ensures Val(s) < Pow(BASE, |s|)
  {
    if s == [] {
    } else {
      var n := |s| - 1;
      ValBound(s[..n]);
      MulLe(s[n], BASE - 1, Pow(BASE, n));
      Distribute(BASE - 1, 1, Pow(BASE, n));
    }
  }

  lemma {:induction false} ValConcat(s: seq<Limb>, t: seq<Limb>)
    ensures Val(s + t) == Val(s) + Val(t) * Pow(BASE, |s|)
  {
    if t == [] {
      assert s + t == s;
    } else {
      var n := |t| - 1;
      ValConcat(s, t[..n]);
      assert s + t == (s + t[..n]) + [t[n]];
      ValAppend(s + t[..n], t[n]);
      assert t == t[..n] + [t[n]];
      ValAppend(t[..n], t[n]);
      PowAdd(BASE, n, |s|);
      MulAssoc(t[n], Pow(BASE, n), Pow(BASE, |s|));
      Distribute(Val(t[..n]), t[n] * Pow(BASE, n), Pow(BASE, |s|));
    }
  }

  /** A prefix of an array grows by one limb. */
  lemma ValPrefix(s: seq<Limb>, i: nat)
    requires i < |s|
    ensures Val(s[..i + 1]) == Val(s[..i]) + s[i] * Pow(BASE, i)
  {
    assert s[..i + 1] == s[..i] + [s[i]];
    ValAppend(s[..i], s[i]);
  }

  lemma {:induction false} ValZeros(s: seq<Limb>)
    requires forall i :: 0 <= i < |s| ==> s[i] == 0
    ensures Val(s) == 0
  {
    if s != [] {
      ValZeros(s[..|s| - 1]);
    }
  }

  lemma {:induction false} ValZeroOnly(s: seq<Limb>)
    requires Val(s) == 0
    ensures forall i :: 0 <= i < |s| ==> s[i] == 0
  {
    if s != [] {
      var n := |s| - 1;
      if s[n] > 0 {
        MulPositive(s[n], Pow(BASE, n));
      }
      ValZeroOnly(s[..n]);
    }
  }

  /** A nonzero top limb puts the number at or above the top power of the base. */
  lemma ValTop(s: seq<Limb>)
    requires s != []
    ensures Val(s) >= s[|s| - 1] * Pow(BASE, |s| - 1)
    ensures Val(s) < (s[|s| - 1] + 1) * Pow(BASE, |s| - 1)
  {
    var n := |s| - 1;
    ValBound(s[..n]);
    Distribute(s[n], 1, Pow(BASE, n));
  }

  /** No leading zero limb, except in the one-limb zero. */
  predicate Normal(s: seq<Limb>)
  {
    |s| > 1 ==> s[|s| - 1] != 0
  }

  lemma NormalTop(s: seq<Limb>)
    requires s != [] && s[|s| - 1] != 0
    ensures Val(s) >= Pow(BASE, |s| - 1)
  {
    ValTop(s);
    MulLe(1, s[|s| - 1], Pow(BASE, |s| - 1));
  }

  /** Writing the next limb of a prefix. */
  lemma ValPut(s: seq<Limb>, i: nat, v: Limb)
    requires i < |s|
    ensures Val(s[i := v][..i + 1]) == Val(s[..i]) + v * Pow(BASE, i)
  {
    var s' := s[i := v];
    ValPrefix(s', i);
    assert s'[..i] == s[..i];
  }

  /** The i-th limb of x*m+a: the carry moves on, nothing is lost. */
  lemma MulAddStep(v0: nat, v: nat, xi: nat, m: nat, a: nat, carry: nat, p: nat, y: nat)
    requires v + carry * p == v0 * m + a
    requires y == xi * m + carry
    ensures v + (y % BASE) * p + (y / BASE) * (BASE * p) == (v0 + xi * p) * m + a
  {
    var q, r := y / BASE, y % BASE;
    assert y == q * BASE + r;
    MulAssoc(q, BASE, p);
    Distribute(q * BASE, r, p);
    Distribute(xi * m, carry, p);
    Distribute(v0, xi * p, m);
    assert xi * m * p == xi * p * m by {
      MulComm(m, p);
      MulAssoc(xi, m, p);
      MulAssoc(xi, p, m);
    }
  }

  /** State of multadd's loop before limb i: `o` is the original array, `s` the current one. */
  ghost predicate MulAddInv(o: seq<Limb>, s: seq<Limb>, i: nat, m: nat, a: nat, carry: nat)
  {
    && |s| == |o| && i <= |s|
    && s[i..] == o[i..]
    && Val(s[..i]) + carry * Pow(BASE, i) == Val(o[..i]) * m + a
  }

  lemma MulAddAdvance(o: seq<Limb>, s: seq<Limb>, i: nat, m: nat, a: nat, carry: Limb, y: nat)
    requires MulAddInv(o, s, i, m, a, carry) && i < |s|
    requires m < 0x8000_0000 && y == s[i] * m + carry
    ensures y < 0x1_0000_0000_0000_0000 && y / BASE < BASE
    ensures MulAddInv(o, s[i := y % BASE], i + 1, m, a, y / BASE)
  {
    assert s[i] == s[i..][0] == o[i..][0] == o[i];
    MulLe(s[i], BASE - 1, m);
    MulAddStep(Val(o[..i]), Val(s[..i]), s[i], m, a, carry, Pow(BASE, i), y);
    ValPut(s, i, y % BASE);
    ValPrefix(o, i);
    assert s[i := y % BASE][i + 1..] == s[i..][1..] == o[i..][1..] == o[i + 1..];
  }

  /** The loop of multadd: x := x * m + a in place, with the carry out of the top limb. */
  method MulAddLimbs(x: array<Limb>, wds: nat, m: nat, a: nat) returns (carry: Limb)
    requires wds <= x.Length
    requires m < 0x8000_0000 && a < 0x8000_0000
    modifies x
    ensures Val(x[..wds]) + carry * Pow(BASE, wds) == old(Val(x[..wds])) * m + a
    ensures x[wds..] == old(x[wds..])
  {
    hide Val, Pow, MulAddInv;
    carry := a;
    var i := 0;
    ghost var o := x[..];
    MulAddStart(o, m, a);
    while i < wds
      invariant i <= wds
      invariant MulAddInv(o, x[..], i, m, a, carry)
    {
      ghost var s := x[..];
      var y := x[i] * m + carry;
      MulAddAdvance(o, s, i, m, a, carry, y);
      carry := y / BASE;
      var w: Limb := y % BASE;
      x[i] := w;
      assert x[..] == s[i := w];
      i := i + 1;
    }
    MulAddEnd(o, x[..], wds, m, a, carry);
    assert x[..][..wds] == x[..wds] && o[..wds] == old(x[..wds]);
    assert x[..][wds..] == x[wds..] && o[wds..] == old(x[wds..]);
  }

  lemma MulAddStart(o: seq<Limb>, m: nat, a: nat)
    ensures MulAddInv(o, o, 0, m, a, a)
  {
    assert o[..0] == [];
  }

  lemma MulAddEnd(o: seq<Limb>, s: seq<Limb>, i: nat, m: nat, a: nat, carry: nat)
    requires MulAddInv(o, s, i, m, a, carry)
    ensures i <= |s| == |o| && s[i..] == o[i..] && Val(s[..i]) + carry * Pow(BASE, i) == Val(o[..i]) * m + a
  {
  }

  /** State of a row of mult before limb i; `o` is c before the row. */
  ghost predicate MulRowInv(o: seq<Limb>, c: seq<Limb>, a: seq<Limb>, y: nat, j: nat, i: nat, carry: nat)
  {
    && |c| == |o| && i <= |a| && j + i <= |c|
    && c[..j] == o[..j] && c[j + i..] == o[j + i..]
    && Val(c[..j + i]) + carry * Pow(BASE, j + i) == Val(o[..j + i]) + Val(a[..i]) * y * Pow(BASE, j)
  }

  lemma MulRowAdvance(o: seq<Limb>, c: seq<Limb>, a: seq<Limb>, y: Limb, j: nat, i: nat, carry: Limb, z: nat)
    requires MulRowInv(o, c, a, y, j, i, carry) && i < |a| && j + i < |c|
    requires z == a[i] * y + c[j + i] + carry
    ensures z < 0x1_0000_0000_0000_0000 && z / BASE < BASE
    ensures MulRowInv(o, c[j + i := z % BASE], a, y, j, i + 1, z / BASE)
  {
    assert c[j + i] == c[j + i..][0] == o[j + i..][0] == o[j + i];
    MulLe(a[i], BASE - 1, y);
    MulLe(y, BASE - 1, BASE - 1);
    MulRowStep(a, i, y, j, o, Val(c[..j + i]), carry, z);
    ValPut(c, j + i, z % BASE);
    var c' := c[j + i := z % BASE];
    assert c'[j + i + 1..] == c[j + i..][1..] == o[j + i..][1..] == o[j + i + 1..];
    assert c'[..j] == c[..j];
  }

  lemma MulRowDone(o: seq<Limb>, c: seq<Limb>, a: seq<Limb>, y: nat, j: nat, wa: nat, carry: Limb)
    requires MulRowInv(o, c, a, y, j, wa, carry) && j + wa < |c|
    ensures var c' := c[j + wa := carry];
      && Val(c'[..j + wa + 1]) == Val(o[..j + wa]) + Val(a[..wa]) * y * Pow(BASE, j)
      && c'[j + wa + 1..] == o[j + wa + 1..]
  {
    ValPut(c, j + wa, carry);
    assert c[j + wa := carry][j + wa + 1..] == c[j + wa..][1..] == o[j + wa..][1..] == o[j + wa + 1..];
  }

  /** One row of mult: c[j..] += a * y, where the limb above the row is still unused. */
  method MulRow(a: array<Limb>, wa: nat, y: Limb, c: array<Limb>, j: nat)
    requires a != c && wa <= a.Length && j + wa < c.Length
    requires c[j + wa] == 0
    modifies c
    ensures Val(c[..j + wa + 1]) == old(Val(c[..j + wa])) + Val(a[..wa]) * y * Pow(BASE, j)
    ensures c[j + wa + 1..] == old(c[j + wa + 1..])
  {
    var carry: Limb := 0;
    var i := 0;
    ghost var o, av := c[..], a[..];
    assert av[..0] == [];
    while i < wa
      invariant i <= wa
      invariant MulRowInv(o, c[..], av, y, j, i, carry)
    {
      ghost var s := c[..];
      var z := a[i] * y + c[j + i] + carry;
      MulRowAdvance(o, s, av, y, j, i, carry, z);
      carry := z / BASE;
      var w: Limb := z % BASE;
      c[j + i] := w;
      assert c[..] == s[j + i := w];
      i := i + 1;
    }
    ghost var s := c[..];
    c[j + wa] := carry;
    assert c[..] == s[j + wa := carry];
    MulRowDone(o, s, av, y, j, wa, carry);
    assert c[..][..j + wa + 1] == c[..j + wa + 1] && c[..][j + wa + 1..] == c[j + wa + 1..];
    assert o[..j + wa] == old(c[..j + wa]) && av[..wa] == a[..wa];
  }

  lemma MulRowStep(a: seq<Limb>, i: nat, y: Limb, j: nat, c0: seq<Limb>, v: nat, carry: nat, z: nat)
    requires i < |a| && j + i < |c0|
    requires v + carry * Pow(BASE, j + i) == Val(c0[..j + i]) + Val(a[..i]) * y * Pow(BASE, j)
    requires z == a[i] * y + c0[j + i] + carry
    ensures v + (z % BASE) * Pow(BASE, j + i) + (z / BASE) * Pow(BASE, j + i + 1)
         == Val(c0[..j + i + 1]) + Val(a[..i + 1]) * y * Pow(BASE, j)
  {
    ValPrefix(c0, j + i);
    ValPrefix(a, i);
    var pj, pi, p := Pow(BASE, j), Pow(BASE, i), Pow(BASE, j + i);
    PowAdd(BASE, j, i);
    var q, r := z / BASE, z % BASE;
    assert z == q * BASE + r;
    MulAssoc(q, BASE, p);
    Distribute(q * BASE, r, p);
    Distribute(a[i] * y + c0[j + i], carry, p);
    Distribute(a[i] * y, c0[j + i], p);
    calc {
      Val(a[..i + 1]) * y * pj;
      (Val(a[..i]) + a[i] * pi) * y * pj;
      { Distribute(Val(a[..i]), a[i] * pi, y); Distribute(Val(a[..i]) * y, a[i] * pi * y, pj); }
      Val(a[..i]) * y * pj + a[i] * pi * y * pj;
      { MulAssoc(a[i], pi, y); MulComm(pi, y); MulAssoc(a[i], y, pi); MulAssoc(a[i] * y, pi, pj); MulComm(pi, pj); }
      Val(a[..i]) * y * pj + a[i] * y * p;
    }
  }

  ghost predicate MulInv(a: seq<Limb>, b: seq<Limb>, c: seq<Limb>, j: nat)
  {
    && j <= |b| && |c| >= |a| + |b|
    && Val(c[..|a| + j]) == Val(a) * Val(b[..j])
    && forall i :: |a| + j <= i < |a| + |b| ==> c[i] == 0
  }

  lemma MulStart(a: seq<Limb>, b: seq<Limb>, c: seq<Limb>)
    requires |c| >= |a| + |b| && forall i :: 0 <= i < |a| + |b| ==> c[i] == 0
    ensures MulInv(a, b, c, 0)
  {
    ValZeros(c[..|a|]);
    assert b[..0] == [];
  }

  /** One more limb of b, by a row or, for a zero limb, by doing nothing. */
  lemma MulAdvance(a: seq<Limb>, b: seq<Limb>, c: seq<Limb>, c': seq<Limb>, j: nat)
    requires MulInv(a, b, c, j) && j < |b| && |c'| == |c|
    requires Val(c'[..|a| + j + 1]) == Val(c[..|a| + j]) + Val(a) * b[j] * Pow(BASE, j)
    requires c'[|a| + j + 1..] == c[|a| + j + 1..]
    ensures MulInv(a, b, c', j + 1)
  {
    hide Val, Pow;
    ValPrefix(b, j);
    OneMoreRow(Val(a), Val(b[..j]), b[j], Pow(BASE, j));
    forall i | |a| + j + 1 <= i < |a| + |b| ensures c'[i] == 0 {
      assert c'[i] == c'[|a| + j + 1..][i - (|a| + j + 1)] == c[i];
    }
  }

  lemma OneMoreRow(a: nat, v: nat, y: nat, p: nat)
    ensures a * (v + y * p) == a * v + a * y * p
  {
    Distribute(v, y * p, a);
    MulAssoc(a, y, p);
  }

  method ClearLimbs(c: array<Limb>, n: nat)
    requires n <= c.Length
    modifies c
    ensures forall i :: 0 <= i < n ==> c[i] == 0
  {
    for i := 0 to n
      invariant forall m :: 0 <= m < i ==> c[m] == 0
    {
      c[i] := 0;
    }
  }

  method MulOneRow(a: array<Limb>, wa: nat, ghost av: seq<Limb>, ghost bv: seq<Limb>, y: Limb, c: array<Limb>, j: nat)
    requires a != c && wa <= a.Length && av == a[..wa]
    requires j < |bv| && wa + |bv| <= c.Length && y == bv[j]
    requires MulInv(av, bv, c[..], j)
    modifies c
    ensures MulInv(av, bv, c[..], j + 1)
  {
    ghost var before := c[..];
    if y != 0 {
      MulRow(a, wa, y, c, j);
      assert before[..wa + j] == old(c[..j + wa]) && before[j + wa + 1..] == old(c[j + wa + 1..]);
      assert c[..][..wa + j + 1] == c[..j + wa + 1] && c[..][wa + j + 1..] == c[j + wa + 1..];
    } else {
      ValPrefix(before, wa + j);
    }
    MulAdvance(av, bv, before, c[..], j);
  }

  /** mult's loops: c := a * b, skipping the zero limbs of b. */
  method MulLimbs(a: array<Limb>, wa: nat, b: array<Limb>, wb: nat, c: array<Limb>)
    requires a != c && b != c
    requires wa <= a.Length && wb <= b.Length && wa + wb <= c.Length
    modifies c
    ensures Val(c[..wa + wb]) == Val(a[..wa]) * Val(b[..wb])
  {
    ClearLimbs(c, wa + wb);
    ghost var av, bv := a[..wa], b[..wb];
    MulStart(av, bv, c[..]);
    var j := 0;
    while j < wb
      invariant j <= wb && MulInv(av, bv, c[..], j)
    {
      MulOneRow(a, wa, av, bv, b[j], c, j);
      j := j + 1;
    }
    assert c[..][..wa + wb] == c[..wa + wb] && bv[..wb] == bv;
  }

  /** Index of the highest nonzero limb plus one: the trimming loops of mult, diff and quorem. */
  method Trim(x: array<Limb>, n: nat) returns (w: nat)
    requires n <= x.Length
    ensures w <= n && Val(x[..w]) == Val(x[..n])
    ensures w > 0 ==> x[w - 1] != 0
    ensures w == 0 <==> Val(x[..n]) == 0
  {
    w := n;
    while w > 0 && x[w - 1] == 0
      invariant w <= n && Val(x[..w]) == Val(x[..n])
    {
      ValPrefix(x[..], w - 1);
      assert x[..][..w - 1] == x[..w - 1] && x[..][..w] == x[..w];
      w := w - 1;
    }
    if w > 0 {
      NormalTop(x[..w]);
    }
  }

  /** quorem's trimming loop, which never goes below one limb by itself. */
  method TrimDown(x: array<Limb>, n: nat) returns (w: nat)
    requires n <= x.Length
    ensures w <= n && Val(x[..w]) == Val(x[..n]) && Normal(x[..w])
    ensures w == 0 <==> n == 0
  {
    w := n;
    while w > 1 && x[w - 1] == 0
      invariant w <= n && Val(x[..w]) == Val(x[..n]) && (w == 0 <==> n == 0)
    {
      ValPrefix(x[..], w - 1);
      assert x[..][..w - 1] == x[..w - 1] && x[..][..w] == x[..w];
      w := w - 1;
    }
  }

  ghost predicate ShiftInv(x: seq<Limb>, y: seq<Limb>, n: nat, i: nat, lo: nat, z: nat)
  {
    && i <= |x| && n + i <= |y|
    && Val(y[..n + i]) + z * Pow(BASE, n + i) == Val(x[..i]) * lo * Pow(BASE, n)
  }

  lemma ShiftAdvance(x: seq<Limb>, y: seq<Limb>, n: nat, i: nat, lo: nat, hi: nat, z: nat)
    requires ShiftInv(x, y, n, i, lo, z) && i < |x| && n + i < |y|
    requires lo * hi == BASE && lo > 0 && hi > 0 && z < lo
    ensures (x[i] * lo) % BASE + z < BASE && x[i] / hi < lo
    ensures ShiftInv(x, y[n + i := (x[i] * lo) % BASE + z], n, i + 1, lo, x[i] / hi)
  {
    ShiftWord(x[i], lo, hi);
    ShiftStep(x, i, lo, hi, n, Val(y[..n + i]), z);
    ValPut(y, n + i, (x[i] * lo) % BASE + z);
  }

  lemma ShiftStart(x: seq<Limb>, y: seq<Limb>, n: nat, lo: nat)
    requires n <= |y| && forall i :: 0 <= i < n ==> y[i] == 0
    ensures ShiftInv(x, y, n, 0, lo, 0)
  {
    ValZeros(y[..n]);
    assert x[..0] == [];
  }

  lemma ShiftDone(x: seq<Limb>, y: seq<Limb>, n: nat, wds: nat, lo: nat, z: Limb)
    requires ShiftInv(x, y, n, wds, lo, z) && n + wds < |y|
    ensures Val(y[n + wds := z][..n + wds + 1]) == Val(x[..wds]) * lo * Pow(BASE, n)
  {
    ValPut(y, n + wds, z);
  }

  /** lshift's limb loop: y[..] := x * 2^k for 0 < k < 32; the last limb holds the bits shifted out. */
  method ShiftLimbs(x: array<Limb>, wds: nat, k: nat, y: array<Limb>, n: nat) returns (z: Limb)
    requires x != y && wds <= x.Length && n + wds < y.Length
    requires 0 < k < 32
    requires forall i :: 0 <= i < n ==> y[i] == 0
    modifies y
    ensures z == y[n + wds]
    ensures Val(y[..n + wds + 1]) == Val(x[..wds]) * Pow2(k) * Pow(BASE, n)
  {
    z := 0;
    PowSplit32(k);
    var lo, hi := Pow2(k), Pow2(32 - k);
    var i := 0;
    ghost var xs := x[..];
    ShiftStart(xs, y[..], n, lo);
    while i < wds
      invariant i <= wds
      invariant z < lo
      invariant ShiftInv(xs, y[..], n, i, lo, z)
    {
      ghost var s := y[..];
      ShiftAdvance(xs, s, n, i, lo, hi, z);
      var w: Limb := (x[i] * lo) % BASE + z;
      y[n + i] := w;
      assert y[..] == s[n + i := w];
      z := x[i] / hi;
      i := i + 1;
    }
    ghost var s := y[..];
    y[n + wds] := z;
    assert y[..] == s[n + wds := z];
    ShiftDone(xs, s, n, wds, lo, z);
    assert y[..][..n + wds + 1] == y[..n + wds + 1] && xs[..wds] == x[..wds];
  }

  lemma PowSplit32(k: nat)
    requires k <= 32
    ensures Pow2(k) * Pow2(32 - k) == BASE
    ensures 0 < Pow2(k) <= BASE
    ensures k < 32 ==> Pow2(k) < BASE
  {
    PowAdd(2, k, 32 - k);
    Pow2Of32();
    PowMonotone(2, k, 32);
    if k < 32 { PowStrict(2, k, 32); }
  }

  lemma Pow2Of32()
    ensures Pow2(32) == BASE
  {
    assert Pow(2, 8) == 0x100;
    PowAdd(2, 8, 8);
    PowAdd(2, 16, 16);
  }

  /** x << k within 32 bits leaves room for k more bits, and the rest is x >> (32-k). */
  lemma ShiftWord(x: Limb, lo: nat, hi: nat)
    requires lo * hi == BASE && lo > 0 && hi > 0
    ensures x * lo == (x / hi) * BASE + (x % hi) * lo
    ensures (x * lo) % BASE == (x % hi) * lo && (x % hi) * lo + lo <= BASE
    ensures x / hi < lo
  {
    var q, r := x / hi, x % hi;
    assert x == q * hi + r;
    Distribute(q * hi, r, lo);
    MulAssoc(q, hi, lo);
    MulComm(hi, lo);
    MulLe(r + 1, hi, lo);
    Distribute(r, 1, lo);
    DivUnique(x * lo, BASE, q, r * lo);
    if q >= lo {
      MulLe(lo, q, hi);
      assert false;
    }
  }

  lemma ShiftStep(x: seq<Limb>, i: nat, lo: nat, hi: nat, n: nat, v: nat, z: nat)
    requires i < |x| && lo * hi == BASE && lo > 0 && hi > 0
    requires v + z * Pow(BASE, n + i) == Val(x[..i]) * lo * Pow(BASE, n)
    ensures v + ((x[i] * lo) % BASE + z) * Pow(BASE, n + i) + (x[i] / hi) * Pow(BASE, n + i + 1)
         == Val(x[..i + 1]) * lo * Pow(BASE, n)
  {
    ShiftWord(x[i], lo, hi);
    ValPrefix(x, i);
    var pn, pi, p := Pow(BASE, n), Pow(BASE, i), Pow(BASE, n + i);
    PowAdd(BASE, n, i);
    var q, r := x[i] / hi, (x[i] * lo) % BASE;
    MulAssoc(q, BASE, p);
    Distribute(r, z, p);
    Distribute(q * BASE, r, p);
    calc {
      Val(x[..i + 1]) * lo * pn;
      (Val(x[..i]) + x[i] * pi) * lo * pn;
      { Distribute(Val(x[..i]), x[i] * pi, lo); Distribute(Val(x[..i]) * lo, x[i] * pi * lo, pn); }
      Val(x[..i]) * lo * pn + x[i] * pi * lo * pn;
      { MulAssoc(x[i], pi, lo); MulComm(pi, lo); MulAssoc(x[i], lo, pi); MulAssoc(x[i] * lo, pi, pn); MulComm(pi, pn); }
      Val(x[..i]) * lo * pn + x[i] * lo * p;
    }
  }

  /** A 64-bit unsigned subtraction, with the borrow read off bit 32 of the wrapped result. */
  lemma WrapSub(d: int)
    requires -0x1_0000_0000 <= d < 0x1_0000_0000
    ensures var y := d % 0x1_0000_0000_0000_0000;
      (y / BASE) % 2 == (if d < 0 then 1 else 0) && y % BASE == (if d < 0 then d + BASE else d)
  {
    var y := d % 0x1_0000_0000_0000_0000;
    if d < 0 {
      assert y == d + 0x1_0000_0000_0000_0000;
      DivUnique(y, BASE, 0xFFFF_FFFF, d + BASE);
    } else {
      assert y == d;
    }
  }

  ghost predicate SubMulInv(o: seq<Limb>, b: seq<Limb>, s: seq<Limb>, i: nat, q: nat, borrow: nat, carry: nat)
  {
    && |b| == |o| && i <= |b| && i <= |s|
    && b[i..] == o[i..]
    && Val(b[..i]) + Val(s[..i]) * q == Val(o[..i]) + (borrow + carry) * Pow(BASE, i)
  }

  lemma SubMulAdvance(o: seq<Limb>, b: seq<Limb>, s: seq<Limb>, i: nat, q: nat, borrow: nat, carry: nat,
                      ys: nat, y: nat)
    requires SubMulInv(o, b, s, i, q, borrow, carry) && i < |b| && i < |s|
    requires borrow <= 1 && carry < BASE && q < BASE
    requires ys == s[i] * q + carry
    requires y == (b[i] - ys % BASE - borrow) % 0x1_0000_0000_0000_0000
    ensures ys < 0x1_0000_0000_0000_0000 && ys / BASE < BASE
    ensures SubMulInv(o, b[i := y % BASE], s, i + 1, q, (y / BASE) % 2, ys / BASE)
  {
    assert b[i] == b[i..][0] == o[i..][0] == o[i];
    MulLe(s[i], BASE - 1, q);
    MulLe(q, BASE - 1, BASE - 1);
    WrapSub(b[i] - ys % BASE - borrow);
    SubMulStep(o, s, i, q, Val(b[..i]), borrow, carry, ys, y);
    ValPut(b, i, y % BASE);
    assert b[i := y % BASE][i + 1..] == b[i..][1..] == o[i..][1..] == o[i + 1..];
  }

  lemma SubMulDone(o: seq<Limb>, b: seq<Limb>, s: seq<Limb>, n: nat, q: nat, borrow: nat, carry: nat)
    requires SubMulInv(o, b, s, n, q, borrow, carry)
    requires Val(s[..n]) * q <= Val(o[..n])
    ensures Val(b[..n]) == Val(o[..n]) - Val(s[..n]) * q
  {
    NoOverflow(b[..n], borrow + carry, Val(o[..n]) - Val(s[..n]) * q);
  }

  /** One limb of b - S * q. */
  method SubMulLimb(ghost o: seq<Limb>, b: array<Limb>, ghost s: seq<Limb>, si: Limb, i: nat, q: nat, borrow: nat, carry: nat)
    returns (borrow': nat, carry': nat)
    requires i < b.Length && i < |s| && si == s[i]
    requires borrow <= 1 && carry < BASE && q < BASE
    requires SubMulInv(o, b[..], s, i, q, borrow, carry)
    modifies b
    ensures borrow' <= 1 && carry' < BASE
    ensures SubMulInv(o, b[..], s, i + 1, q, borrow', carry')
  {
    hide Val, Pow, SubMulInv;
    ghost var before := b[..];
    var ys := si * q + carry;
    var y := (b[i] - ys % BASE - borrow) % 0x1_0000_0000_0000_0000;
    SubMulAdvance(o, before, s, i, q, borrow, carry, ys, y);
    carry' := ys / BASE;
    borrow' := (y / BASE) % 2;
    var w: Limb := y % BASE;
    b[i] := w;
    assert b[..] == before[i := w];
  }

  /** The subtraction loops of quorem: b := b - S * q in place over n limbs, never borrowing out
      of the top limb when S * q fits into b. */
  method SubMulLimbs(b: array<Limb>, s: array<Limb>, n: nat, q: nat)
    requires b != s && n <= b.Length && n <= s.Length && q < BASE
    requires Val(s[..n]) * q <= Val(b[..n])
    modifies b
    ensures Val(b[..n]) == old(Val(b[..n])) - Val(s[..n]) * q
    ensures b[n..] == old(b[n..])
  {
    var borrow: nat, carry: nat := 0, 0;
    var i := 0;
    ghost var o, ss := b[..], s[..];
    while i < n
      invariant i <= n
      invariant borrow <= 1 && carry < BASE
      invariant SubMulInv(o, b[..], ss, i, q, borrow, carry)
    {
      borrow, carry := SubMulLimb(o, b, ss, s[i], i, q, borrow, carry);
      i := i + 1;
    }
    assert b[..][..n] == b[..n] && ss[..n] == s[..n] && o[..n] == old(b[..n]);
    assert b[..][n..] == b[n..] && o[n..] == old(b[n..]);
    SubMulDone(o, b[..], ss, n, q, borrow, carry);
  }

  /** What fits into n limbs leaves nothing above them. */
  lemma NoOverflow(s: seq<Limb>, c: nat, v: int)
    requires Val(s) == v + c * Pow(BASE, |s|) && 0 <= v
    ensures c == 0
  {
    ValBound(s);
    if c > 0 {
      MulLe(1, c, Pow(BASE, |s|));
      assert false;
    }
  }

  lemma SubMulStep(b0: seq<Limb>, s: seq<Limb>, i: nat, q: nat, v: nat, borrow: nat, carry: nat, ys: nat, y: nat)
    requires i < |b0| && i < |s|
    requires v + Val(s[..i]) * q == Val(b0[..i]) + (borrow + carry) * Pow(BASE, i)
    requires ys == s[i] * q + carry && borrow <= 1
    requires (y / BASE) % 2 == (if b0[i] - ys % BASE - borrow < 0 then 1 else 0)
    requires y % BASE == b0[i] - ys % BASE - borrow + (y / BASE) % 2 * BASE
    ensures v + (y % BASE) * Pow(BASE, i) + Val(s[..i + 1]) * q
         == Val(b0[..i + 1]) + ((y / BASE) % 2 + ys / BASE) * Pow(BASE, i + 1)
  {
    ValPrefix(b0, i);
    ValPrefix(s, i);
    var p := Pow(BASE, i);
    var c', w', lo, d := ys / BASE, (y / BASE) % 2, ys % BASE, y % BASE;
    assert s[i] * q == c' * BASE + lo - carry;
    assert d + s[i] * q == b0[i] - borrow - carry + (w' + c') * BASE;
    Distribute(Val(s[..i]), s[i] * p, q);
    assert s[i] * p * q == s[i] * q * p by {
      MulAssoc(s[i], p, q);
      MulComm(p, q);
      MulAssoc(s[i], q, p);
    }
    Distribute(d, s[i] * q, p);
    MulAssoc(w' + c', BASE, p);
    Distribute(b0[i] - (borrow + carry), (w' + c') * BASE, p);
    Distribute(b0[i] - (borrow + carry), borrow + carry, p);
  }

  function PadLimb(b: seq<Limb>, i: nat): Limb
  {
    if i < |b| then b[i] else 0
  }

  ghost predicate SubInv(a: seq<Limb>, b: seq<Limb>, c: seq<Limb>, i: nat, borrow: nat)
  {
    && i <= |a| && i <= |c|
    && Val(c[..i]) + Val(b[..if i < |b| then i else |b|]) == Val(a[..i]) + borrow * Pow(BASE, i)
  }

  lemma SubAdvance(a: seq<Limb>, b: seq<Limb>, c: seq<Limb>, i: nat, borrow: nat, y: nat)
    requires SubInv(a, b, c, i, borrow) && i < |a| && i < |c| && borrow <= 1
    requires y == (a[i] - PadLimb(b, i) - borrow) % 0x1_0000_0000_0000_0000
    ensures SubInv(a, b, c[i := y % BASE], i + 1, (y / BASE) % 2)
  {
    WrapSub(a[i] - PadLimb(b, i) - borrow);
    ValPrefix(a, i);
    if i < |b| {
      ValPrefix(b, i);
    }
    SubStep(a[i], PadLimb(b, i), borrow, y % BASE, (y / BASE) % 2, Pow(BASE, i));
    ValPut(c, i, y % BASE);
  }

  /** One subtraction step of diff, with the borrow out. */
  method SubLimb(ghost a: seq<Limb>, ghost b: seq<Limb>, ai: Limb, bi: Limb, c: array<Limb>, i: nat, borrow: nat)
    returns (borrow': nat)
    requires i < |a| && i < c.Length && ai == a[i] && bi == PadLimb(b, i) && borrow <= 1
    requires SubInv(a, b, c[..], i, borrow)
    modifies c
    ensures SubInv(a, b, c[..], i + 1, borrow') && borrow' <= 1
  {
    ghost var before := c[..];
    var y := (ai - bi - borrow) % 0x1_0000_0000_0000_0000;
    SubAdvance(a, b, before, i, borrow, y);
    borrow' := (y / BASE) % 2;
    var w: Limb := y % BASE;
    c[i] := w;
    assert c[..] == before[i := w];
  }

  lemma SubStart(a: seq<Limb>, b: seq<Limb>, c: seq<Limb>)
    ensures SubInv(a, b, c, 0, 0)
  {
  }

  lemma SubDone(a: seq<Limb>, b: seq<Limb>, c: seq<Limb>, borrow: nat)
    requires SubInv(a, b, c, |a|, borrow) && |b| <= |a|
    requires Val(b) <= Val(a)
    ensures Val(c[..|a|]) == Val(a) - Val(b)
  {
    assert a[..|a|] == a && b[..|b|] == b;
    NoOverflow(c[..|a|], borrow, Val(a) - Val(b));
  }

  /** diff's limb loops: c := a - b for b <= a, b padded with zeros up to the length of a. */
  method SubLimbs(a: array<Limb>, wa: nat, b: array<Limb>, wb: nat, c: array<Limb>)
    requires c != a && c != b && wb <= wa
    requires wa <= a.Length && wb <= b.Length && wa <= c.Length
    requires Val(b[..wb]) <= Val(a[..wa])
    modifies c
    ensures Val(c[..wa]) == Val(a[..wa]) - Val(b[..wb])
  {
    var borrow: nat := 0;
    var i := 0;
    ghost var av, bv := a[..wa], b[..wb];
    SubStart(av, bv, c[..]);
    while i < wb
      invariant i <= wb && 0 <= borrow <= 1
      invariant SubInv(av, bv, c[..], i, borrow)
    {
      borrow := SubLimb(av, bv, a[i], b[i], c, i, borrow);
      i := i + 1;
    }
    while i < wa
      invariant wb <= i <= wa && 0 <= borrow <= 1
      invariant SubInv(av, bv, c[..], i, borrow)
    {
      borrow := SubLimb(av, bv, a[i], 0, c, i, borrow);
      i := i + 1;
    }
    SubDone(av, bv, c[..], borrow);
    assert c[..][..wa] == c[..wa];
  }

  lemma SubStep(x: int, y: int, borrow: int, d: int, w: int, p: nat)
    requires d == x - y - borrow + w * BASE
    ensures d * p + y * p == x * p - borrow * p + w * (BASE * p)
  {
    MulAssoc(w, BASE, p);
    Distribute(x - y - borrow, w * BASE, p);
    Distribute(x - y, -borrow, p);
    Distribute(x - y, y, p);
  }

  /** The comparison loop of cmp, from the top limb down. */
  method CompareLimbs(a: array<Limb>, b: array<Limb>, n: nat) returns (r: int)
    requires n <= a.Length && n <= b.Length
    ensures r < 0 <==> Val(a[..n]) < Val(b[..n])
    ensures r == 0 <==> Val(a[..n]) == Val(b[..n])
  {
    var i := n;
    while i > 0 && a[i - 1] == b[i - 1]
      invariant 0 <= i <= n
      invariant Val(a[..n]) - Val(a[..i]) == Val(b[..n]) - Val(b[..i])
    {
      ValPrefix(a[..], i - 1);
      ValPrefix(b[..], i - 1);
      assert a[..][..i - 1] == a[..i - 1] && a[..][..i] == a[..i];
      assert b[..][..i - 1] == b[..i - 1] && b[..][..i] == b[..i];
      i := i - 1;
    }
    if i == 0 {
      return 0;
    }
    r := if a[i - 1] < b[i - 1] then -1 else 1;
    TopDecides(a[..i], b[..i]);
  }

  lemma TopDecides(s: seq<Limb>, t: seq<Limb>)
    requires |s| == |t| > 0
    ensures s[|s| - 1] < t[|s| - 1] ==> Val(s) < Val(t)
    ensures t[|s| - 1] < s[|s| - 1] ==> Val(t) < Val(s)
  {
    ValTop(s);
    ValTop(t);
    var n := |s| - 1;
    if s[n] < t[n] {
      MulLe(s[n] + 1, t[n], Pow(BASE, n));
    } else if t[n] < s[n] {
      MulLe(t[n] + 1, s[n], Pow(BASE, n));
    }
  }
}
