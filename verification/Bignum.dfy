/**
 The Bigint operations of dtoa.c. Limbs live in arrays that the operations update in place;
 `Heap` keeps the two pieces of static state they share: which blocks are currently handed out
 (what the allocator of module `Pool` maintains) and the persistent chain of powers of five.
 */
module Bignum {
  import opened Arith
  import opened Limbs

  class Bigint {
    var next: Bigint?
    const k: nat
    var sign: nat
    var wds: nat
    const x: array<Limb>
    /** Handed out by Balloc, not yet given back, and no node of the p5s chain. */
    ghost var live: bool

    constructor (k: nat)
      ensures this.k == k && x.Length == Pow2(k) && fresh(x)
      ensures sign == 0 && wds == 0 && live
    {
      this.k := k;
      next := null;
      sign, wds, live := 0, 0, true;
      x := new Limb[Pow2(k)];
    }

    /** A number in one of the forms the functions leave behind: no leading zero limb, and zero
        either as one zero limb or, after quorem by a one-limb divisor, as no limb at all. */
    ghost predicate Number()
      reads this`wds, x
    {
      && x.Length == Pow2(k) && wds <= x.Length && 0 < x.Length
      && (wds == 0 ==> x[0] == 0)
      && Normal(x[..wds])
    }

    ghost predicate Good()
      reads this`wds, x
    {
      Number() && wds > 0
    }

    ghost function V(): nat
      requires Number()
      reads this`wds, x
    {
      Val(x[..wds])
    }
  }

  // ----- size and value of normalised numbers

  lemma NormalBounds(s: seq<Limb>)
    requires Normal(s)
    ensures Val(s) < Pow(BASE, |s|)
    ensures |s| > 1 ==> Val(s) >= Pow(BASE, |s| - 1)
  {
    ValBound(s);
    if |s| > 1 {
      NormalTop(s);
    }
  }

  /** A number of at least BASE^(n-1) has a nonzero n-th limb. */
  lemma TopNonzero(s: seq<Limb>)
    requires s != [] && Val(s) >= Pow(BASE, |s| - 1)
    ensures s[|s| - 1] != 0
  {
    ValBound(s[..|s| - 1]);
  }

  lemma LongerIsLarger(s: seq<Limb>, t: seq<Limb>)
    requires Normal(s) && Normal(t) && |s| < |t|
    ensures Val(s) < Val(t) || (s == [] && |t| == 1)
  {
    NormalBounds(s);
    NormalBounds(t);
    if |t| > 1 {
      PowMonotone(BASE, |s|, |t| - 1);
    }
  }

  lemma MulGrows(v: nat, m: nat, a: nat, p: nat)
    requires v >= p && m > 0
    ensures v * m + a >= p
  {
    MulLe(1, m, v);
  }

  class Heap {
    var p5s: Bigint?
    ghost var cache: seq<Bigint>
    ghost var outstanding: int

    constructor ()
      ensures p5s == null && cache == [] && outstanding == 0
    {
      p5s, cache, outstanding := null, [], 0;
    }

    /** The j-th node of the p5s chain holds 5^(4 * 2^j) and is in nobody else's hands. */
    ghost predicate NodeOk(j: nat)
      requires j < |cache|
      reads this`p5s, this`cache, cache, set p | p in cache :: p.x
    {
      var p := cache[j];
      && !p.live
      && p.next == (if j + 1 < |cache| then cache[j + 1] else null)
      && p.Good() && p.V() == Pow(5, 4 * Pow2(j))
    }

    ghost predicate Valid()
      reads this`p5s, this`cache, cache, set p | p in cache :: p.x
    {
      && p5s == (if cache == [] then null else cache[0])
      && forall j :: 0 <= j < |cache| ==> NodeOk(j)
    }

    ghost function Nodes(): set<Bigint>
      reads this`cache
    {
      set p | p in cache
    }

    /** A block that is no cached power and shares no limbs with one. */
    ghost predicate Apart(b: Bigint)
      reads this`cache
    {
      forall p :: p in cache ==> p != b && p.x != b.x
    }

    /** A block that may be read: it is in someone's hands, or a cached power. */
    ghost predicate Held(b: Bigint)
      reads this`cache, b`live
    {
      b.live || b in cache
    }

    /** Hands out a block that no live block shares. */
    method Balloc(k: nat) returns (b: Bigint)
      modifies this`outstanding
      ensures fresh(b) && fresh(b.x) && b.k == k && b.x.Length == Pow2(k)
      ensures b.sign == 0 && b.wds == 0
      ensures b.live && outstanding == old(outstanding) + 1
    {
      b := new Bigint(k);
      outstanding := outstanding + 1;
    }

    method Bfree(b: Bigint)
      requires b.live
      modifies this`outstanding, b`live
      ensures !b.live && outstanding == old(outstanding) - 1
    {
      b.live := false;
      outstanding := outstanding - 1;
    }

    /** Bcopy into a block of twice the size. */
    method Grow(b: Bigint) returns (r: Bigint)
      requires b.live && b.x.Length == Pow2(b.k) && b.wds <= b.x.Length
      modifies this`outstanding, b`live
      ensures fresh(r) && fresh(r.x) && r.k == b.k + 1 && r.x.Length == Pow2(r.k)
      ensures r.sign == b.sign && r.wds == b.wds && r.x[..r.wds] == b.x[..b.wds]
      ensures r.live && outstanding == old(outstanding)
    {
      r := Balloc(b.k + 1);
      r.sign, r.wds := b.sign, b.wds;
      CopyLimbs(b.x, b.wds, r.x);
      Bfree(b);
    }

    method CopyLimbs(x: array<Limb>, n: nat, y: array<Limb>)
      requires x != y && n <= x.Length && n <= y.Length
      modifies y
      ensures y[..n] == x[..n]
    {
      var i := 0;
      while i < n
        invariant i <= n && y[..i] == x[..i]
      {
        y[i] := x[i];
        i := i + 1;
      }
    }

    /** b * m + a, in place unless the carry needs a larger block. */
    method Multadd(b: Bigint, m: nat, a: nat) returns (r: Bigint)
      requires b.live && b.Number() && (b.wds == 0 ==> a == 0)
      requires 0 < m < 0x8000_0000 && a < 0x8000_0000
      modifies this`outstanding, b`live, b`wds, b.x
      ensures r == b || (fresh(r) && fresh(r.x))
      ensures r.Number() && r.V() == old(b.V()) * m + a
      ensures old(b.wds) > 0 ==> r.wds > 0
      ensures r.live && outstanding == old(outstanding)
    {
      var wds := b.wds;
      ghost var v := b.V();
      NormalBounds(b.x[..wds]);
      r := b;
      if wds == 0 {
        OneLimb(b.x[..1]);
        var c := MulAddLimbs(b.x, 1, m, a);
        assert b.x[..1] == [b.x[0]];
        OneLimb(b.x[..1]);
        assert b.x[..0] == [];
        return;
      }
      var carry := MulAddLimbs(b.x, wds, m, a);
      if wds > 1 {
        MulGrows(v, m, a, Pow(BASE, wds - 1));
      }
      if carry != 0 {
        if wds >= b.x.Length {
          r := Grow(b);
        }
        PutTop(r, wds, carry);
      } else if wds > 1 {
        TopNonzero(b.x[..wds]);
      }
    }

    /** b->x[wds++] = carry; b->wds = wds */
    method PutTop(b: Bigint, wds: nat, carry: Limb)
      requires b.live && b.x.Length == Pow2(b.k) && wds < b.x.Length && carry != 0
      modifies b`wds, b.x
      ensures b.Good()
      ensures b.V() == old(Val(b.x[..wds])) + carry * Pow(BASE, wds)
    {
      ghost var s := b.x[..];
      b.x[wds] := carry;
      b.wds := wds + 1;
      assert b.x[..] == s[wds := carry];
      ValPut(s, wds, carry);
      assert b.x[..][..wds + 1] == b.x[..b.wds] && s[..wds] == old(b.x[..wds]);
    }

    method I2b(i: Limb) returns (b: Bigint)
      modifies this`outstanding
      ensures fresh(b) && fresh(b.x) && b.Good() && b.V() == i
      ensures b.live && outstanding == old(outstanding) + 1
    {
      b := Balloc(1);
      b.x[0] := i;
      b.wds := 1;
      OneLimb(b.x[..1]);
    }

    /** a * b for a not shorter than b. */
    method MultLonger(a: Bigint, b: Bigint) returns (c: Bigint)
      requires Held(a) && Held(b) && a.Good() && b.Good() && a.V() > 0 && b.V() > 0 && b.wds <= a.wds
      modifies this`outstanding
      ensures fresh(c) && fresh(c.x) && c.Good() && c.V() == a.V() * b.V()
      ensures c.live && outstanding == old(outstanding) + 1
    {
      var k, wc := a.k, a.wds + b.wds;
      if wc > a.x.Length {
        k := k + 1;
      }
      c := Balloc(k);
      MulLimbs(a.x, a.wds, b.x, b.wds, c.x);
      MulPositive(a.V(), b.V());
      wc := Trim(c.x, wc);
      c.wds := wc;
    }

    /** The product of two nonzero numbers, in a block chosen by the longer one. */
    method Mult(a: Bigint, b: Bigint) returns (c: Bigint)
      requires Held(a) && Held(b) && a.Good() && b.Good() && a.V() > 0 && b.V() > 0
      modifies this`outstanding
      ensures fresh(c) && fresh(c.x) && c.Good() && c.V() == a.V() * b.V()
      ensures c.live && outstanding == old(outstanding) + 1
    {
      if a.wds < b.wds {
        c := MultLonger(b, a);
        MulComm(a.V(), b.V());
      } else {
        c := MultLonger(a, b);
      }
    }

    /** The chain gets its first node. */
    method FirstPower()
      requires Valid() && p5s == null
      modifies this
      ensures Valid() && |cache| == 1 && outstanding == old(outstanding)
      ensures fresh(cache[0]) && fresh(cache[0].x)
    {
      p5s := I2b(625);
      p5s.next := null;
      cache := [p5s];
      p5s.live := false;
      outstanding := outstanding - 1;
      assert Pow(5, 4) == 625 by { assert Pow(5, 2) == 25; PowAdd(5, 2, 2); }
      assert Pow2(0) == 1;
      assert NodeOk(0);
    }

    /** The chain gets one more node, the square of its last. */
    method NextPower(last: Bigint)
      requires Valid() && |cache| > 0 && last == cache[|cache| - 1]
      modifies this, last`next
      ensures Valid() && outstanding == old(outstanding)
      ensures |cache| == |old(cache)| + 1 && cache[..|old(cache)|] == old(cache)
      ensures fresh(cache[|old(cache)|]) && fresh(cache[|old(cache)|].x)
    {
      ghost var n := |cache|;
      assert NodeOk(n - 1);
      var sq := Mult(last, last);
      last.next := sq;
      sq.next := null;
      cache := cache + [sq];
      sq.live := false;
      outstanding := outstanding - 1;
      forall j | 0 <= j < |cache| ensures NodeOk(j) {
        if j < n {
          assert old(NodeOk(j));
        } else {
          PowAdd(5, 4 * Pow2(n - 1), 4 * Pow2(n - 1));
        }
      }
    }

    /** New blocks leave the chain as it is. */
    twostate lemma SameNodes()
      requires old(Valid()) && cache == old(cache) && p5s == old(p5s)
      requires forall p :: p in cache ==> unchanged(p) && unchanged(p.x)
      ensures Valid()
    {
      forall j | 0 <= j < |cache| ensures NodeOk(j) {
        assert old(NodeOk(j));
      }
    }

    /** b * 5^k for k < 4, from the table 5, 25, 125. */
    method SmallPow5(b: Bigint, k: nat) returns (r: Bigint)
      requires b.live && b.Good() && b.V() > 0 && k < 4
      modifies this`outstanding, b`live, b`wds, b.x
      ensures r.Good() && r.V() == old(b.V()) * Pow(5, k)
      ensures r == b || (fresh(r) && fresh(r.x))
      ensures r.live && outstanding == old(outstanding)
    {
      r := b;
      assert Pow(5, 1) == 5 && Pow(5, 2) == 25 && Pow(5, 3) == 125;
      if k != 0 {
        r := Multadd(b, [5, 25, 125][k - 1], 0);
      }
    }

    /** b * p for a cached power p, which stays; b is freed. */
    method TimesCached(b: Bigint, p: Bigint) returns (r: Bigint)
      requires Valid() && b.live && b.Good() && b.V() > 0 && Apart(b)
      requires p in cache && p.Good() && p.V() > 0
      modifies this`outstanding, b`live
      ensures Valid()
      ensures fresh(r) && fresh(r.x) && r.Good() && r.V() == b.V() * p.V()
      ensures r.live && outstanding == old(outstanding)
    {
      r := Mult(b, p);
      Bfree(b);
      MulPositive(b.V(), p.V());
      forall j | 0 <= j < |cache| ensures NodeOk(j) {
        assert old(NodeOk(j));
      }
    }

    /** b * 5^k. The chain may grow on the way; the powers already in it stay as they are. */
    method Pow5mult(b: Bigint, k: nat) returns (r: Bigint)
      requires Valid() && b.live && b.Good() && b.V() > 0 && Apart(b)
      modifies this, Nodes()`next, b`live, b`wds, b.x
      ensures Valid() && old(cache) <= cache
      ensures forall q :: q in Nodes() ==> q in old(Nodes()) || (fresh(q) && fresh(q.x))
      ensures r.Good() && r.V() == old(b.V()) * Pow(5, k) && r.V() > 0 && Apart(r)
      ensures r == b || (fresh(r) && fresh(r.x))
      ensures r.live && outstanding == old(outstanding)
    {
      ghost var v := b.V();
      r := SmallPow5(b, k % 4);
      forall j | 0 <= j < |cache| ensures NodeOk(j) {
        assert old(NodeOk(j));
      }
      MulPositive(v, Pow(5, k % 4));
      var e := k / 4;
      Pow5Split(v, k);
      if e == 0 {
        return;
      }
      if p5s == null {
        FirstPower();
      }
      assert NodeOk(0);
      r := Pow5Loop(r, p5s, e);
    }

    /** The next node of the chain, squared into being if it is not there yet. */
    method NextNode(p: Bigint, ghost j: nat) returns (q: Bigint)
      requires Valid() && j < |cache| && p == cache[j]
      modifies this, Nodes()`next
      ensures Valid() && old(cache) <= cache && outstanding == old(outstanding)
      ensures forall q :: q in cache ==> q in old(cache) || (fresh(q) && fresh(q.x))
      ensures j + 1 < |cache| && q == cache[j + 1]
    {
      assert NodeOk(j);
      if p.next == null {
        NextPower(p);
        assert NodeOk(j);
      }
      q := p.next;
    }

    /** One bit of the exponent: multiply by the node if it is set, move on if more are left. */
    method Pow5Bit(b: Bigint, p: Bigint, ghost j: nat, e: nat) returns (r: Bigint, q: Bigint)
      requires Valid() && b.live && b.Good() && b.V() > 0 && Apart(b)
      requires j < |cache| && p == cache[j] && e > 0
      modifies this, b`live, Nodes()`next
      ensures Valid() && old(cache) <= cache
      ensures forall q :: q in cache ==> q in old(cache) || (fresh(q) && fresh(q.x))
      ensures r.Good() && r.V() > 0 && Apart(r)
      ensures BySquaring(r.V(), j + 1, e / 2) == BySquaring(old(b.V()), j, e)
      ensures r == b || (fresh(r) && fresh(r.x))
      ensures r.live && outstanding == old(outstanding)
      ensures e / 2 > 0 ==> j + 1 < |cache| && q == cache[j + 1]
    {
      r, q := b, p;
      assert NodeOk(j);
      if e % 2 == 1 {
        r := TimesCached(b, p);
      }
      if e / 2 > 0 {
        q := NextNode(p, j);
      }
    }

    method Pow5Loop(b: Bigint, p: Bigint, k: nat) returns (r: Bigint)
      requires Valid() && b.live && b.Good() && b.V() > 0 && Apart(b)
      requires cache != [] && p == cache[0] && k > 0
      modifies this, b`live, Nodes()`next
      ensures Valid() && old(cache) <= cache
      ensures forall q :: q in Nodes() ==> q in old(Nodes()) || (fresh(q) && fresh(q.x))
      ensures r.Good() && r.V() == old(b.V()) * Pow(5, 4 * k) && r.V() > 0 && Apart(r)
      ensures r == b || (fresh(r) && fresh(r.x))
      ensures r.live && outstanding == old(outstanding)
    {
      ghost var v := b.V();
      var p5, e := p, k;
      ghost var j: nat := 0;
      r := b;
      while e > 0
        invariant Valid() && old(cache) <= cache
        invariant forall q :: q in cache ==> q in old(cache) || (fresh(q) && fresh(q.x))
        invariant r.live && outstanding == old(outstanding)
        invariant r == b || (fresh(r) && fresh(r.x))
        invariant r.Good() && r.V() > 0 && Apart(r)
        invariant e >= 0 && (e > 0 ==> j < |cache| && p5 == cache[j])
        invariant BySquaring(r.V(), j, e) == BySquaring(v, 0, k)
      {
        r, p5 := Pow5Bit(r, p5, j, e);
        e, j := e / 2, j + 1;
      }
      BySquaringIsPower(v, 0, k);
    }

    /** b * 2^k in a new block large enough for every bit. */
    method Lshift(b: Bigint, k: nat) returns (r: Bigint)
      requires b.live && b.Good() && b.V() > 0
      modifies this`outstanding, b`live
      ensures fresh(r) && fresh(r.x) && r.Good() && r.V() == b.V() * Pow2(k)
      ensures r.live && outstanding == old(outstanding)
    {
      var n := k / 32;
      var k1, n1, i := b.k, n + b.wds + 1, b.x.Length;
      while n1 > i
        invariant i == Pow2(k1) && i > 0
        decreases n1 - i
      {
        i, k1 := i * 2, k1 + 1;
      }
      r := Balloc(k1);
      ShiftInto(b, n, k % 32, r);
      ShiftSplit(b.V(), k);
      Bfree(b);
    }

    method ShiftInto(b: Bigint, n: nat, k: nat, r: Bigint)
      requires b.live && r.live && b.Good() && b.V() > 0 && k < 32 && b != r && b.x != r.x
      requires r.x.Length == Pow2(r.k) && n + b.wds < r.x.Length
      modifies r`wds, r.x
      ensures r.Good() && r.V() == b.V() * Pow2(k) * Pow(BASE, n)
    {
      ClearLimbs(r.x, n);
      if k != 0 {
        var z := ShiftLimbs(b.x, b.wds, k, r.x, n);
        if z != 0 {
          r.wds := n + b.wds + 1;
        } else {
          DropTop(r.x[..n + b.wds + 1]);
          assert r.x[..n + b.wds + 1][..n + b.wds] == r.x[..n + b.wds];
          ShiftedTop(b.x[..b.wds], n, Pow2(k), r.x[..n + b.wds]);
          r.wds := n + b.wds;
        }
      } else {
        MoveLimbs(b.x, b.wds, r.x, n);
        ShiftedTop(b.x[..b.wds], n, 1, r.x[..n + b.wds]);
        r.wds := n + b.wds;
      }
    }

    method MoveLimbs(x: array<Limb>, wds: nat, y: array<Limb>, n: nat)
      requires x != y && wds <= x.Length && n + wds <= y.Length
      requires forall i :: 0 <= i < n ==> y[i] == 0
      modifies y
      ensures Val(y[..n + wds]) == Val(x[..wds]) * Pow(BASE, n)
    {
      for i := 0 to wds
        invariant forall j :: 0 <= j < n ==> y[j] == 0
        invariant y[n..n + i] == x[..i]
      {
        y[n + i] := x[i];
      }
      ValZeros(y[..n]);
      ValConcat(y[..n], y[n..n + wds]);
      assert y[..n + wds] == y[..n] + y[n..n + wds];
    }

    /** The order of two numbers: first by length, then limb by limb from the top. */
    method Cmp(a: Bigint, b: Bigint) returns (r: int)
      requires Held(a) && Held(b) && a.Number() && b.Number() && (a.wds > 0 || b.wds > 0)
      ensures a.wds == 0 ==> r < 0
      ensures b.wds == 0 ==> r > 0
      ensures a.wds > 0 && b.wds > 0 ==> (r < 0 <==> a.V() < b.V()) && (r == 0 <==> a.V() == b.V())
    {
      if a.wds != b.wds {
        if a.wds < b.wds {
          LongerIsLarger(a.x[..a.wds], b.x[..b.wds]);
        } else {
          LongerIsLarger(b.x[..b.wds], a.x[..a.wds]);
        }
        return a.wds - b.wds;
      }
      r := CompareLimbs(a.x, b.x, a.wds);
    }

    /** a - b for b < a. */
    method Subtract(a: Bigint, b: Bigint) returns (c: Bigint)
      requires Held(a) && Held(b) && a.Good() && b.Good() && b.V() < a.V()
      modifies this`outstanding
      ensures fresh(c) && fresh(c.x) && c.Good() && c.V() == a.V() - b.V() && c.sign == 0
      ensures c.live && outstanding == old(outstanding) + 1
    {
      LongerOrSame(a.x[..a.wds], b.x[..b.wds]);
      c := Balloc(a.k);
      SubLimbs(a.x, a.wds, b.x, b.wds, c.x);
      var w := Trim(c.x, a.wds);
      c.wds := w;
    }

    /** |a - b|, with the sign of the difference in the sign field. */
    method Diff(a: Bigint, b: Bigint) returns (c: Bigint)
      requires Held(a) && Held(b) && a.Good() && b.Good()
      modifies this`outstanding
      ensures fresh(c) && fresh(c.x) && c.Good()
      ensures c.V() == (if a.V() < b.V() then b.V() - a.V() else a.V() - b.V())
      ensures c.sign == if a.V() < b.V() then 1 else 0
      ensures c.live && outstanding == old(outstanding) + 1
    {
      var i := Cmp(a, b);
      if i == 0 {
        c := Balloc(0);
        c.wds := 1;
        c.x[0] := 0;
        OneLimb(c.x[..1]);
      } else if i < 0 {
        c := Subtract(b, a);
        c.sign := 1;
      } else {
        c := Subtract(a, b);
      }
    }

    /** One of the two subtractions of quorem: b := b - S * q, and the leading zeros dropped. */
    method SubtractMultiple(b: Bigint, S: Bigint, q: nat)
      requires b.live && Held(S) && b.Good() && S.Good() && b != S && b.x != S.x && b.wds == S.wds
      requires S.V() * q <= b.V() && q < BASE
      modifies b`wds, b.x
      ensures b.Number() && b.V() == old(b.V()) - S.V() * q
      ensures b.wds <= S.wds
    {
      var n := S.wds - 1;
      SubMulLimbs(b.x, S.x, n + 1, q);
      if b.x[n] == 0 {
        DropTop(b.x[..n + 1]);
        assert b.x[..n + 1][..n] == b.x[..n];
        var w := TrimDown(b.x, n);
        b.wds := w;
      }
    }

    method Divide(u: nat, d: nat) returns (q: nat, ghost r: nat)
      requires d > 0
      ensures u == q * d + r && r < d
    {
      q := u / d;
      r := u % d;
    }

    /** The first half of quorem: the estimate and its multiple of S taken off. */
    method QuoremEstimate(b: Bigint, S: Bigint) returns (q: nat)
      requires b.live && Held(S) && b.Good() && S.Good() && b != S && b.x != S.x && b.wds == S.wds
      requires 0x800_0000 <= S.x[S.wds - 1]
      requires b.V() < 10 * S.V()
      modifies b`wds, b.x
      ensures b.Number() && b.wds <= S.wds
      ensures q < 10 && b.V() == old(b.V()) - S.V() * q && b.V() < 2 * S.V()
    {
      ghost var r;
      q, r := Divide(b.x[S.wds - 1], S.x[S.wds - 1] as nat + 1);
      QuotientEstimate(b.x[..S.wds], S.x[..S.wds], q, r);
      if q != 0 {
        SubtractMultiple(b, S, q);
      }
    }

    /** floor(b / S), with the remainder left in b: the quotient estimated from the two top limbs
        is never too large and at most one too small. */
    method Quorem(b: Bigint, S: Bigint) returns (q: nat)
      requires b.live && Held(S) && b.Number() && S.Good() && b != S && b.x != S.x
      requires 0x800_0000 <= S.x[S.wds - 1] < 0x1000_0000
      requires b.V() < 10 * S.V()
      modifies b`wds, b.x
      ensures b.Number() && old(b.V()) == S.V() * q + b.V() && b.V() < S.V()
      ensures q < 10
    {
      QuoremSizes(b.x[..b.wds], S.x[..S.wds]);
      if b.wds < S.wds {
        return 0;
      }
      ghost var v, s := b.V(), S.V();
      q := QuoremEstimate(b, S);
      var c := Cmp(b, S);
      if c >= 0 {
        LongerOrSame(b.x[..b.wds], S.x[..S.wds]);
        SubtractMultiple(b, S, 1);
        OneMore(v, s, q, b.V());
        q := q + 1;
      }
      QuotientBelow(v, s, q, b.V(), 10);
    }
  }

  lemma OneMore(v: nat, s: nat, q: nat, r: nat)
    requires r + s == v - s * q
    ensures r == v - s * (q + 1)
  {
    Distribute(q, 1, s);
  }

  lemma QuotientBelow(v: nat, s: nat, q: nat, r: nat, m: nat)
    requires v == s * q + r && v < m * s
    ensures q < m
  {
    MulComm(s, q);
    MulCancelLt(q, m, s);
  }

  lemma LongerOrSame(s: seq<Limb>, t: seq<Limb>)
    requires Normal(s) && Normal(t) && s != [] && Val(t) <= Val(s)
    ensures |t| <= |s|
  {
    if |s| < |t| {
      LongerIsLarger(s, t);
    }
  }

  lemma DropTop(s: seq<Limb>)
    requires s != [] && s[|s| - 1] == 0
    ensures Val(s[..|s| - 1]) == Val(s)
  {
  }

  lemma QuoremSizes(b: seq<Limb>, s: seq<Limb>)
    requires Normal(b) && s != [] && 0x800_0000 <= s[|s| - 1] < 0x1000_0000
    requires Val(b) < 10 * Val(s)
    ensures |b| <= |s| && Val(s) > 0
    ensures |b| < |s| ==> Val(b) < Val(s)
  {
    NormalTop(s);
    if |b| > |s| {
      TenfoldFits(s);
      NormalBounds(b);
      PowMonotone(BASE, |s|, |b| - 1);
      assert false;
    }
    if |b| < |s| {
      LongerIsLarger(b, s);
    }
  }

  /** Four leading zero bits leave room for a factor of ten. */
  lemma TenfoldFits(s: seq<Limb>)
    requires s != [] && s[|s| - 1] < 0x1000_0000
    ensures 10 * Val(s) <= Pow(BASE, |s|)
  {
    ValTop(s);
    var p, t: nat := Pow(BASE, |s| - 1), s[|s| - 1];
    MulLe(10 * (t + 1), BASE, p);
    MulAssoc(10, t + 1, p);
  }

  lemma QuotientEstimate(b: seq<Limb>, s: seq<Limb>, q: nat, r: nat)
    requires |b| == |s| > 0 && 0x800_0000 <= s[|s| - 1]
    requires b[|s| - 1] == q * (s[|s| - 1] as nat + 1) + r && r <= s[|s| - 1]
    requires Val(b) < 10 * Val(s)
    ensures Val(s) * q <= Val(b) < Val(s) * q + 2 * Val(s)
    ensures q < 10
  {
    var n := |s| - 1;
    var p, t: nat, u: nat := Pow(BASE, n), s[n], b[n];
    ValBound(s[..n]);
    ValBound(b[..n]);
    EstimateBelow(q, t, u, p, Val(s[..n]), Val(b[..n]));
    MulCancelLt(q, 10, Val(s));
    EstimateAbove(q, t, u, r, p, Val(s[..n]), Val(b[..n]));
  }

  lemma EstimateBelow(q: nat, t: nat, u: nat, p: nat, sl: nat, bl: nat)
    requires q * (t + 1) <= u && sl < p
    ensures (sl + t * p) * q <= bl + u * p
  {
    MulLe(sl + t * p, (t + 1) * p, q);
    MulAssoc(q, t + 1, p);
    MulComm((t + 1) * p, q);
    MulLe(q * (t + 1), u, p);
  }

  lemma EstimateAbove(q: nat, t: nat, u: nat, r: nat, p: nat, sl: nat, bl: nat)
    requires u == q * (t + 1) + r && r <= t && q < 10 && t >= 10
    requires sl < p && bl < p
    ensures bl + u * p < (sl + t * p) * q + 2 * (sl + t * p)
  {
    ExpandTop(q, t, u, r, p);
    ExpandMultiple(q, t, p, sl);
    TopSlack(q, t, r, p);
  }

  lemma ExpandTop(q: nat, t: nat, u: nat, r: nat, p: nat)
    requires u == q * (t + 1) + r
    ensures u * p == q * t * p + q * p + r * p
  {
    Distribute(t, 1, q);
    Distribute(q * t + q, r, p);
    Distribute(q * t, q, p);
  }

  lemma ExpandMultiple(q: nat, t: nat, p: nat, sl: nat)
    ensures (sl + t * p) * q >= q * t * p
  {
    Distribute(sl, t * p, q);
    MulComm(t * p, q);
    MulAssoc(q, t, p);
  }

  lemma TopSlack(q: nat, t: nat, r: nat, p: nat)
    requires r <= t && q < 10 && t >= 10
    ensures q * p + r * p + p <= 2 * (t * p)
  {
    Distribute(q, r, p);
    Distribute(q + r, 1, p);
    MulLe(q + r + 1, 2 * t, p);
    MulAssoc(2, t, p);
  }

  // ----- lshift

  lemma ShiftSplit(v: nat, k: nat)
    ensures v * Pow2(k % 32) * Pow(BASE, k / 32) == v * Pow2(k)
  {
    PowAdd(2, k % 32, 32 * (k / 32));
    PowMul(2, 32, k / 32);
    Pow2Of32();
    MulAssoc(v, Pow2(k % 32), Pow(BASE, k / 32));
  }

  /** A positive number times a positive one shifted by n limbs still reaches its top limb. */
  lemma ShiftedTop(x: seq<Limb>, n: nat, lo: nat, y: seq<Limb>)
    requires x != [] && Normal(x) && Val(x) > 0 && lo > 0
    requires |y| == n + |x| && Val(y) == Val(x) * lo * Pow(BASE, n)
    ensures Normal(y)
  {
    NormalBounds(x);
    assert Val(x) >= Pow(BASE, |x| - 1) by {
      if |x| == 1 { assert Pow(BASE, 0) == 1; }
    }
    MulGrows(Val(x), lo, 0, Pow(BASE, |x| - 1));
    MulLe(Pow(BASE, |x| - 1), Val(x) * lo, Pow(BASE, n));
    PowAdd(BASE, |x| - 1, n);
    TopNonzero(y);
  }

  lemma Pow5Split(v: nat, k: nat)
    ensures v * Pow(5, k % 4) * Pow(5, 4 * (k / 4)) == v * Pow(5, k)
  {
    PowAdd(5, k % 4, 4 * (k / 4));
    MulAssoc(v, Pow(5, k % 4), Pow(5, 4 * (k / 4)));
  }

  /** What the loop of pow5mult makes of v when it has reached node j with exponent bits e left. */
  ghost function BySquaring(v: nat, j: nat, e: nat): nat
    decreases e
  {
    if e == 0 then v
    else BySquaring(if e % 2 == 1 then v * Pow(5, 4 * Pow2(j)) else v, j + 1, e / 2)
  }

  lemma {:induction false} BySquaringIsPower(v: nat, j: nat, e: nat)
    ensures BySquaring(v, j, e) == v * Pow(5, 4 * Pow2(j) * e)
    decreases e
  {
    if e > 0 {
      var n := 4 * Pow2(j);
      assert 4 * Pow2(j + 1) == 2 * n;
      MulAssoc(n, 2, e / 2);
      if e % 2 == 1 {
        BySquaringIsPower(v * Pow(5, n), j + 1, e / 2);
        Distribute(2 * (e / 2), 1, n);
        PowAdd(5, n, 2 * n * (e / 2));
        MulAssoc(v, Pow(5, n), Pow(5, 2 * n * (e / 2)));
      } else {
        BySquaringIsPower(v, j + 1, e / 2);
      }
    }
  }

  // ----- bit counts of a word

  lemma SmallPowers()
    ensures Pow2(0) == 1 && Pow2(1) == 2 && Pow2(2) == 4 && Pow2(4) == 0x10
    ensures Pow2(8) == 0x100 && Pow2(16) == 0x1_0000
  {
    PowAdd(2, 4, 4);
    PowAdd(2, 8, 8);
  }

  lemma ShiftUp(x: nat, k: nat, y: nat, j: nat)
    requires y == x * Pow2(k)
    ensures y * Pow2(j) == x * Pow2(k + j)
  {
    PowAdd(2, k, j);
    MulAssoc(x, Pow2(k), Pow2(j));
  }

  lemma ShiftDown(x: nat, k: nat, y: nat, j: nat, z: nat)
    requires x == y * Pow2(k) && y == z * Pow2(j)
    ensures x == z * Pow2(k + j)
  {
    PowAdd(2, j, k);
    MulAssoc(z, Pow2(j), Pow2(k));
  }

  /** The number of leading zero bits. */
  method Hi0bits(x: Limb) returns (k: nat)
    ensures x == 0 ==> k == 32
    ensures x > 0 ==> k < 32 && 0x8000_0000 <= x * Pow2(k) < 0x1_0000_0000
  {
    k := 0;
    var y: nat := x;
    SmallPowers();
    if y < 0x1_0000 { ShiftUp(x, k, y, 16); k, y := 16, y * 0x1_0000; }
    if y < 0x100_0000 { ShiftUp(x, k, y, 8); k, y := k + 8, y * 0x100; }
    if y < 0x1000_0000 { ShiftUp(x, k, y, 4); k, y := k + 4, y * 0x10; }
    if y < 0x4000_0000 { ShiftUp(x, k, y, 2); k, y := k + 2, y * 4; }
    if y < 0x8000_0000 {
      ShiftUp(x, k, y, 1);
      k := k + 1;
      if y < 0x4000_0000 {
        return 32;
      }
    }
  }

  /** One step of lo0bits: j zero bits, if they are there, are shifted out. */
  method DropZeroBits(ghost x: nat, k: nat, y: nat, j: nat, c: nat) returns (k': nat, y': nat)
    requires x == y * Pow2(k) && c == Pow2(j) && y % (c * c) != 0
    ensures x == y' * Pow2(k') && y' % c != 0 && 0 < y' <= y
    ensures k <= k' <= k + j
  {
    k', y' := k, y;
    if y % c == 0 {
      DivideOut(y, c);
      ShiftDown(x, k, y, j, y / c);
      k', y' := k + j, y / c;
    }
  }

  lemma DivideOut(y: nat, c: nat)
    requires c > 0 && y % c == 0 && y % (c * c) != 0
    ensures y == (y / c) * c && (y / c) % c != 0 && 0 < y / c <= y
  {
    var z := y / c;
    MulPositive(c, c);
    MulLe(1, c, z);
    if z % c == 0 {
      var w := z / c;
      MulAssoc(w, c, c);
      DivUnique(y, c * c, w, 0);
    }
  }

  /** The number of trailing zero bits of a nonzero word, and the word shifted by it. */
  method Lo0bits(x: Limb) returns (k: nat, y: Limb)
    requires x > 0
    ensures k < 32 && x == y * Pow2(k) && y % 2 == 1
  {
    SmallPowers();
    if x % 8 != 0 {
      if x % 2 == 1 {
        return 0, x;
      }
      if x / 2 % 2 == 1 {
        return 1, x / 2;
      }
      return 2, x / 4;
    }
    var z: nat;
    k, z := DropZeroBits(x, 0, x, 16, 0x1_0000);
    k, z := DropZeroBits(x, k, z, 8, 0x100);
    k, z := DropZeroBits(x, k, z, 4, 0x10);
    k, z := DropZeroBits(x, k, z, 2, 4);
    k, z := DropZeroBits(x, k, z, 1, 2);
    y := z;
  }

  lemma LimbPower(n: nat)
    ensures Pow(BASE, n) == Pow2(32 * n)
  {
    PowMul(2, 32, n);
    Pow2Of32();
  }

  /** The leading zero bits of the top limb give the length of a number in bits. */
  lemma BitLength(s: seq<Limb>, h: nat)
    requires s != [] && h < 32 && 0x8000_0000 <= s[|s| - 1] * Pow2(h) < 0x1_0000_0000
    ensures Pow2(32 * |s| - h - 1) <= Val(s) < Pow2(32 * |s| - h)
  {
    var n := |s| - 1;
    TopRange(s[n], h);
    ValTop(s);
    BitsAbove(s[n], Pow2(31 - h), Pow2(32 - h), Pow(BASE, n), Val(s));
    LimbPower(n);
    PowAdd(2, 31 - h, 32 * n);
    PowAdd(2, 32 - h, 32 * n);
  }

  lemma BitsAbove(t: nat, lo: nat, hi: nat, p: nat, v: nat)
    requires lo <= t < hi && t * p <= v < (t + 1) * p
    ensures lo * p <= v < hi * p
  {
    MulLe(lo, t, p);
    MulLe(t + 1, hi, p);
  }

  lemma TopRange(t: nat, h: nat)
    requires h < 32 && 0x8000_0000 <= t * Pow2(h) < 0x1_0000_0000
    ensures Pow2(31 - h) <= t < Pow2(32 - h)
  {
    Pow2Of32();
    PowAdd(2, 31 - h, h);
    PowAdd(2, 32 - h, h);
    MulCancelLe(Pow2(31 - h), t, Pow2(h));
    MulCancelLt(t, Pow2(32 - h), Pow2(h));
  }

  /** A number whose length in bits is 28 modulo 32 has four leading zero bits. */
  lemma FourLeadingZeros(s: seq<Limb>, L: nat)
    requires Normal(s) && s != [] && L > 0 && L % 32 == 28
    requires Pow2(L - 1) <= Val(s) < Pow2(L)
    ensures 0x800_0000 <= s[|s| - 1] < 0x1000_0000
  {
    var n := |s| - 1;
    LimbPower(n);
    LimbPower(n + 1);
    ValBound(s);
    if L > 32 * (n + 1) {
      PowMonotone(2, 32 * (n + 1), L - 1);
      assert false;
    }
    if L <= 32 * n {
      PowMonotone(2, L, 32 * n);
      NormalBounds(s);
      assert false;
    }
    assert L == 32 * n + 28;
    PowAdd(2, 27, 32 * n);
    PowAdd(2, 28, 32 * n);
    PowerTwentySeven();
    ValTop(s);
    var t: nat := s[n];
    MulCancelLt(t, 0x1000_0000, Pow(BASE, n));
    MulCancelLt(0x800_0000, t + 1, Pow(BASE, n));
  }

  lemma PowerTwentySeven()
    ensures Pow2(27) == 0x800_0000 && Pow2(28) == 0x1000_0000
  {
    SmallPowers();
    PowAdd(2, 16, 8);
    PowAdd(2, 24, 2);
    PowAdd(2, 26, 1);
  }

  lemma OneLimb(s: seq<Limb>)
    requires |s| == 1
    ensures Val(s) == s[0]
  {
    assert s[..0] == [];
  }
}
