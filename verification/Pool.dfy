/** The block allocator of dtoa.c: free lists by size class, a private pool, and malloc behind them. */
module Pool {
  import opened Arith

  const KMAX: nat := 7

  /** Doubles in the private pool: PRIVATE_MEM is 2304 bytes. */
  const PRIVATEMEM: nat := 288

  /** Bytes of a block of class k: a Bigint of 32 bytes has room for one of its 2^k words. */
  function Bytes(k: nat): nat
  {
    32 + (Pow2(k) - 1) * 4
  }

  /** Doubles it takes. */
  function Doubles(k: nat): (n: nat)
    ensures 8 * n >= Bytes(k)
  {
    (Bytes(k) + 7) / 8
  }

  class Block {
    var next: Block?
    var k: nat
    var maxwds: nat
    var sign: nat
    var wds: nat
    /** The int at the front, which shares its place with next. */
    var front: nat
    /** The class the block was made for, and where: from this double of the pool on, or outside it. */
    ghost const cls: nat
    ghost const offset: int

    constructor (k: nat, ghost offset: int)
      ensures this.k == cls == k && maxwds == Pow2(k) && this.offset == offset
    {
      next, front, sign, wds := null, 0, 0, 0;
      this.k, this.maxwds := k, Pow2(k);
      cls, this.offset := k, offset;
    }

    ghost predicate InPool()
    {
      offset >= 0
    }

    /** Its header says what it is (a string written over it may have spoilt that). */
    ghost predicate Intact()
      reads this`k, this`maxwds
    {
      k == cls && maxwds == Pow2(cls)
    }
  }

  /** The block behind the j-th of a list. */
  ghost function Follower(s: seq<Block>, j: nat): Block?
  {
    if j + 1 < |s| then s[j + 1] else null
  }

  /** Two blocks have no memory in common. */
  ghost predicate Disjoint(b: Block, c: Block)
  {
    b.InPool() && c.InPool() ==> b.offset + Doubles(b.cls) <= c.offset || c.offset + Doubles(c.cls) <= b.offset
  }

  /** A free list: its blocks are chained through next. */
  ghost predicate Chained(head: Block?, s: seq<Block>)
    reads s`next
  {
    && head == (if s == [] then null else s[0])
    && (forall j :: 0 <= j < |s| ==> s[j].next == Follower(s, j))
    && forall i, j :: 0 <= i < j < |s| ==> s[i] != s[j]
  }

  /** They are of its class, and none of them is handed out. */
  ghost predicate Listed(s: seq<Block>, k: nat, all: seq<Block>, live: set<Block>)
  {
    forall j :: 0 <= j < |s| ==> s[j] in all && s[j] !in live && s[j].cls == k
  }

  ghost predicate Headers(s: seq<Block>)
    reads s`k, s`maxwds
  {
    forall j :: 0 <= j < |s| ==> s[j].Intact()
  }

  lemma ChainedTail(head: Block?, s: seq<Block>)
    requires Chained(head, s) && s != []
    ensures Chained(s[0].next, s[1..]) && s[0] !in s[1..]
  {
    var t := s[1..];
    forall i | 0 <= i < |t| ensures t[i].next == Follower(t, i) && t[i] != s[0] {
      assert s[i + 1].next == Follower(s, i + 1);
    }
    forall i, j | 0 <= i < j < |t| ensures t[i] != t[j] {
      assert s[i + 1] != s[j + 1];
    }
  }

  lemma ChainedMore(head: Block?, s: seq<Block>, b: Block)
    requires Chained(head, s) && b !in s && b.next == head
    ensures Chained(b, [b] + s)
  {
    var t := [b] + s;
    forall i | 0 <= i < |t| ensures t[i].next == Follower(t, i) {
      if i > 0 {
        assert s[i - 1].next == Follower(s, i - 1);
      }
    }
  }

  class Allocator {
    const freelist: array<Block?>
    var pmemNext: nat
    /** All blocks ever made, the free ones by class, and those handed out. */
    ghost var all: seq<Block>
    ghost var free: seq<seq<Block>>
    ghost var live: set<Block>

    ghost predicate ListOk(k: nat, s: seq<Block>)
      requires k < freelist.Length
      reads this`all, this`live, freelist, s`next, s`k, s`maxwds
    {
      Chained(freelist[k], s) && Listed(s, k, all, live) && Headers(s)
    }

    /** The blocks in the pool lie one behind the other, below pmemNext. */
    ghost predicate PoolOk()
      reads this`all, this`pmemNext
    {
      && pmemNext <= PRIVATEMEM
      && (forall j :: 0 <= j < |all| && all[j].InPool() ==> all[j].offset + Doubles(all[j].cls) <= pmemNext)
      && forall i, j :: 0 <= i < j < |all| ==> all[i] != all[j] && Disjoint(all[i], all[j])
    }

    ghost predicate Valid()
      reads this, freelist, all
    {
      && freelist.Length == |free| == KMAX + 1
      && (forall k, j :: 0 <= k <= KMAX && 0 <= j < |free[k]| ==> free[k][j] in all)
      && (forall k :: 0 <= k <= KMAX ==> ListOk(k, free[k]))
      && (forall b :: b in live ==> b in all)
      && PoolOk()
    }

    constructor ()
      ensures Valid() && live == {} && all == [] && fresh(freelist)
    {
      freelist := new Block?[KMAX + 1](_ => null);
      pmemNext, all, live := 0, [], {};
      free := seq(KMAX + 1, _ => []);
    }

    /** No two blocks that are handed out share memory. */
    lemma LiveDisjoint(b: Block, c: Block)
      requires Valid() && b in live && c in live && b != c
      ensures Disjoint(b, c)
    {
      var i :| 0 <= i < |all| && all[i] == b;
      var j :| 0 <= j < |all| && all[j] == c;
      assert if i < j then Disjoint(all[i], all[j]) else Disjoint(all[j], all[i]);
    }

    /** The branch of Balloc that reuses a block. */
    method Reuse(k: nat) returns (b: Block)
      requires Valid() && k <= KMAX && freelist[k] != null
      modifies this`free, this`live, freelist
      ensures Valid() && all == old(all) && b in all && b.cls == k && b.Intact() && b !in old(live) && live == old(live) + {b}
    {
      hide Chained, Headers, PoolOk;
      ghost var s := free[k];
      assert ListOk(k, s);
      b := freelist[k];
      FirstFree(k, s);
      freelist[k] := b.next;
      live := live + {b};
      free := free[k := s[1..]];
      forall j | 0 <= j <= KMAX ensures ListOk(j, free[j]) {
        assert old(ListOk(j, free[j]));
      }
    }

    lemma FirstFree(k: nat, s: seq<Block>)
      requires k < freelist.Length && ListOk(k, s) && freelist[k] != null
      ensures s != [] && s[0] == freelist[k] && s[0].Intact() && s[0] !in s[1..]
      ensures Chained(s[0].next, s[1..]) && Headers(s[1..])
    {
      ChainedTail(freelist[k], s);
    }

    /** The branch of Balloc that makes a block, in the pool as long as it fits there. */
    method Make(k: nat) returns (b: Block)
      requires Valid()
      modifies this`all, this`pmemNext, this`live
      ensures Valid() && all == old(all) + [b] && fresh(b) && live == old(live) + {b}
      ensures b.cls == k && b.Intact() && (b.InPool() ==> k <= KMAX)
    {
      var len := Doubles(k);
      if k <= KMAX && pmemNext + len <= PRIVATEMEM {
        b := new Block(k, pmemNext);
        pmemNext := pmemNext + len;
      } else {
        b := new Block(k, -1);
      }
      hide Doubles;
      all := all + [b];
      live := live + {b};
      forall j | 0 <= j <= KMAX ensures ListOk(j, free[j]) {
        assert old(ListOk(j, free[j]));
      }
    }

    /** Balloc: a block of the class asked for that nobody else holds. */
    method Balloc(k: nat) returns (b: Block)
      requires Valid()
      modifies this`all, this`pmemNext, this`free, this`live, freelist, all`sign, all`wds
      ensures Valid() && b in all && b.cls == k && b.Intact() && b.sign == b.wds == 0
      ensures b !in old(live) && live == old(live) + {b}
      ensures b in old(all) || fresh(b)
      ensures forall c :: c in old(all) ==> c in all
    {
      hide ListOk, PoolOk;
      if k <= KMAX && freelist[k] != null {
        b := Reuse(k);
      } else {
        b := Make(k);
      }
      Cleared(b);
    }

    method Cleared(b: Block)
      requires Valid() && b in live
      modifies b`sign, b`wds
      ensures Valid() && b.sign == b.wds == 0
    {
      b.sign := 0;
      b.wds := 0;
      forall j | 0 <= j <= KMAX ensures ListOk(j, free[j]) {
        assert old(ListOk(j, free[j]));
      }
    }

    /** Bfree of a block that is held. */
    method Bfree(b: Block)
      requires Valid() && b in live && b.Intact()
      modifies this`free, this`live, freelist, b`next
      ensures Valid() && all == old(all) && live == old(live) - {b}
      ensures b.cls <= KMAX ==> freelist[b.cls] == b
    {
      hide Chained, PoolOk, Pow2;
      live := live - {b};
      if b.k > KMAX {
        forall j | 0 <= j <= KMAX ensures ListOk(j, free[j]) {
          assert old(ListOk(j, free[j]));
        }
      } else {
        ghost var s := free[b.k];
        assert old(ListOk(b.k, free[b.k]));
        b.next := freelist[b.k];
        ChainedMore(freelist[b.k], s, b);
        freelist[b.k] := b;
        free := free[b.k := [b] + s];
        forall j | 0 <= j <= KMAX ensures ListOk(j, free[j]) {
          assert old(ListOk(j, free[j]));
        }
      }
    }

    /** rv_alloc: a block with room for i characters and a NUL behind its first int, which keeps its class. */
    method RvAlloc(i: nat) returns (b: Block)
      requires Valid()
      modifies this`all, this`pmemNext, this`free, this`live, freelist, all`sign, all`wds, all`front
      ensures Valid() && b in all && b !in old(live) && live == old(live) + {b} && (b in old(all) || fresh(b))
      ensures b.front == b.cls && Bytes(b.cls) - 4 >= i + 1
      ensures b.cls > 0 ==> Bytes(b.cls - 1) - 4 < i + 1
    {
      var j, k: nat := 4, 0;
      while 32 - 4 - 4 + j <= i
        invariant j == 4 * Pow2(k) && (k > 0 ==> 24 + 4 * Pow2(k - 1) <= i)
        decreases i - j
      {
        k := k + 1;
        j := 2 * j;
      }
      b := Balloc(k);
      Mark(b, k);
    }

    method Mark(b: Block, k: nat)
      requires Valid() && b in live
      modifies b`front
      ensures Valid() && b.front == k
    {
      b.front := k;
      forall j | 0 <= j <= KMAX ensures ListOk(j, free[j]) {
        assert old(ListOk(j, free[j]));
      }
    }

    /** The string that the block was got for goes over the rest of its header. */
    method Overwrite(b: Block, k: nat, maxwds: nat, sign: nat, wds: nat)
      requires Valid() && b in live
      modifies b`k, b`maxwds, b`sign, b`wds
      ensures Valid() && b.k == k && b.maxwds == maxwds
    {
      hide PoolOk, Chained;
      b.k, b.maxwds, b.sign, b.wds := k, maxwds, sign, wds;
      forall j | 0 <= j <= KMAX ensures ListOk(j, free[j]) {
        assert old(ListOk(j, free[j]));
      }
    }

    /** freedtoa: the class kept in front restores the header, whatever was written over it. */
    method FreeDtoa(b: Block)
      requires Valid() && b in live && b.front == b.cls
      modifies this`free, this`live, freelist, b`next, b`k, b`maxwds, b`sign, b`wds
      ensures Valid() && b.Intact() && all == old(all) && live == old(live) - {b}
      ensures b.cls <= KMAX ==> freelist[b.cls] == b
    {
      Overwrite(b, b.front, Pow2(b.front), b.sign, b.wds);
      Bfree(b);
    }
  }
}
