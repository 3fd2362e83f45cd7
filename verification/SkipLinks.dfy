/**
 Nodes of a skip list and what their links ought to be: at level i a node points to the next
 node tall enough, and its span is the distance to it, or to the end of the list.
 */
module SkipLinks {
  import opened SkipOrder

  const MAXLEVEL: nat := 32

  datatype Link = Link(forward: Node?, span: nat)

  class Node {
    /** No member in the header. */
    const member: Element
    const isHeader: bool
    ghost const height: nat
    var backward: Node?
    var level: seq<Link>

    constructor (height: nat, member: Element, isHeader: bool)
      ensures this.height == height == |level|
      ensures this.member == member && this.isHeader == isHeader && backward == null
      ensures forall i :: 0 <= i < height ==> level[i] == Link(null, 0)
    {
      this.height, this.member, this.isHeader := height, member, isHeader;
      backward := null;
      level := seq(height, _ => Link(null, 0));
    }
  }

  /** The first node behind p that reaches level i, or the end. */
  ghost function Next(nodes: seq<Node>, p: nat, i: nat): (q: nat)
    requires p < |nodes|
    ensures p < q <= |nodes|
    ensures q < |nodes| ==> nodes[q].height > i
    ensures forall r :: p < r < q ==> nodes[r].height <= i
    decreases |nodes| - p
  {
    if p + 1 == |nodes| then p + 1
    else if nodes[p + 1].height > i then p + 1
    else Next(nodes, p + 1, i)
  }

  lemma NextUnique(nodes: seq<Node>, p: nat, i: nat, q: nat)
    requires p < q <= |nodes|
    requires q < |nodes| ==> nodes[q].height > i
    requires forall r :: p < r < q ==> nodes[r].height <= i
    ensures Next(nodes, p, i) == q
  {
  }

  /** The link node p should have at level i. */
  ghost function LinkAt(nodes: seq<Node>, p: nat, i: nat): Link
    requires p < |nodes|
  {
    var q := Next(nodes, p, i);
    if q < |nodes| then Link(nodes[q], q - p) else Link(null, q - 1 - p)
  }

  /** p is the last node at or before index r that reaches level i. */
  ghost predicate Last(nodes: seq<Node>, p: nat, i: nat, r: nat)
  {
    p < |nodes| && p <= r && nodes[p].height > i && Next(nodes, p, i) > r
  }

  lemma LastUnique(nodes: seq<Node>, p: nat, q: nat, i: nat, r: nat)
    requires Last(nodes, p, i, r) && Last(nodes, q, i, r)
    ensures p == q
  {
  }

  /** What a search leaves behind for the levels from i up: the last node up to index R, and its index. */
  ghost predicate Found(nodes: seq<Node>, level: nat, update: seq<Node?>, rank: seq<nat>, i: nat, R: nat)
  {
    && |update| == MAXLEVEL == |rank| && level <= MAXLEVEL
    && forall j :: i <= j < level ==> FoundAt(nodes, update[j], rank[j], j, R)
  }

  ghost predicate FoundAt(nodes: seq<Node>, u: Node?, r: nat, j: nat, R: nat)
  {
    r < |nodes| && u == nodes[r] && Last(nodes, r, j, R)
  }

  ghost function MembersOf(nodes: seq<Node>): (s: seq<Element>)
    requires |nodes| > 0
    ensures |s| == |nodes| - 1
    ensures forall p :: 0 <= p < |s| ==> s[p] == nodes[p + 1].member
  {
    seq(|nodes| - 1, p requires 0 <= p < |nodes| - 1 => nodes[p + 1].member)
  }

  // ----- inserting a node behind index r

  ghost function With(nodes: seq<Node>, r: nat, x: Node): (n: seq<Node>)
    requires r < |nodes|
    ensures |n| == |nodes| + 1
  {
    nodes[..r + 1] + [x] + nodes[r + 1..]
  }

  lemma WithAt(nodes: seq<Node>, r: nat, x: Node, p: nat)
    requires r < |nodes| && p <= |nodes|
    ensures With(nodes, r, x)[p] == (if p <= r then nodes[p] else if p == r + 1 then x else nodes[p - 1])
  {
  }

  /** Links of the nodes before the new one. */
  lemma WithBefore(nodes: seq<Node>, r: nat, x: Node, p: nat, i: nat)
    requires p <= r < |nodes|
    ensures Next(nodes, p, i) <= r ==> LinkAt(With(nodes, r, x), p, i) == LinkAt(nodes, p, i)
    ensures Next(nodes, p, i) > r && i < x.height ==> LinkAt(With(nodes, r, x), p, i) == Link(x, r - p + 1)
    ensures Next(nodes, p, i) > r && i >= x.height ==>
      LinkAt(With(nodes, r, x), p, i) == Link(LinkAt(nodes, p, i).forward, LinkAt(nodes, p, i).span + 1)
  {
    hide With;
    var q, nodes' := Next(nodes, p, i), With(nodes, r, x);
    var q' := if q <= r then q else if i < x.height then r + 1 else q + 1;
    forall k | p < k < q' ensures nodes'[k].height <= i {
      WithAt(nodes, r, x, k);
    }
    if q' < |nodes'| {
      WithAt(nodes, r, x, q');
    }
    NextUnique(nodes', p, i, q');
  }

  /** Links of the nodes behind it. */
  lemma WithAfter(nodes: seq<Node>, r: nat, x: Node, p: nat, i: nat)
    requires r < p < |nodes|
    ensures LinkAt(With(nodes, r, x), p + 1, i) == LinkAt(nodes, p, i)
  {
    var q, nodes' := Next(nodes, p, i), With(nodes, r, x);
    forall k | p + 1 < k < q + 1 ensures nodes'[k].height <= i {
      WithAt(nodes, r, x, k);
    }
    NextUnique(nodes', p + 1, i, q + 1);
  }

  /** Its own links are what its predecessor at that level had, less the distance. */
  lemma WithSelf(nodes: seq<Node>, r: nat, x: Node, p: nat, i: nat)
    requires r < |nodes| && Last(nodes, p, i, r)
    ensures LinkAt(nodes, p, i).span >= r - p
    ensures LinkAt(With(nodes, r, x), r + 1, i) ==
      Link(LinkAt(nodes, p, i).forward, LinkAt(nodes, p, i).span - (r - p))
  {
    var q, nodes' := Next(nodes, p, i), With(nodes, r, x);
    forall k | r + 1 < k < q + 1 ensures nodes'[k].height <= i {
      WithAt(nodes, r, x, k);
    }
    NextUnique(nodes', r + 1, i, q + 1);
  }

  /** Index of an old node once x is in. */
  function Moved(r: nat, p: nat): nat
  {
    if p <= r then p else p + 1
  }

  /** What one level of the links becomes when x goes in behind r: only the last node u up to r changes. */
  lemma WithLevel(nodes: seq<Node>, r: nat, x: Node, i: nat, u: nat, p: nat)
    requires r < |nodes| && Last(nodes, u, i, r) && p < |nodes| && nodes[p].height > i
    ensures p != u ==> LinkAt(With(nodes, r, x), Moved(r, p), i) == LinkAt(nodes, p, i)
    ensures p == u && i < x.height ==> LinkAt(With(nodes, r, x), Moved(r, p), i) == Link(x, r - u + 1)
    ensures p == u && i >= x.height ==>
      LinkAt(With(nodes, r, x), Moved(r, p), i) == Link(LinkAt(nodes, u, i).forward, LinkAt(nodes, u, i).span + 1)
  {
    hide Next, With;
    if p <= r {
      WithBefore(nodes, r, x, p, i);
      if Next(nodes, p, i) > r {
        LastUnique(nodes, p, u, i, r);
      }
    } else {
      WithAfter(nodes, r, x, p, i);
    }
  }

  /** On level 0 the last node up to r is the one at r. */
  lemma LastAtZero(nodes: seq<Node>, p: nat, r: nat)
    requires r < |nodes| && Last(nodes, p, 0, r)
    requires forall q :: 0 < q < |nodes| ==> nodes[q].height > 0
    ensures p == r
  {
  }

  // ----- removing the node at index d

  ghost function Without(nodes: seq<Node>, d: nat): (n: seq<Node>)
    requires d < |nodes|
    ensures |n| == |nodes| - 1
  {
    nodes[..d] + nodes[d + 1..]
  }

  lemma WithoutAt(nodes: seq<Node>, d: nat, p: nat)
    requires d < |nodes| && p < |nodes| - 1
    ensures Without(nodes, d)[p] == (if p < d then nodes[p] else nodes[p + 1])
  {
  }

  /** Where the nodes before the removed one lead then. */
  lemma WithoutNext(nodes: seq<Node>, d: nat, p: nat, i: nat)
    requires p < d < |nodes|
    ensures Next(nodes, p, i) < d ==> Next(Without(nodes, d), p, i) == Next(nodes, p, i)
    ensures Next(nodes, p, i) == d ==> Next(Without(nodes, d), p, i) == Next(nodes, d, i) - 1
    ensures Next(nodes, p, i) > d ==> Next(Without(nodes, d), p, i) == Next(nodes, p, i) - 1
  {
    var q, nodes' := Next(nodes, p, i), Without(nodes, d);
    var q' := if q < d then q else if q == d then Next(nodes, d, i) - 1 else q - 1;
    forall k | p < k < q' ensures nodes'[k].height <= i {
      WithoutAt(nodes, d, k);
    }
    if q' < |nodes'| {
      WithoutAt(nodes, d, q');
    }
    NextUnique(nodes', p, i, q');
  }

  /** Links of the nodes before the removed one: as they were, or joined to its own, or one shorter. */
  lemma WithoutBefore(nodes: seq<Node>, d: nat, p: nat, i: nat)
    requires p < d < |nodes|
    ensures Next(nodes, p, i) < d ==> LinkAt(Without(nodes, d), p, i) == LinkAt(nodes, p, i)
    ensures Next(nodes, p, i) == d ==> LinkAt(Without(nodes, d), p, i) == Joined(LinkAt(nodes, p, i), LinkAt(nodes, d, i))
    ensures Next(nodes, p, i) > d ==> LinkAt(Without(nodes, d), p, i) == Shortened(LinkAt(nodes, p, i))
    ensures Next(nodes, p, i) >= d ==> LinkAt(nodes, p, i).span > 0
  {
    hide Next, Without;
    WithoutNext(nodes, d, p, i);
    var q' := Next(Without(nodes, d), p, i);
    if q' < |nodes| - 1 {
      WithoutAt(nodes, d, q');
    }
  }

  ghost function Joined(a: Link, b: Link): Link
  {
    Link(b.forward, if a.span + b.span > 0 then a.span + b.span - 1 else 0)
  }

  ghost function Shortened(a: Link): Link
  {
    Link(a.forward, if a.span > 0 then a.span - 1 else 0)
  }

  /** Links of the nodes behind it. */
  lemma WithoutAfter(nodes: seq<Node>, d: nat, p: nat, i: nat)
    requires d < p < |nodes|
    ensures LinkAt(Without(nodes, d), p - 1, i) == LinkAt(nodes, p, i)
  {
    var q, nodes' := Next(nodes, p, i), Without(nodes, d);
    forall k | p - 1 < k < q - 1 ensures nodes'[k].height <= i {
      WithoutAt(nodes, d, k);
    }
    if q - 1 < |nodes'| {
      WithoutAt(nodes, d, q - 1);
    }
    NextUnique(nodes', p - 1, i, q - 1);
  }
}
