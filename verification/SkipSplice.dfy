/** Linking a node into a skip list and out of it, one level after the other. */
module SkipSplice {
  import opened SkipLinks
  import opened SkipOrder

  ghost predicate Distinct(nodes: seq<Node>)
  {
    forall p, q :: 0 <= p < q < |nodes| ==> nodes[p] != nodes[q]
  }

  /** The links of all nodes. */
  ghost function Levels(nodes: seq<Node>): (t: seq<seq<Link>>)
    reads nodes`level
    ensures |t| == |nodes| && forall p :: 0 <= p < |nodes| ==> t[p] == nodes[p].level
  {
    if nodes == [] then [] else [nodes[0].level] + Levels(nodes[1..])
  }

  /** Only level i of node r differs, and is w now. */
  ghost predicate OneLink(s: seq<seq<Link>>, t: seq<seq<Link>>, r: nat, i: nat, w: Link)
  {
    r < |s| && i < |s[r]| && t == s[r := s[r][i := w]]
  }

  /** Nothing hangs on the levels above the list's own. */
  ghost predicate NullAbove(t: seq<seq<Link>>, level: nat)
  {
    forall p, j :: 0 <= p < |t| && level <= j < |t[p]| ==> t[p][j].forward == null
  }

  /** Every link of every level below the list's own is the one it ought to be. */
  ghost predicate LinksOk(t: seq<seq<Link>>, nodes: seq<Node>, level: nat)
    requires |t| == |nodes|
  {
    && (forall p :: 0 <= p < |nodes| ==> |t[p]| == nodes[p].height)
    && (forall p, i :: 0 <= p < |nodes| && 0 <= i < nodes[p].height && i < level ==> LinkOk(t, nodes, p, i))
    && NullAbove(t, level)
  }

  ghost predicate LinkOk(t: seq<seq<Link>>, nodes: seq<Node>, p: nat, i: nat)
    requires |t| == |nodes| && p < |nodes|
  {
    |t[p]| == nodes[p].height && i < nodes[p].height && t[p][i] == LinkAt(nodes, p, i)
  }

  /** The chain of level 0 backwards, and its end. */
  ghost predicate BackOk(nodes: seq<Node>, tail: Node?)
    reads nodes`backward
  {
    && |nodes| > 0 && tail == (if |nodes| == 1 then null else nodes[|nodes| - 1])
    && nodes[0].backward == null
    && forall p :: 0 < p < |nodes| ==> nodes[p].backward == (if p == 1 then null else nodes[p - 1])
  }

  /** A level where there is only the header, which has the whole length to the end. */
  lemma OneMore(t: seq<seq<Link>>, t': seq<seq<Link>>, nodes: seq<Node>, level: nat)
    requires 0 < |nodes| == |t| == |t'| && LinksOk(t, nodes, level)
    requires OneLink(t, t', 0, level, Link(null, |nodes| - 1))
    requires forall p :: 0 < p < |nodes| ==> nodes[p].height <= level
    ensures LinksOk(t', nodes, level + 1)
    ensures forall R: nat :: R < |nodes| ==> FoundAt(nodes, nodes[0], 0, level, R)
  {
    NextUnique(nodes, 0, level, |nodes|);
    hide Next;
    forall p, j | 0 <= p < |nodes| && 0 <= j < nodes[p].height && j < level + 1 ensures LinkOk(t', nodes, p, j) {
      if j < level {
        assert LinkOk(t, nodes, p, j);
      }
    }
  }

  // ----- inserting x behind index R

  /** Below level i node p has its link of the list with x, from there on still the old one. */
  ghost predicate HalfIn(t: seq<seq<Link>>, nodes: seq<Node>, R: nat, x: Node, i: nat, p: nat, j: nat)
    requires R < |nodes| == |t| && p < |nodes|
  {
    && |t[p]| == nodes[p].height && j < nodes[p].height
    && t[p][j] == if j < i then LinkAt(With(nodes, R, x), Moved(R, p), j) else LinkAt(nodes, p, j)
  }

  ghost predicate AllHalfIn(t: seq<seq<Link>>, nodes: seq<Node>, level: nat, R: nat, x: Node, i: nat)
    requires R < |nodes| == |t|
  {
    && (forall p :: 0 <= p < |nodes| ==> |t[p]| == nodes[p].height)
    && (forall p, j :: 0 <= p < |nodes| && 0 <= j < nodes[p].height && j < level ==> HalfIn(t, nodes, R, x, i, p, j))
    && NullAbove(t, level)
  }

  /** The links of x below level i. */
  ghost predicate NewIn(links: seq<Link>, nodes: seq<Node>, R: nat, x: Node, i: nat)
    requires R < |nodes|
  {
    |links| == x.height && forall j :: 0 <= j < i && j < x.height ==> links[j] == LinkAt(With(nodes, R, x), R + 1, j)
  }

  /** The link node r gets when x comes in behind it. */
  ghost function Around(nodes: seq<Node>, R: nat, x: Node, i: nat, r: nat): Link
    requires r <= R && r < |nodes|
  {
    if i < x.height then Link(x, R - r + 1) else Link(LinkAt(nodes, r, i).forward, LinkAt(nodes, r, i).span + 1)
  }

  lemma StepIn(s: seq<seq<Link>>, t: seq<seq<Link>>, nodes: seq<Node>, level: nat, R: nat, x: Node, i: nat, r: nat)
    requires R < |nodes| == |s| == |t| && Last(nodes, r, i, R) && i < level
    requires AllHalfIn(s, nodes, level, R, x, i) && OneLink(s, t, r, i, Around(nodes, R, x, i, r))
    ensures AllHalfIn(t, nodes, level, R, x, i + 1)
  {
    hide Next, LinkAt, With;
    var i' := i + 1;
    forall p, j | 0 <= p < |nodes| && 0 <= j < nodes[p].height && j < level
      ensures HalfIn(t, nodes, R, x, i', p, j)
    {
      assert HalfIn(s, nodes, R, x, i, p, j);
      if j == i {
        WithLevel(nodes, R, x, i, r, p);
      }
    }
  }

  lemma NoneIn(t: seq<seq<Link>>, nodes: seq<Node>, level: nat, R: nat, x: Node)
    requires R < |nodes| == |t| && LinksOk(t, nodes, level)
    ensures AllHalfIn(t, nodes, level, R, x, 0)
  {
    hide LinkAt;
    forall p, j | 0 <= p < |nodes| && 0 <= j < nodes[p].height && j < level ensures HalfIn(t, nodes, R, x, 0, p, j) {
      assert LinkOk(t, nodes, p, j);
    }
  }

  /** The body of the first loop of slInsert: x takes over the link of its predecessor u on level i. */
  method SpliceLevel(ghost nodes: seq<Node>, ghost level: nat, ghost R: nat, x: Node, u: Node, i: nat, gap: nat, ghost r: nat)
    requires R < |nodes| && Distinct(nodes) && x !in nodes && i < x.height && i < level
    requires FoundAt(nodes, u, r, i, R) && gap == R - r
    requires AllHalfIn(Levels(nodes), nodes, level, R, x, i) && NewIn(x.level, nodes, R, x, i)
    modifies x`level, u`level
    ensures AllHalfIn(Levels(nodes), nodes, level, R, x, i + 1) && NewIn(x.level, nodes, R, x, i + 1)
  {
    hide Next, LinkAt, With, Levels;
    ghost var s := Levels(nodes);
    WithSelf(nodes, R, x, r, i);
    assert HalfIn(s, nodes, R, x, i, r, i);
    x.level := x.level[i := Link(u.level[i].forward, u.level[i].span - gap)];
    u.level := u.level[i := Link(x, gap + 1)];
    assert Levels(nodes) == s[r := s[r][i := Link(x, gap + 1)]];
    StepIn(s, Levels(nodes), nodes, level, R, x, i, r);
  }

  /** The body of the second loop: on a level x does not reach, its predecessor spans one more. */
  method StretchLevel(ghost nodes: seq<Node>, ghost level: nat, ghost R: nat, ghost x: Node, u: Node, i: nat, ghost r: nat)
    requires R < |nodes| && Distinct(nodes) && x !in nodes && x.height <= i < level
    requires FoundAt(nodes, u, r, i, R)
    requires AllHalfIn(Levels(nodes), nodes, level, R, x, i)
    modifies u`level
    ensures AllHalfIn(Levels(nodes), nodes, level, R, x, i + 1) && x.level == old(x.level)
  {
    hide Next, LinkAt, With, Levels;
    ghost var s := Levels(nodes);
    assert HalfIn(s, nodes, R, x, i, r, i);
    u.level := u.level[i := u.level[i].(span := u.level[i].span + 1)];
    assert Levels(nodes) == s[r := s[r][i := Link(s[r][i].forward, s[r][i].span + 1)]];
    StepIn(s, Levels(nodes), nodes, level, R, x, i, r);
  }

  /** Both loops. */
  method SpliceIn(ghost nodes: seq<Node>, level: nat, ghost R: nat, x: Node, height: nat, update: array<Node?>, rank: array<nat>)
    requires R < |nodes| && Distinct(nodes) && x !in nodes && 1 <= x.height == height <= level <= MAXLEVEL
    requires Found(nodes, level, update[..], rank[..], 0, R) && rank[0] == R
    requires AllHalfIn(Levels(nodes), nodes, level, R, x, 0) && NewIn(x.level, nodes, R, x, 0)
    modifies x`level, nodes`level
    ensures AllHalfIn(Levels(nodes), nodes, level, R, x, level) && NewIn(x.level, nodes, R, x, height)
  {
    hide Next, LinkAt, With, Levels, HalfIn, NewIn;
    var i := 0;
    while i < height
      invariant 0 <= i <= height
      invariant AllHalfIn(Levels(nodes), nodes, level, R, x, i) && NewIn(x.level, nodes, R, x, i)
    {
      assert FoundAt(nodes, update[..][i], rank[..][i], i, R);
      SpliceLevel(nodes, level, R, x, update[i], i, rank[0] - rank[i], rank[i]);
      i := i + 1;
    }
    while i < level
      invariant height <= i <= level
      invariant AllHalfIn(Levels(nodes), nodes, level, R, x, i) && NewIn(x.level, nodes, R, x, height)
    {
      assert FoundAt(nodes, update[..][i], rank[..][i], i, R);
      StretchLevel(nodes, level, R, x, update[i], i, rank[i]);
      i := i + 1;
    }
  }

  /** The links of the list with a new node behind index R. */
  ghost predicate PutIn(t: seq<seq<Link>>, t': seq<seq<Link>>, R: nat, links: seq<Link>)
  {
    R < |t| && |t'| == |t| + 1 && forall p :: 0 <= p < |t'| ==> t'[p] == PutAt(t, R, links, p)
  }

  ghost function PutAt(t: seq<seq<Link>>, R: nat, links: seq<Link>, p: nat): seq<Link>
    requires R < |t| && p <= |t|
  {
    if p <= R then t[p] else if p == R + 1 then links else t[p - 1]
  }

  /** Once all levels are done the links are those of the list with x. */
  lemma AllIn(t: seq<seq<Link>>, t': seq<seq<Link>>, nodes: seq<Node>, level: nat, R: nat, x: Node, links: seq<Link>)
    requires R < |nodes| == |t| && x.height <= level && PutIn(t, t', R, links)
    requires AllHalfIn(t, nodes, level, R, x, level) && NewIn(links, nodes, R, x, x.height)
    ensures LinksOk(t', With(nodes, R, x), level)
  {
    hide LinkAt;
    var nodes' := With(nodes, R, x);
    forall p | 0 <= p < |nodes'| ensures |t'[p]| == nodes'[p].height {
      assert t'[p] == PutAt(t, R, links, p);
    }
    forall p, j | 0 <= p < |nodes'| && 0 <= j < nodes'[p].height && j < level ensures LinkOk(t', nodes', p, j) {
      assert t'[p] == PutAt(t, R, links, p);
      if p != R + 1 {
        assert HalfIn(t, nodes, R, x, level, if p <= R then p else p - 1, j);
      }
    }
  }

  lemma LevelsPut(nodes: seq<Node>, R: nat, x: Node)
    requires R < |nodes|
    ensures PutIn(Levels(nodes), Levels(With(nodes, R, x)), R, x.level)
  {
    hide Levels, With;
    WithAt(nodes, R, x, 0);
    forall p | 0 <= p <= |nodes| ensures Levels(With(nodes, R, x))[p] == PutAt(Levels(nodes), R, x.level, p) {
      WithAt(nodes, R, x, p);
    }
  }

  /** The same on the heap. */
  lemma LinkedIn(nodes: seq<Node>, level: nat, R: nat, x: Node)
    requires R < |nodes| && x.height <= level
    requires AllHalfIn(Levels(nodes), nodes, level, R, x, level) && NewIn(x.level, nodes, R, x, x.height)
    ensures LinksOk(Levels(With(nodes, R, x)), With(nodes, R, x), level)
  {
    hide Next, LinkAt, LinksOk, AllHalfIn, Levels, NewIn, PutIn;
    LevelsPut(nodes, R, x);
    AllIn(Levels(nodes), Levels(With(nodes, R, x)), nodes, level, R, x, x.level);
  }

  /** On level 0 a new node leads on to the node it went before. */
  lemma LeadsOn(nodes: seq<Node>, R: nat, x: Node)
    requires R < |nodes| && 0 < x.height && NewIn(x.level, nodes, R, x, x.height)
    requires forall p :: 0 < p < |nodes| ==> nodes[p].height > 0
    ensures |x.level| > 0 && x.level[0].forward == if R + 1 < |nodes| then nodes[R + 1] else null
  {
    NextUnique(With(nodes, R, x), R + 1, 0, R + 2);
  }

  /** Linking x in on all levels. */
  method LinkIn(ghost nodes: seq<Node>, level: nat, ghost R: nat, x: Node, update: array<Node?>, rank: array<nat>)
    requires R < |nodes| && Distinct(nodes) && x !in nodes && 1 <= x.height == |x.level| <= level <= MAXLEVEL
    requires forall p :: 0 < p < |nodes| ==> nodes[p].height > 0
    requires Found(nodes, level, update[..], rank[..], 0, R)
    requires LinksOk(Levels(nodes), nodes, level)
    modifies x`level, nodes`level
    ensures LinksOk(Levels(With(nodes, R, x)), With(nodes, R, x), level)
    ensures update[0] == nodes[R]
    ensures |x.level| > 0 && x.level[0].forward == if R + 1 < |nodes| then nodes[R + 1] else null
  {
    assert NewIn(x.level, nodes, R, x, 0);
    hide LinksOk, Levels, AllHalfIn, LinkAt, Next, NewIn, With;
    NoneIn(Levels(nodes), nodes, level, R, x);
    assert FoundAt(nodes, update[..][0], rank[..][0], 0, R);
    LastAtZero(nodes, rank[0], R);
    SpliceIn(nodes, level, R, x, |x.level|, update, rank);
    LinkedIn(nodes, level, R, x);
    LeadsOn(nodes, R, x);
  }

  // ----- removing the node at index d

  /** Index of a remaining node once the one at d is out. */
  function Closed(d: nat, p: nat): nat
    requires p != d
  {
    if p < d then p else p - 1
  }

  /** What one level of the links becomes without node d: only the last node u before d changes. */
  lemma WithoutLevel(nodes: seq<Node>, d: nat, i: nat, u: nat, p: nat)
    requires 0 < d < |nodes| && Last(nodes, u, i, d - 1) && p < |nodes| && nodes[p].height > i && p != d
    ensures p != u ==> LinkAt(Without(nodes, d), Closed(d, p), i) == LinkAt(nodes, p, i)
    ensures p == u ==> LinkAt(Without(nodes, d), Closed(d, p), i) == Past(nodes, d, i, u) && LinkAt(nodes, u, i).span > 0
  {
    hide Next, Without;
    if p < d {
      WithoutBefore(nodes, d, p, i);
      if Next(nodes, p, i) >= d {
        LastUnique(nodes, p, u, i, d - 1);
      }
    } else {
      WithoutAfter(nodes, d, p, i);
    }
  }

  /** The link node r gets when the node at d behind it goes. */
  ghost function Past(nodes: seq<Node>, d: nat, i: nat, r: nat): Link
    requires r < d < |nodes|
  {
    if Next(nodes, r, i) == d then Joined(LinkAt(nodes, r, i), LinkAt(nodes, d, i)) else Shortened(LinkAt(nodes, r, i))
  }

  /** Below level i node p has its link of the list without node d, from there on still the old one. */
  ghost predicate HalfOut(t: seq<seq<Link>>, nodes: seq<Node>, d: nat, i: nat, p: nat, j: nat)
    requires d < |nodes| == |t| && p < |nodes|
  {
    && |t[p]| == nodes[p].height && j < nodes[p].height
    && t[p][j] == if j < i && p != d then LinkAt(Without(nodes, d), Closed(d, p), j) else LinkAt(nodes, p, j)
  }

  ghost predicate AllHalfOut(t: seq<seq<Link>>, nodes: seq<Node>, level: nat, d: nat, i: nat)
    requires d < |nodes| == |t|
  {
    && (forall p :: 0 <= p < |nodes| ==> |t[p]| == nodes[p].height)
    && (forall p, j :: 0 <= p < |nodes| && 0 <= j < nodes[p].height && j < level ==> HalfOut(t, nodes, d, i, p, j))
    && NullAbove(t, level)
  }

  lemma StepOut(s: seq<seq<Link>>, t: seq<seq<Link>>, nodes: seq<Node>, level: nat, d: nat, i: nat, r: nat)
    requires 0 < d < |nodes| == |s| == |t| && Last(nodes, r, i, d - 1) && i < level
    requires AllHalfOut(s, nodes, level, d, i) && OneLink(s, t, r, i, Past(nodes, d, i, r))
    ensures AllHalfOut(t, nodes, level, d, i + 1)
  {
    hide Next, LinkAt, Without;
    var i' := i + 1;
    forall p, j | 0 <= p < |nodes| && 0 <= j < nodes[p].height && j < level
      ensures HalfOut(t, nodes, d, i', p, j)
    {
      assert HalfOut(s, nodes, d, i, p, j);
      if j == i && p != d {
        WithoutLevel(nodes, d, i, r, p);
      }
    }
  }

  lemma NoneOut(t: seq<seq<Link>>, nodes: seq<Node>, level: nat, d: nat)
    requires 0 < d < |nodes| == |t| && LinksOk(t, nodes, level)
    ensures AllHalfOut(t, nodes, level, d, 0)
  {
    hide LinkAt;
    forall p, j | 0 <= p < |nodes| && 0 <= j < nodes[p].height && j < level ensures HalfOut(t, nodes, d, 0, p, j) {
      assert LinkOk(t, nodes, p, j);
    }
  }

  /** The body of the loop of slDeleteNode: the predecessor u on level i leads past x, or spans one less. */
  method CutLevel(ghost nodes: seq<Node>, ghost level: nat, ghost d: nat, x: Node, u: Node, i: nat, ghost r: nat)
    requires 0 < d < |nodes| && Distinct(nodes) && x == nodes[d] && i < level
    requires FoundAt(nodes, u, r, i, d - 1)
    requires AllHalfOut(Levels(nodes), nodes, level, d, i)
    modifies u`level
    ensures AllHalfOut(Levels(nodes), nodes, level, d, i + 1)
  {
    hide Next, Levels, Without;
    ghost var s := Levels(nodes);
    assert HalfOut(s, nodes, d, i, r, i);
    WithoutLevel(nodes, d, i, r, r);
    if u.level[i].forward == x {
      assert Next(nodes, r, i) == d && x.height > i;
      assert HalfOut(s, nodes, d, i, d, i);
      u.level := u.level[i := Link(x.level[i].forward, u.level[i].span + x.level[i].span - 1)];
    } else {
      u.level := u.level[i := u.level[i].(span := u.level[i].span - 1)];
    }
    assert Levels(nodes) == s[r := s[r][i := Past(nodes, d, i, r)]];
    StepOut(s, Levels(nodes), nodes, level, d, i, r);
  }

  /** The whole loop. */
  method CutOut(ghost nodes: seq<Node>, level: nat, ghost d: nat, x: Node, update: array<Node?>, ghost rank: seq<nat>)
    requires 0 < d < |nodes| && Distinct(nodes) && x == nodes[d] && level <= MAXLEVEL
    requires Found(nodes, level, update[..], rank, 0, d - 1)
    requires AllHalfOut(Levels(nodes), nodes, level, d, 0)
    modifies nodes`level
    ensures AllHalfOut(Levels(nodes), nodes, level, d, level)
  {
    hide Next, Levels, HalfOut, AllHalfOut;
    var i := 0;
    while i < level
      invariant 0 <= i <= level
      invariant AllHalfOut(Levels(nodes), nodes, level, d, i)
    {
      assert FoundAt(nodes, update[..][i], rank[i], i, d - 1);
      CutLevel(nodes, level, d, x, update[i], i, rank[i]);
      i := i + 1;
    }
  }

  /** The links of the list without node d. */
  ghost predicate TakenOut(t: seq<seq<Link>>, t': seq<seq<Link>>, d: nat)
  {
    d < |t| && |t'| == |t| - 1 && forall p :: 0 <= p < |t'| ==> t'[p] == t[Opened(d, p)]
  }

  function Opened(d: nat, p: nat): (q: nat)
    ensures p <= q <= p + 1
  {
    if p < d then p else p + 1
  }

  /** Once all levels are done the links are those of the list without node d. */
  lemma AllOut(t: seq<seq<Link>>, t': seq<seq<Link>>, nodes: seq<Node>, level: nat, d: nat)
    requires 0 < d < |nodes| == |t| && TakenOut(t, t', d)
    requires AllHalfOut(t, nodes, level, d, level)
    ensures LinksOk(t', Without(nodes, d), level)
  {
    hide LinkAt;
    var nodes' := Without(nodes, d);
    forall p | 0 <= p < |nodes'| ensures |t'[p]| == nodes'[p].height {
      assert t'[p] == t[Opened(d, p)];
    }
    forall p, j | 0 <= p < |nodes'| && 0 <= j < nodes'[p].height && j < level ensures LinkOk(t', nodes', p, j) {
      assert t'[p] == t[Opened(d, p)];
      assert HalfOut(t, nodes, d, level, Opened(d, p), j);
    }
  }

  lemma LevelsTaken(nodes: seq<Node>, d: nat)
    requires d < |nodes|
    ensures TakenOut(Levels(nodes), Levels(Without(nodes, d)), d)
  {
    hide Levels;
    forall p | 0 <= p < |nodes| - 1 ensures Levels(Without(nodes, d))[p] == Levels(nodes)[Opened(d, p)] {
      WithoutAt(nodes, d, p);
    }
  }

  /** The same on the heap. */
  lemma LinkedOut(nodes: seq<Node>, level: nat, d: nat)
    requires 0 < d < |nodes| && AllHalfOut(Levels(nodes), nodes, level, d, level)
    ensures LinksOk(Levels(Without(nodes, d)), Without(nodes, d), level)
  {
    hide Next, LinkAt, LinksOk, AllHalfOut, Levels, TakenOut;
    LevelsTaken(nodes, d);
    AllOut(Levels(nodes), Levels(Without(nodes, d)), nodes, level, d);
  }

  /** Unlinking node d on all levels. */
  method LinkOut(ghost nodes: seq<Node>, level: nat, ghost d: nat, x: Node, update: array<Node?>, ghost rank: seq<nat>)
    requires 0 < d < |nodes| && Distinct(nodes) && x == nodes[d] && 1 <= level <= MAXLEVEL
    requires forall p :: 0 < p < |nodes| ==> nodes[p].height > 0
    requires Found(nodes, level, update[..], rank, 0, d - 1)
    requires LinksOk(Levels(nodes), nodes, level)
    modifies nodes`level
    ensures LinksOk(Levels(Without(nodes, d)), Without(nodes, d), level)
    ensures |x.level| > 0 && x.level[0].forward == if d + 1 < |nodes| then nodes[d + 1] else null
  {
    hide LinksOk, Levels, AllHalfOut, Next, Without, Found;
    NoneOut(Levels(nodes), nodes, level, d);
    CutOut(nodes, level, d, x, update, rank);
    LinkedOut(nodes, level, d);
    StillLeadsOn(nodes, level, d);
  }

  /** The removed node keeps its own links. */
  lemma StillLeadsOn(nodes: seq<Node>, level: nat, d: nat)
    requires 0 < d < |nodes| && AllHalfOut(Levels(nodes), nodes, level, d, level) && level > 0
    requires forall p :: 0 < p < |nodes| ==> nodes[p].height > 0
    ensures |nodes[d].level| > 0 && nodes[d].level[0].forward == if d + 1 < |nodes| then nodes[d + 1] else null
  {
    assert HalfOut(Levels(nodes), nodes, d, level, d, 0);
    NextUnique(nodes, d, 0, d + 1);
  }

  /** A level only the header reaches is none. */
  lemma OneLess(t: seq<seq<Link>>, nodes: seq<Node>, level: nat)
    requires 0 < |nodes| == |t| && LinksOk(t, nodes, level) && 0 < level <= nodes[0].height
    requires forall p :: 0 < p < |nodes| ==> nodes[p].height <= level
    ensures |t[0]| == nodes[0].height
    ensures t[0][level - 1].forward == null ==>
      LinksOk(t, nodes, level - 1) && forall p :: 0 < p < |nodes| ==> nodes[p].height <= level - 1
    ensures t[0][level - 1].forward != null ==> exists p :: 0 < p < |nodes| && nodes[p].height == level
  {
    assert LinkOk(t, nodes, 0, level - 1);
    if t[0][level - 1].forward == null {
      forall p, j | 0 <= p < |nodes| && 0 <= j < nodes[p].height && j < level - 1 ensures LinkOk(t, nodes, p, j) {
        assert LinkOk(t, nodes, p, j);
      }
    }
  }

  /** The predecessors found before the removal serve the next one too, which moves up to index d. */
  lemma StillFound(nodes: seq<Node>, level: nat, d: nat, update: seq<Node?>, rank: seq<nat>)
    requires 0 < d < |nodes|
    requires Found(nodes, level, update, rank, 0, d - 1)
    ensures Found(Without(nodes, d), level, update, rank, 0, d - 1)
  {
    hide Next;
    forall j | 0 <= j < level ensures FoundAt(Without(nodes, d), update[j], rank[j], j, d - 1) {
      assert FoundAt(nodes, update[j], rank[j], j, d - 1);
      WithoutNext(nodes, d, rank[j], j);
    }
  }
}
