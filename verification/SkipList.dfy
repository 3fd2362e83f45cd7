/** The order-statistic skip list of skiplist.c on heap nodes. */
module SkipLists {
  import opened SkipLinks
  import opened SkipOrder
  import opened SkipSplice

  class SkipList {
    var header: Node
    var tail: Node?
    var length: nat
    var level: nat
    /** The header and the nodes behind it in the order of level 0. */
    ghost var nodes: seq<Node>

    /** Nodes behind the header, none above the list's level. */
    ghost predicate NodesOk(nodes: seq<Node>)
      reads this`header, this`level
    {
      && |nodes| > 0 && nodes[0] == header && Distinct(nodes)
      && forall p :: 0 < p < |nodes| ==> 1 <= nodes[p].height <= level && !nodes[p].isHeader
    }

    /** The members in order. */
    ghost function Members(): seq<Element>
      requires |nodes| > 0
      reads this
    {
      MembersOf(nodes)
    }

    /** Nodes that are linked up and sorted. */
    ghost predicate Ready(n: seq<Node>)
      reads this`header, this`level, this`tail, n`level, n`backward
    {
      && NodesOk(n) && 1 <= level <= MAXLEVEL && header.height == MAXLEVEL && header.isHeader
      && LinksOk(Levels(n), n, level) && BackOk(n, tail) && Sorted(MembersOf(n))
    }

    /** Everything but a tight level, which insertion and deletion restore last. */
    ghost predicate Loose()
      reads this, nodes`level, nodes`backward
    {
      Ready(nodes) && |nodes| == length + 1
    }

    /** No level above the highest node. */
    ghost predicate Tight()
      requires |nodes| > 0
      reads this
    {
      level > 1 ==> exists p :: 0 < p < |nodes| && nodes[p].height == level
    }

    ghost predicate Valid()
      reads this, nodes`level, nodes`backward
    {
      Loose() && Tight()
    }

    /** The members stand by score, and those of one score by their bytes. */
    lemma MembersInOrder()
      requires Valid()
      ensures InOrder(Members())
    {
      SortedIsInOrder(Members());
    }

    /** slCreate */
    constructor ()
      ensures Valid() && Members() == [] && fresh(nodes)
    {
      header := new Node(MAXLEVEL, Element(0.0, []), true);
      tail, length, level := null, 0, 1;
      new;
      nodes := [header];
      NextUnique(nodes, 0, 0, 1);
    }

    /** Follow one link: where it leads and how far. */
    lemma Follow(p: nat, i: nat)
      requires Loose() && p < |nodes| && i < nodes[p].height && i < level
      ensures |nodes[p].level| == nodes[p].height
      ensures var q := Next(nodes, p, i);
        if q < |nodes| then nodes[p].level[i] == Link(nodes[q], q - p) && q > 0 && !nodes[q].isHeader
        else nodes[p].level[i].forward == null && nodes[p].level[i].span == length - p
    {
      assert LinkOk(Levels(nodes), nodes, p, i);
    }

    lemma Bounds()
      requires Loose()
      ensures 1 <= level <= MAXLEVEL == header.height && |nodes| == length + 1 && nodes[0] == header
      ensures |header.level| == MAXLEVEL && header.isHeader && Distinct(nodes)
      ensures level < MAXLEVEL ==> header.level[level].forward == null
    {
    }

    /** The nodes up to index R, and only these, are those a search goes past. */
    ghost predicate Splits(goal: Goal, R: nat)
      reads this
    {
      R < |nodes| && forall p :: 0 < p < |nodes| ==> (Onward(goal, nodes[p].member, p) <==> p <= R)
    }

    lemma CountSplits(e: Element)
      requires Loose()
      ensures Splits(BeforeMember(e), CountBefore(Members(), e))
      ensures Splits(BehindMember(e), CountAtMost(Members(), e))
    {
      hide Before, AtMost, CountBefore, CountAtMost;
      CountBeforeSplits(Members(), e);
      CountAtMostSplits(Members(), e);
      forall p | 0 < p < |nodes|
        ensures Before(nodes[p].member, e) <==> p <= CountBefore(Members(), e)
        ensures AtMost(nodes[p].member, e) <==> p <= CountAtMost(Members(), e)
      {
        assert Members()[p - 1] == nodes[p].member;
      }
    }

    lemma RankSplits(n: nat)
      requires Loose()
      ensures n <= length ==> Splits(BehindRank(n), n)
      ensures Splits(BeforeRank(n), Below(n))
    {
    }

    /** One level of a search: forward as long as the next member does not reach the goal. */
    method Walk(x0: Node, r0: nat, i: nat, goal: Goal, ghost R: nat) returns (x: Node, r: nat)
      requires Loose() && Splits(goal, R)
      requires r0 <= R && x0 == nodes[r0] && i < x0.height && i < level
      ensures r <= R < |nodes| && x == nodes[r] && x.height > i && FoundAt(nodes, x, r, i, R)
    {
      hide Loose, Next, Onward;
      x, r := x0, r0;
      Follow(r, i);
      while x.level[i].forward != null && Onward(goal, x.level[i].forward.member, r + x.level[i].span)
        invariant r <= R && x == nodes[r] && i < x.height == |x.level|
        invariant var q := Next(nodes, r, i);
          if q < |nodes| then x.level[i] == Link(nodes[q], q - r) && q > 0 else x.level[i].forward == null
        decreases |nodes| - r
      {
        r := r + x.level[i].span;
        x := x.level[i].forward;
        Follow(r, i);
      }
    }

    /** The search on one level, and what it leaves in update and rank. */
    method SearchLevel(update: array<Node?>, rank: array<nat>, x0: Node, r0: nat, i: nat, e: Element, ghost R: nat)
      returns (x: Node, r: nat)
      requires Loose() && Splits(BeforeMember(e), R) && i < level
      requires r0 <= R && x0 == nodes[r0] && i < x0.height
      requires Found(nodes, level, update[..], rank[..], i + 1, R)
      modifies update, rank
      ensures Loose() && Splits(BeforeMember(e), R)
      ensures r <= R && x == nodes[r] && i < x.height
      ensures Found(nodes, level, update[..], rank[..], i, R)
    {
      hide Loose, Splits, FoundAt, Next;
      ghost var u, s := update[..], rank[..];
      x, r := Walk(x0, r0, i, BeforeMember(e), R);
      update[i], rank[i] := x, r;
      assert update[..] == u[i := x] && rank[..] == s[i := r];
    }

    /** The search of slInsert: for every level the last node before e, and its rank (slDelete needs no ranks). */
    method FindBefore(e: Element) returns (update: array<Node?>, rank: array<nat>)
      requires Loose()
      ensures fresh(update) && fresh(rank) && update.Length == MAXLEVEL
      ensures Found(nodes, level, update[..], rank[..], 0, CountBefore(Members(), e))
    {
      hide Loose, Splits, FoundAt, Next, Distinct, Sorted;
      Bounds();
      CountSplits(e);
      ghost var R := CountBefore(Members(), e);
      update := new Node?[MAXLEVEL];
      rank := new nat[MAXLEVEL];
      var x: Node, r: nat, i: nat := header, 0, level;
      while i > 0
        invariant Loose() && Splits(BeforeMember(e), R)
        invariant i <= level && r <= R < |nodes| && x == nodes[r] && i <= x.height
        invariant Found(nodes, level, update[..], rank[..], i, R)
      {
        i := i - 1;
        x, r := SearchLevel(update, rank, x, r, i, e, R);
      }
    }

    /** One level more: only the header is there. */
    method RaiseHeader()
      requires Loose() && level < MAXLEVEL
      modifies this`level, header`level
      ensures Loose() && level == old(level) + 1
      ensures forall R: nat :: R < |nodes| ==> FoundAt(nodes, header, 0, old(level), R)
    {
      hide LinksOk, Sorted, Levels, BackOk, Next, Distinct, MembersOf;
      ghost var t: seq<seq<Link>> := Levels(nodes);
      Bounds();
      header.level := header.level[level := header.level[level].(span := length)];
      assert Levels(nodes) == t[0 := t[0][level := Link(null, |nodes| - 1)]];
      OneMore(t, Levels(nodes), nodes, level);
      level := level + 1;
    }
  
    method RaiseOne(update: array<Node?>, rank: array<nat>, ghost R: nat)
      requires Loose() && level < MAXLEVEL && R < |nodes|
      requires Found(nodes, level, update[..], rank[..], 0, R)
      modifies update, rank, this`level, header`level
      ensures Loose() && level == old(level) + 1
      ensures Found(nodes, level, update[..], rank[..], 0, R)
    {
      hide FoundAt, LinksOk, BackOk, Sorted;
      ghost var u, s := update[..], rank[..];
      rank[level] := 0;
      update[level] := header;
      assert update[..] == u[level := header] && rank[..] == s[level := 0];
      RaiseHeader();
    }

    /** Lift the list to the level of a new node (the original assigns the level after its loop). */
    method Raise(update: array<Node?>, rank: array<nat>, newLevel: nat, ghost R: nat)
      requires Loose() && newLevel <= MAXLEVEL && R < |nodes|
      requires Found(nodes, level, update[..], rank[..], 0, R)
      modifies update, rank, this`level, header`level
      ensures Loose() && level == if old(level) < newLevel then newLevel else old(level)
      ensures Found(nodes, level, update[..], rank[..], 0, R)
    {
      hide Loose, Found;
      while level < newLevel
        invariant Loose() && Found(nodes, level, update[..], rank[..], 0, R)
        invariant old(level) <= level && (level <= newLevel || level == old(level))
      {
        RaiseOne(update, rank, R);
      }
    }

    /** Chain a new node behind index R, which leads on to the old next one. */
    method ChainIn(x: Node, u: Node, ghost R: nat)
      requires R < |nodes| && Distinct(nodes) && x !in nodes && BackOk(nodes, tail) && u == nodes[R] && header == nodes[0]
      requires |x.level| > 0 && x.level[0].forward == if R + 1 < |nodes| then nodes[R + 1] else null
      modifies x`backward, nodes`backward, this`tail
      ensures BackOk(With(nodes, R, x), tail)
    {
      x.backward := if u == header then null else u;
      if x.level[0].forward != null {
        x.level[0].forward.backward := x;
      } else {
        tail := x;
      }
    }

    /** What the members are with a new node in its place. */
    lemma InsertedMembers(x: Node)
      requires Loose()
      ensures var R := CountBefore(Members(), x.member);
        R < |nodes| && MembersOf(With(nodes, R, x)) == Inserted(Members(), x.member) && Sorted(MembersOf(With(nodes, R, x)))
    {
      hide LinksOk, Levels, BackOk, Distinct, NodesOk, Sorted, CountBefore;
      InsertedSorted(Members(), x.member);
      Bounds();
      var R := CountBefore(Members(), x.member);
      assert MembersOf(With(nodes, R, x)) == Inserted(Members(), x.member);
    }

    lemma NodesWith(R: nat, x: Node)
      requires NodesOk(nodes) && x !in nodes && 1 <= x.height <= level && !x.isHeader && R < |nodes|
      ensures NodesOk(With(nodes, R, x)) && |With(nodes, R, x)| == |nodes| + 1
      ensures forall n :: n in With(nodes, R, x) ==> n in nodes || n == x
      ensures Distinct(nodes) && nodes[0] == header && forall p :: 0 < p < |nodes| ==> nodes[p].height > 0
    {
    }

    /** The new nodes and their number. */
    method Install(newLength: nat, ghost n: seq<Node>)
      requires Ready(n) && |n| == newLength + 1
      modifies this`length, this`nodes
      ensures Loose() && nodes == n
    {
      hide NodesOk, LinksOk, Levels, BackOk, Sorted, MembersOf;
      length := newLength;
      nodes := n;
    }

    /** Put a new node in its place. */
    method Place(x: Node, update: array<Node?>, rank: array<nat>)
      requires Loose() && x !in nodes && !x.isHeader && |x.level| == x.height && 1 <= x.height <= level
      requires Found(nodes, level, update[..], rank[..], 0, CountBefore(Members(), x.member)) && update.Length > 0
      modifies this`nodes, this`tail, this`length, nodes`level, nodes`backward, x`level, x`backward
      ensures Loose() && nodes == With(old(nodes), CountBefore(old(Members()), x.member), x)
      ensures forall n :: n in nodes ==> n in old(nodes) || n == x
    {
      hide LinksOk, Levels, BackOk, Sorted, With, MembersOf, Inserted, NodesOk, Distinct, Found;
      ghost var R := CountBefore(Members(), x.member);
      InsertedMembers(x);
      NodesWith(R, x);
      LinkIn(nodes, level, R, x, update, rank);
      ghost var n := With(nodes, R, x);
      ghost var t := Levels(n);
      ChainIn(x, update[0], R);
      assert Levels(n) == t;
      Install(length + 1, n);
    }

    /** A level is tight if nodes reached it before, or the new one does. */
    lemma TightWith(s: seq<Node>, R: nat, x: Node)
      requires R < |s| && nodes == With(s, R, x)
      requires x.height == level || (level > 1 ==> exists p :: 0 < p < |s| && s[p].height == level)
      ensures Tight()
    {
      if level > 1 {
        if x.height == level {
          assert nodes[R + 1] == x;
        } else {
          var p :| 0 < p < |s| && s[p].height == level;
          WithAt(s, R, x, Moved(R, p));
        }
      }
    }

    /** The nodes are those of before and one of the height behind index R. */
    ghost predicate NewNode(before: seq<Node>, R: nat, height: nat)
      reads this
    {
      R < |before| && R + 1 < |nodes| && nodes[R + 1].height == height && nodes == With(before, R, nodes[R + 1])
    }

    /** slInsert; the level slRandomLevel draws is a parameter. */
    method Insert(e: Element, height: nat)
      requires Valid() && 1 <= height <= MAXLEVEL
      modifies this, nodes
      ensures Valid() && Members() == Inserted(old(Members()), e)
      ensures NewNode(old(nodes), CountBefore(old(Members()), e), height)
      ensures forall n :: n in nodes ==> n in old(nodes) || fresh(n)
    {
      hide Loose, With, MembersOf, Inserted, Found;
      Bounds();
      ghost var R := CountBefore(Members(), e);
      var update, rank := FindBefore(e);
      Raise(update, rank, height, R);
      var x := new Node(height, e, false);
      InsertedMembers(x);
      Place(x, update, rank);
      TightWith(old(nodes), R, x);
      WithAt(old(nodes), R, x, R + 1);
    }
  
    /** Chain around the node at index d. */
    method ChainOut(x: Node, ghost d: nat)
      requires 0 < d < |nodes| && Distinct(nodes) && x == nodes[d] && BackOk(nodes, tail)
      requires |x.level| > 0 && x.level[0].forward == if d + 1 < |nodes| then nodes[d + 1] else null
      modifies nodes`backward, this`tail
      ensures BackOk(Without(nodes, d), tail)
    {
      if x.level[0].forward != null {
        x.level[0].forward.backward := x.backward;
      } else {
        tail := x.backward;
      }
    }

    lemma NodesWithout(d: nat)
      requires Loose() && 0 < d < |nodes|
      ensures NodesOk(Without(nodes, d)) && |Without(nodes, d)| == |nodes| - 1
      ensures Distinct(nodes) && nodes[0] == header && forall p :: 0 < p < |nodes| ==> nodes[p].height > 0
      ensures MembersOf(Without(nodes, d)) == RemovedAt(Members(), d - 1) && Sorted(MembersOf(Without(nodes, d)))
    {
      hide Levels, Next, LinksOk, BackOk, Sorted;
      RemovedSorted(Members(), d - 1);
      assert MembersOf(Without(nodes, d)) == RemovedAt(Members(), d - 1);
    }

    lemma Remain(d: nat)
      requires d < |nodes|
      ensures forall p :: 0 <= p < |nodes| - 1 ==> Without(nodes, d)[p] in nodes
    {
    }

    /** Drop the levels no node reaches any more. */
    method Shrink()
      requires Loose()
      modifies this`level
      ensures Valid() && level <= old(level)
    {
      hide LinksOk, Levels, BackOk, Sorted, Distinct, MembersOf;
      OneLess(Levels(nodes), nodes, level);
      while level > 1 && header.level[level - 1].forward == null
        invariant Loose() && level <= old(level)
        invariant |header.level| == header.height
        invariant header.level[level - 1].forward != null ==> exists p :: 0 < p < |nodes| && nodes[p].height == level
      {
        OneLess(Levels(nodes), nodes, level);
        level := level - 1;
        OneLess(Levels(nodes), nodes, level);
      }
    }

    /** slDeleteNode (here the length drops before the levels). */
    method DeleteNode(x: Node, update: array<Node?>, ghost rank: seq<nat>, ghost d: nat)
      requires Loose() && 0 < d < |nodes| && x == nodes[d]
      requires Found(nodes, level, update[..], rank, 0, d - 1)
      modifies this, nodes`level, nodes`backward
      ensures Valid() && nodes == Without(old(nodes), d) && level <= old(level)
      ensures Found(nodes, level, update[..], rank, 0, d - 1)
    {
      hide LinksOk, Levels, BackOk, Sorted, Without, MembersOf, RemovedAt, NodesOk, Distinct, Found, Valid, Tight;
      NodesWithout(d);
      StillFound(nodes, level, d, update[..], rank);
      LinkOut(nodes, level, d, x, update, rank);
      ghost var n := Without(nodes, d);
      ghost var t := Levels(n);
      ChainOut(x, d);
      assert Levels(n) == t;
      Install(length - 1, n);
      ghost var was := level;
      Shrink();
      FoundBelow(update[..], rank, was, d - 1);
    }

    lemma FoundBelow(update: seq<Node?>, rank: seq<nat>, was: nat, R: nat)
      requires Found(nodes, was, update, rank, 0, R) && level <= was
      ensures Found(nodes, level, update, rank, 0, R)
    {
    }

    /** Level 0 leads from each node to the next. */
    lemma Neighbour(p: nat)
      requires Loose() && p < |nodes|
      ensures |nodes[p].level| > 0
      ensures nodes[p].level[0].forward == if p + 1 < |nodes| then nodes[p + 1] else null
    {
      Follow(p, 0);
      NextUnique(nodes, p, 0, p + 1);
    }

    lemma FoundAtZero(update: seq<Node?>, rank: seq<nat>, R: nat)
      requires Loose() && Found(nodes, level, update, rank, 0, R)
      ensures R < |nodes| ==> |update| > 0 && update[0] == nodes[R]
    {
      if R < |nodes| {
        assert FoundAt(nodes, update[0], rank[0], 0, R);
        LastAtZero(nodes, rank[0], R);
      }
    }

    /** slDelete: removes the first of the members equal to e, if there is one. */
    method Delete(e: Element) returns (found: bool)
      requires Valid()
      modifies this, nodes`level, nodes`backward
      ensures Valid() && (found <==> e in old(Members()))
      ensures found ==> var r := CountBefore(old(Members()), e);
        r < |old(Members())| && old(Members())[r] == e && Members() == RemovedAt(old(Members()), r)
      ensures !found ==> Members() == old(Members())
      ensures forall p :: 0 <= p < |nodes| ==> nodes[p] in old(nodes)
    {
      hide LinksOk, Levels, BackOk, Tight, Sorted, Without, FoundAt, RemovedAt;
      Bounds();
      ghost var R := CountBefore(Members(), e);
      var update, rank := FindBefore(e);
      FoundAtZero(update[..], rank[..], R);
      Neighbour(R);
      FirstEqual(Members(), e);
      var x := update[0].level[0].forward;
      if x != null {
        CompareEqual(x.member.obj, e.obj);
      }
      found := x != null && e.score == x.member.score && CompareObj(x.member.obj, e.obj) == 0;
      if found {
        NodesWithout(R + 1);
        Remain(R + 1);
        DeleteNode(x, update, rank[..], R + 1);
      }
    }

    /** The last index below rank start. */
    ghost function Below(start: nat): nat
      reads this
    {
      if start == 0 then 0 else if start - 1 < length then start - 1 else length
    }

    lemma BelowBound(start: nat)
      ensures Below(start) <= length
    {
    }

    /** The search of slDeleteByRank: on every level the last node before rank start. */
    method FindBelowRank(start: nat, ghost R: nat)
      returns (update: array<Node?>, x: Node, traversed: nat, ghost rank: seq<nat>)
      requires Loose() && R == Below(start)
      ensures fresh(update) && traversed == R < |nodes| && x == nodes[R]
      ensures Found(nodes, level, update[..], rank, 0, R)
    {
      hide Loose, FoundAt, Next, Distinct, Below;
      Bounds();
      BelowBound(start);
      RankSplits(start);
      update, rank := new Node?[MAXLEVEL], seq(MAXLEVEL, _ => 0);
      x, traversed := header, 0;
      var i: nat := level;
      while i > 0
        invariant Loose() && R == Below(start) && i <= level && traversed <= R && x == nodes[traversed] && i <= x.height
        invariant i < level ==> FoundAt(nodes, x, traversed, i, R)
        invariant Found(nodes, level, update[..], rank, i, R)
      {
        i := i - 1;
        ghost var u := update[..];
        x, traversed := Walk(x, traversed, i, BeforeRank(start), R);
        update[i], rank := x, rank[i := traversed];
        assert update[..] == u[i := x];
      }
      RankAtZero(x, traversed, R);
    }

    lemma RankAtZero(x: Node, r: nat, R: nat)
      requires Loose() && FoundAt(nodes, x, r, 0, R) && R < |nodes|
      ensures r == R
    {
      LastAtZero(nodes, r, R);
    }
  
    /** One round of the loop of slDeleteByRank. */
    method DeleteNext(x: Node, update: array<Node?>, ghost rank: seq<nat>, ghost R: nat) returns (next: Node?)
      requires Valid() && R + 1 < |nodes| && x == nodes[R + 1]
      requires Found(nodes, level, update[..], rank, 0, R)
      modifies this, nodes`level, nodes`backward
      ensures Valid() && Found(nodes, level, update[..], rank, 0, R)
      ensures next == (if R + 1 < |nodes| then nodes[R + 1] else null)
      ensures |old(Members())| > R && x.member == old(Members())[R] && Members() == RemovedAt(old(Members()), R)
      ensures |nodes| == |old(nodes)| - 1 && forall p :: 0 <= p < |nodes| ==> nodes[p] in old(nodes)
    {
      hide Loose, Tight, FoundAt, RemovedAt;
      Neighbour(R + 1);
      NodesWithout(R + 1);
      Remain(R + 1);
      next := x.level[0].forward;
      DeleteNode(x, update, rank, R + 1);
    }

    /** slDeleteByRank: removes the members of ranks start to end, and hands their objects to the caller in order. */
    method DeleteByRank(start: nat, end: nat) returns (removed: nat, deleted: seq<Obj>)
      requires Valid()
      modifies this, nodes`level, nodes`backward
      ensures Valid()
      ensures var s := old(Members());
        var a := if start == 0 then 0 else if start - 1 < |s| then start - 1 else |s|;
        var b := if end < a then a else if end < |s| then end else |s|;
        Members() == Cut(s, a, b) && removed == b - a && deleted == Objects(s[a..b])
      ensures forall p :: 0 <= p < |nodes| ==> nodes[p] in old(nodes)
    {
      hide Loose, Tight, Found, RemovedAt, Cut, MembersOf;
      ghost var R := Below(start);
      Bounds();
      ghost var s := Members();
      var update, x0, traversed, rank := FindBelowRank(start, R);
      removed, deleted := 0, [];
      Neighbour(R);
      traversed := traversed + 1;
      var x := x0.level[0].forward;
      assert Cut(s, R, R) == s by { CutNothing(s, R); }
      while x != null && traversed <= end
        invariant Valid() && Found(nodes, level, update[..], rank, 0, R)
        invariant x == (if R + 1 < |nodes| then nodes[R + 1] else null)
        invariant |nodes| == |s| + 1 - removed && R + removed <= |s| && traversed == R + 1 + removed
        invariant Members() == Cut(s, R, R + removed) && deleted == Objects(s[R..R + removed])
        invariant forall p :: 0 <= p < |nodes| ==> nodes[p] in old(nodes)
        invariant removed == 0 || R + removed <= end
        decreases |nodes|
      {
        CutMore(s, R, R + removed);
        var next := DeleteNext(x, update, rank, R);
        deleted := deleted + [x.member.obj];
        removed, traversed := removed + 1, traversed + 1;
        x := next;
      }
    }

    /** slGetNodeByRank */
    method GetNodeByRank(rank: nat) returns (node: Node?)
      requires Valid()
      ensures node == if 1 <= rank <= length then nodes[rank] else null
    {
      hide Loose, Tight, FoundAt, Next, Distinct;
      if rank == 0 || rank > length {
        return null;
      }
      Bounds();
      RankSplits(rank);
      var x: Node, traversed: nat, i: nat := header, 0, level;
      while i > 0
        invariant i <= level && traversed < rank && x == nodes[traversed] && i <= x.height
        invariant i < level ==> FoundAt(nodes, x, traversed, i, rank)
      {
        i := i - 1;
        x, traversed := Walk(x, traversed, i, BehindRank(rank), rank);
        if traversed == rank {
          return x;
        }
      }
      RankAtZero(x, traversed, rank);
      assert false;
    }

    /** Rank r is where a search for e stops on some level, and its member has the object of e. */
    ghost predicate Stop(e: Element, r: nat, i: nat)
      requires |nodes| > 0
      reads this
    {
      0 < r < |nodes| && i < level && Last(nodes, r, i, CountAtMost(Members(), e)) && nodes[r].member.obj == e.obj
    }

    ghost predicate UniqueObjects()
      requires |nodes| > 0
      reads this
    {
      OwnObjects(Members())
    }

    /** The last member not behind e is a stop if it has the object of e, even under an older score. */
    lemma StopsAtLast(e: Element)
      requires Loose()
      ensures var R := CountAtMost(Members(), e);
        R > 0 && Members()[R - 1].obj == e.obj ==> Stop(e, R, 0)
    {
    }

    /** With one member an object, a member's search stops there and nowhere else. */
    lemma StopsAtMember(e: Element, p: nat)
      requires Loose() && UniqueObjects() && p < length && |nodes| == length + 1 && Members()[p] == e
      ensures Stop(e, p + 1, 0)
      ensures forall r, i :: Stop(e, r, i) ==> r == p + 1
    {
      var R := CountAtMost(Members(), e);
      CountAtMostSplits(Members(), e);
      BeforeTotal(e, e);
      assert p < R;
      assert AtMost(Members()[p], Members()[R - 1]);
      BeforeTotal(e, Members()[R - 1]);
      BeforeTotal(Members()[R - 1], e);
      assert Members()[R - 1] == e;
      StopsAtLast(e);
      forall r, i | Stop(e, r, i) ensures r == p + 1 {
        assert Members()[r - 1].obj == e.obj;
      }
    }

    /** The topmost stop, or 0 if there is none. */
    ghost predicate TopStop(e: Element, rank: nat)
      requires |nodes| > 0
      reads this
    {
      if rank == 0 then forall i, r :: !Stop(e, r, i)
      else exists i :: Stop(e, rank, i) && forall j, r :: i < j ==> !Stop(e, r, j)
    }

    /** The member at p is the object of e under a lower score. */
    ghost predicate Older(e: Element, p: nat)
      requires |nodes| > 0
      reads this
    {
      p < |nodes| - 1 && Members()[p].obj == e.obj && Members()[p].score < e.score
    }

    /** The node of rank r is higher than all behind it up to rank R. */
    ghost predicate Towers(r: nat, R: nat)
      reads this
    {
      r < |nodes| && forall q :: r < q <= R && q < |nodes| ==> nodes[q].height < nodes[r].height
    }

    ghost predicate NoneIsOlder(e: Element)
      requires |nodes| > 0
      reads this
    {
      forall p: nat :: !Older(e, p)
    }

    /** The search finds the object of e at p under a lower score. */
    ghost predicate Misleads(e: Element, p: nat)
      requires |nodes| > 0
      reads this
    {
      Older(e, p) && Towers(p + 1, CountAtMost(Members(), e))
    }

    ghost predicate Unmisled(e: Element)
      requires |nodes| > 0
      reads this
    {
      forall p: nat :: !Misleads(e, p)
    }

    /** A rank is a stop exactly when its node towers over those behind it that are not behind e. */
    lemma StopIff(e: Element, r: nat)
      requires Loose() && 0 < r < |nodes|
      ensures var R := CountAtMost(Members(), e);
        (exists i :: Stop(e, r, i)) <==> nodes[r].member.obj == e.obj && r <= R && Towers(r, R)
    {
      var R := CountAtMost(Members(), e);
      if nodes[r].member.obj == e.obj && r <= R && Towers(r, R) {
        assert Stop(e, r, nodes[r].height - 1);
      }
    }

    /** Where the object has no lower score in the list, the search is right whatever the levels are. */
    lemma NoneOlder(e: Element, rank: nat)
      requires Loose() && TopStop(e, rank) && NoneIsOlder(e)
      ensures if e in Members() then 0 < rank < |nodes| && Members()[rank - 1] == e else rank == 0
    {
      var R, s := CountAtMost(Members(), e), Members();
      CountAtMostSplits(s, e);
      if rank != 0 {
        var i :| Stop(e, rank, i);
        assert AtMost(s[rank - 1], e) && !Older(e, rank - 1);
      } else if e in s {
        var p :| 0 <= p < |s| && s[p] == e;
        BeforeTotal(e, e);
        assert AtMost(s[p], s[R - 1]);
        BeforeTotal(e, s[R - 1]);
        BeforeTotal(s[R - 1], e);
        StopsAtLast(e);
      }
    }

    /** With one member an object, an older score is found exactly when its node towers over those behind it. */
    lemma OlderFound(e: Element, p: nat, rank: nat)
      requires Loose() && UniqueObjects() && TopStop(e, rank) && Older(e, p)
      ensures rank == if Towers(p + 1, CountAtMost(Members(), e)) then p + 1 else 0
      ensures e !in Members()
    {
      CountAtMostSplits(Members(), e);
      StopIff(e, p + 1);
      if rank != 0 {
        StopIff(e, rank);
        assert Members()[rank - 1].obj == Members()[p].obj;
      }
    }

    /** slGetRank is right unless an older score is in the way: for members with objects of their own, exactly then. */
    lemma RankIsRight(e: Element, rank: nat)
      requires Loose() && UniqueObjects() && TopStop(e, rank)
      ensures rank == RankOf(Members(), e) <==> Unmisled(e)
    {
      hide Loose, TopStop, Towers, UniqueObjects, Older, CountBefore, CountAtMost;
      Bounds();
      if NoneIsOlder(e) {
        NoneOlder(e, rank);
        SortedMembers();
        FirstEqual(Members(), e);
        if e in Members() {
          OneRank(e, rank - 1, CountBefore(Members(), e));
        }
      } else {
        var p: nat :| Older(e, p);
        OlderFound(e, p, rank);
        OlderDecides(e, p);
      }
    }

    lemma OlderDecides(e: Element, p: nat)
      requires Loose() && UniqueObjects() && Older(e, p)
      ensures Unmisled(e) <==> !Towers(p + 1, CountAtMost(Members(), e))
    {
      hide Loose, Towers, UniqueObjects, Older;
      Bounds();
      forall q: nat | Older(e, q) ensures q == p {
        OlderOnce(e, p, q);
      }
      if Towers(p + 1, CountAtMost(Members(), e)) {
        assert Misleads(e, p);
      }
    }

    lemma OlderOnce(e: Element, p: nat, q: nat)
      requires Loose() && UniqueObjects() && Older(e, p) && Older(e, q)
      ensures p == q
    {
    }

    lemma OneRank(e: Element, p: nat, q: nat)
      requires Loose() && UniqueObjects() && p < |Members()| && q < |Members()| && Members()[p] == Members()[q] == e
      ensures p == q
    {
    }

    lemma SortedMembers()
      requires Loose()
      ensures Sorted(Members())
    {
    }

    /**
     slGetRank: the rank of the topmost stop with the object of e, 0 if there is none. It is the rank of the member e, or 0
     if e is no member, whenever the list does not hold the object under a lower score; and if it does, then by chance only.
     */
    method GetRank(e: Element) returns (rank: nat)
      requires Valid()
      ensures |nodes| == length + 1 && TopStop(e, rank)
      ensures NoneIsOlder(e) ==> if e in Members() then 0 < rank <= length && Members()[rank - 1] == e else rank == 0
      ensures UniqueObjects() ==> (rank == RankOf(Members(), e) <==> Unmisled(e))
      ensures UniqueObjects() ==> forall p: nat :: Misleads(e, p) ==> rank == p + 1
      ensures UniqueObjects() ==> forall p: nat :: p < length && Members()[p] == e ==> rank == p + 1
    {
      rank := SearchRank(e);
      RankMeans(e, rank);
    }

    lemma RankMeans(e: Element, rank: nat)
      requires Loose() && TopStop(e, rank)
      ensures |nodes| == length + 1
      ensures NoneIsOlder(e) ==> if e in Members() then 0 < rank <= length && Members()[rank - 1] == e else rank == 0
      ensures UniqueObjects() ==> (rank == RankOf(Members(), e) <==> Unmisled(e))
      ensures UniqueObjects() ==> forall p: nat :: Misleads(e, p) ==> rank == p + 1
      ensures UniqueObjects() ==> forall p: nat :: p < length && Members()[p] == e ==> rank == p + 1
    {
      hide Loose, Tight, TopStop, RankOf, NoneIsOlder, Unmisled, Misleads, UniqueObjects;
      Bounds();
      if NoneIsOlder(e) {
        NoneOlder(e, rank);
      }
      if UniqueObjects() {
        RankIsRight(e, rank);
        forall p: nat | p < length && Members()[p] == e ensures rank == p + 1 {
          OneStop(e, p, rank);
        }
        forall p: nat | Misleads(e, p) ensures rank == p + 1 {
          MisledTo(e, p, rank);
        }
      }
    }

    lemma MisledTo(e: Element, p: nat, rank: nat)
      requires Loose() && UniqueObjects() && TopStop(e, rank) && Misleads(e, p)
      ensures rank == p + 1
    {
      OlderFound(e, p, rank);
    }

    lemma OneStop(e: Element, p: nat, rank: nat)
      requires Loose() && UniqueObjects() && TopStop(e, rank) && p < |Members()| && Members()[p] == e
      ensures rank == p + 1
    {
      StopsAtMember(e, p);
    }

    method SearchRank(e: Element) returns (rank: nat)
      requires Valid()
      ensures |nodes| == length + 1 && TopStop(e, rank)
    {
      hide Loose, Tight, Next, Distinct, CountAtMost;
      Bounds();
      ghost var R := CountAtMost(Members(), e);
      CountSplits(e);
      rank := 0;
      var x: Node, i: nat := header, level;
      while i > 0
        invariant i <= level && rank <= R && x == nodes[rank] && i <= x.height
        invariant forall j, r :: i <= j ==> !Stop(e, r, j)
      {
        i := i - 1;
        x, rank := Walk(x, rank, i, BehindMember(e), R);
        Header(rank);
        CompareEqual(x.member.obj, e.obj);
        if !x.isHeader && CompareObj(x.member.obj, e.obj) == 0 {
          assert Stop(e, rank, i);
          return;
        }
        forall r ensures !Stop(e, r, i) {
          if Stop(e, r, i) {
            LastUnique(nodes, r, rank, i, R);
          }
        }
      }
      rank := 0;
    }

    lemma Header(p: nat)
      requires Loose() && p < |nodes|
      ensures nodes[p].isHeader <==> p == 0
    {
    }
  }

  /** Where slGetRank should find a member, 0 if it is none. */
  ghost function RankOf(s: seq<Element>, e: Element): nat
  {
    if e in s then CountBefore(s, e) + 1 else 0
  }

  ghost predicate OwnObjects(s: seq<Element>)
  {
    forall p, q :: 0 <= p < q < |s| ==> s[p].obj != s[q].obj
  }

  /** In a sorted sequence without repetitions all members before the n-th come before it. */
  lemma {:induction false} AllBefore(s: seq<Element>, e: Element)
    requires forall p :: 0 <= p < |s| ==> Before(s[p], e)
    ensures CountBefore(s, e) == |s| && Inserted(s, e) == s + [e]
  {
    if s != [] {
      AllBefore(s[1..], e);
    }
  }

  lemma NextBehind(s: seq<Element>, n: nat)
    requires Sorted(s) && OwnObjects(s) && n < |s|
    ensures CountBefore(s[..n], s[n]) == n && Inserted(s[..n], s[n]) == s[..n + 1]
  {
    forall p | 0 <= p < n ensures Before(s[..n][p], s[n]) {
      BeforeTotal(s[p], s[n]);
      BeforeTotal(s[n], s[p]);
    }
    AllBefore(s[..n], s[n]);
  }

  /** A list of given members on which the levels turn out so that one node is higher than the others. */
  method Build(s: seq<Element>, k: nat) returns (list: SkipList)
    requires Sorted(s) && OwnObjects(s)
    ensures fresh(list) && list.Valid() && |list.nodes| == |s| + 1 && list.Members() == s
    ensures forall q :: 0 < q < |list.nodes| ==> list.nodes[q].height == if q == k + 1 then 2 else 1
  {
    hide SkipList.Valid, Sorted, OwnObjects, CountBefore, Inserted;
    list := new SkipList();
    for n := 0 to |s|
      invariant fresh(list) && forall p :: 0 <= p < |list.nodes| ==> fresh(list.nodes[p])
      invariant list.Valid() && |list.nodes| == n + 1 && list.Members() == s[..n]
      invariant forall q :: 0 < q <= n ==> list.nodes[q].height == if q == k + 1 then 2 else 1
    {
      NextBehind(s, n);
      list.Insert(s[n], if n == k then 2 else 1);
      assert forall p :: 0 <= p < |list.nodes| ==> list.nodes[p] in list.nodes;
    }
    assert s[..|s|] == s;
  }

  /** Whenever an object is in the list under a lower score, there are levels for which slGetRank finds it there. */
  method Misled(s: seq<Element>, e: Element, k: nat) returns (rank: nat)
    requires Sorted(s) && OwnObjects(s) && k < |s| && s[k].obj == e.obj && s[k].score < e.score
    ensures rank == k + 1 && RankOf(s, e) == 0
  {
    hide SkipList.Valid, Sorted, CountAtMost, SkipList.Stop;
    var list := Build(s, k);
    assert list.Misleads(e, k);
    rank := list.GetRank(e);
    Absent(s, e, k);
  }

  lemma Absent(s: seq<Element>, e: Element, k: nat)
    requires OwnObjects(s) && k < |s| && s[k].obj == e.obj && s[k].score < e.score
    ensures e !in s
  {
  }

  /** Two objects under one score, the later one inserted first: the ranks are those of a dictionary. */
  method TwoOfOneScore(score: real, a: Obj, b: Obj) returns (first: Obj, ra: nat, rb: nat)
    requires Dictionary(a, b)
    ensures first == a && ra == 1 && rb == 2
  {
    hide SkipList.Loose, SkipList.Tight, SkipList.Stop, CountAtMost, Dictionary, CompareObj;
    var e, f := Element(score, a), Element(score, b);
    CompareIsDictionary(a, b);
    CompareEqual(a, b);
    BeforeTotal(f, e);
    BeforeTotal(e, f);
    var list := new SkipList();
    list.Insert(f, 1);
    assert forall p :: 0 <= p < |list.nodes| ==> list.nodes[p] in list.nodes;
    list.Insert(e, 1);
    list.Bounds();
    assert list.Members() == [e, f];
    assert list.UniqueObjects();
    var node := list.GetNodeByRank(1);
    first := node.member.obj;
    ra := list.GetRank(e);
    rb := list.GetRank(f);
    assert list.Members()[0] == e && list.Members()[1] == f;
  }

  /** A list of one member has its object under any later score too, whatever its level. */
  method StaleFound(obj: Obj, score: real, later: real, height: nat) returns (rank: nat)
    requires score < later && 1 <= height <= MAXLEVEL
    ensures rank == 1 && RankOf([Element(score, obj)], Element(later, obj)) == 0
  {
    hide SkipList.Valid, CountAtMost, SkipList.Stop;
    var list := new SkipList();
    list.Insert(Element(score, obj), height);
    assert list.Members() == [Element(score, obj)];
    assert list.Misleads(Element(later, obj), 0);
    rank := list.GetRank(Element(later, obj));
  }
}
