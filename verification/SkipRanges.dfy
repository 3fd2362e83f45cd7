/** The range queries of skiplist.c and the loops of lua-skiplist.c over them. */
module SkipRanges {
  import opened SkipLinks
  import opened SkipLists
  import opened SkipOrder
  import opened SkipSplice

  // ----- what they ought to return

  /** The members with a score in the closed range. */
  ghost function ScoredWithin(s: seq<Element>, lo: real, hi: real): (t: seq<Element>)
  {
    if s == [] then []
    else (if lo <= s[0].score <= hi then [s[0]] else []) + ScoredWithin(s[1..], lo, hi)
  }

  ghost function Reversed(s: seq<Element>): (t: seq<Element>)
    ensures |t| == |s| && forall p :: 0 <= p < |s| ==> t[p] == s[|s| - 1 - p]
  {
    seq(|s|, p requires 0 <= p < |s| => s[|s| - 1 - p])
  }

  /** How many members of a sorted sequence score less than x, and how many not more. */
  ghost function CountBelow(s: seq<Element>, x: real): (r: nat)
    ensures r <= |s|
  {
    if s == [] || s[0].score >= x then 0 else 1 + CountBelow(s[1..], x)
  }

  ghost function CountUpTo(s: seq<Element>, x: real): (r: nat)
    ensures r <= |s|
  {
    if s == [] || s[0].score > x then 0 else 1 + CountUpTo(s[1..], x)
  }

  lemma {:induction false} CountBelowSplits(s: seq<Element>, x: real)
    requires Sorted(s)
    ensures forall p :: 0 <= p < |s| ==> (s[p].score < x <==> p < CountBelow(s, x))
  {
    if s != [] {
      CountBelowSplits(s[1..], x);
      forall p | 0 <= p < |s| ensures s[p].score < x <==> p < CountBelow(s, x) {
        if p > 0 {
          assert s[1..][p - 1] == s[p] && AtMost(s[0], s[p]);
        }
      }
    }
  }

  lemma {:induction false} CountUpToSplits(s: seq<Element>, x: real)
    requires Sorted(s)
    ensures forall p :: 0 <= p < |s| ==> (s[p].score <= x <==> p < CountUpTo(s, x))
  {
    if s != [] {
      CountUpToSplits(s[1..], x);
      forall p | 0 <= p < |s| ensures s[p].score <= x <==> p < CountUpTo(s, x) {
        if p > 0 {
          assert s[1..][p - 1] == s[p] && AtMost(s[0], s[p]);
        }
      }
    }
  }

  /** On a sorted sequence a closed range of scores is one stretch. */
  lemma {:induction false} WithinIsStretch(s: seq<Element>, lo: real, hi: real)
    requires Sorted(s) && lo <= hi
    ensures CountBelow(s, lo) <= CountUpTo(s, hi)
    ensures ScoredWithin(s, lo, hi) == s[CountBelow(s, lo)..CountUpTo(s, hi)]
  {
    if s != [] {
      WithinIsStretch(s[1..], lo, hi);
      var a, b := CountBelow(s[1..], lo), CountUpTo(s[1..], hi);
      assert |s| > 1 ==> AtMost(s[0], s[1]);
      Shifted(s, a, b);
      Counted(s, lo, hi);
      hide Sorted, AtMost;
      assert s[0].score >= lo && |s| > 1 ==> s[1].score >= lo;
      assert s[0].score > hi && |s| > 1 ==> s[1].score > hi;
      hide ScoredWithin, CountBelow, CountUpTo;
    }
  }

  lemma Shifted<T>(s: seq<T>, a: nat, b: nat)
    requires s != [] && a <= b < |s|
    ensures s[1..][a..b] == s[a + 1..b + 1] && [s[0]] + s[1..][0..b] == s[0..b + 1]
  {
  }

  lemma Counted(s: seq<Element>, lo: real, hi: real)
    requires s != []
    ensures CountBelow(s, lo) == if s[0].score >= lo then 0 else 1 + CountBelow(s[1..], lo)
    ensures CountUpTo(s, hi) == if s[0].score > hi then 0 else 1 + CountUpTo(s[1..], hi)
    ensures |s| > 1 && s[1].score >= lo ==> CountBelow(s[1..], lo) == 0
    ensures |s| > 1 && s[1].score > hi ==> CountUpTo(s[1..], hi) == 0
    ensures ScoredWithin(s, lo, hi) == (if lo <= s[0].score <= hi then [s[0]] else []) + ScoredWithin(s[1..], lo, hi)
  {
  }

  /** The members in a range, as what is found at either end of it tells them. */
  ghost predicate Ends(s: seq<Element>, min: real, max: real, within: seq<Element>, a: nat, u: nat)
  {
    && a <= u <= |s| && within == s[a..u]
    && (a < |s| ==> s[a].score >= min && (s[a].score <= max <==> a < u) && (s[|s| - 1].score >= min))
    && (u > 0 ==> s[u - 1].score <= max && (s[u - 1].score >= min <==> a < u) && s[0].score <= max)
    && (a == |s| > 0 ==> s[|s| - 1].score < min) && (u == 0 < |s| ==> s[0].score > max)
  }

  lemma WithinEnds(s: seq<Element>, min: real, max: real)
    requires Sorted(s) && min <= max
    ensures Ends(s, min, max, ScoredWithin(s, min, max), CountBelow(s, min), CountUpTo(s, max))
  {
    hide Sorted;
    WithinIsStretch(s, min, max);
    CountBelowSplits(s, min);
    CountUpToSplits(s, max);
  }

  lemma {:induction false} NoneWithin(s: seq<Element>, min: real, max: real)
    requires min > max
    ensures ScoredWithin(s, min, max) == []
  {
    if s != [] {
      NoneWithin(s[1..], min, max);
    }
  }

  /** The first member of a range is the one behind those below it, if that is not above it. */
  lemma FirstIs(s: seq<Element>, min: real, max: real)
    requires Sorted(s)
    ensures var a, within := CountBelow(s, min), ScoredWithin(s, min, max);
      if min <= max && a < |s| && s[0].score <= max then
        s[a].score >= min && (s[a].score <= max <==> within != []) && (within != [] ==> within[0] == s[a])
      else within == []
    ensures min <= max ==> (CountBelow(s, min) < |s| <==> s != [] && s[|s| - 1].score >= min)
  {
    hide Sorted, ScoredWithin, CountBelow, CountUpTo;
    if min <= max {
      WithinEnds(s, min, max);
    } else {
      NoneWithin(s, min, max);
    }
  }

  lemma LastIs(s: seq<Element>, min: real, max: real)
    requires Sorted(s)
    ensures var u, within := CountUpTo(s, max), ScoredWithin(s, min, max);
      if min <= max && u > 0 && s[|s| - 1].score >= min then
        s[u - 1].score <= max && (s[u - 1].score >= min <==> within != []) && (within != [] ==> within[|within| - 1] == s[u - 1])
      else within == []
    ensures min <= max ==> (CountUpTo(s, max) > 0 <==> s != [] && s[0].score <= max)
  {
    hide Sorted, ScoredWithin, CountBelow, CountUpTo;
    if min <= max {
      WithinEnds(s, min, max);
    } else {
      NoneWithin(s, min, max);
    }
  }

  // ----- skiplist.c

  /**
   slIsInRange: some member scores no less than min and some no more than max. This is not to say that one lies in the range:
   the answer is wrong exactly when the range falls between two members next to each other.
   */
  method IsInRange(list: SkipList, min: real, max: real) returns (b: bool)
    requires list.Valid()
    ensures |list.nodes| == list.length + 1
    ensures b <==> min <= max && list.length > 0 &&
                   list.Members()[list.length - 1].score >= min && list.Members()[0].score <= max
    ensures b != (ScoredWithin(list.Members(), min, max) != []) <==>
            min <= max && 0 < CountBelow(list.Members(), min) == CountUpTo(list.Members(), max) < list.length
  {
    hide LinksOk, Levels, Sorted, SkipList.Tight, ScoredWithin, CountBelow, CountUpTo;
    if min <= max {
      WithinEnds(list.Members(), min, max);
    } else {
      NoneWithin(list.Members(), min, max);
    }
    list.Bounds();
    list.Neighbour(0);
    if min > max {
      return false;
    }
    if list.tail == null || list.tail.member.score < min {
      return false;
    }
    var x := list.header.level[0].forward;
    if x == null || x.member.score > max {
      return false;
    }
    return true;
  }

  lemma ScoreSplits(list: SkipList, x: real)
    requires list.Loose()
    ensures list.Splits(BeforeScore(x), CountBelow(list.Members(), x))
    ensures list.Splits(BehindScore(x), CountUpTo(list.Members(), x))
  {
    var s := list.Members();
    CountBelowSplits(s, x);
    CountUpToSplits(s, x);
    forall p | 0 < p < |list.nodes|
      ensures list.nodes[p].member.score < x <==> p <= CountBelow(s, x)
      ensures list.nodes[p].member.score <= x <==> p <= CountUpTo(s, x)
    {
      assert s[p - 1] == list.nodes[p].member;
    }
  }

  lemma Parts(list: SkipList)
    requires list.Valid()
    ensures list.Loose() && |list.nodes| == list.length + 1 && Sorted(MembersOf(list.nodes))
    ensures 1 <= list.level <= MAXLEVEL == list.header.height && list.nodes[0] == list.header
  {
  }

  /** The search of slFirstInRange and slLastInRange over all levels. */
  method Search(list: SkipList, goal: Goal, ghost R: nat) returns (x: Node)
    requires list.Loose() && list.Splits(goal, R)
    ensures R < |list.nodes| && x == list.nodes[R]
  {
    hide SkipList.Loose, SkipList.Splits, Next, FoundAt;
    list.Bounds();
    x := list.header;
    var i: nat, r: nat := list.level, 0;
    while i > 0
      invariant i <= list.level && r <= R && r < |list.nodes| && x == list.nodes[r] && i <= x.height
      invariant i < list.level ==> FoundAt(list.nodes, x, r, i, R) && R < |list.nodes|
    {
      i := i - 1;
      x, r := list.Walk(x, r, i, goal, R);
    }
    list.RankAtZero(x, r, R);
  }

  /**
   slFirstInRange: the first member scoring no less than min. Only if it is not above max as well is it in the range,
   and otherwise no member is.
   */
  method FirstInRange(list: SkipList, min: real, max: real) returns (node: Node?)
    requires list.Valid()
    ensures |list.nodes| == list.length + 1
    ensures var r := CountBelow(list.Members(), min) + 1;
      if min <= max && r <= list.length && list.Members()[0].score <= max then node == list.nodes[r] else node == null
    ensures var within := ScoredWithin(list.Members(), min, max);
      && (within != [] ==> node != null && node.member == within[0])
      && (node != null ==> node.member.score >= min && (node.member.score <= max <==> within != []))
  {
    hide SkipList.Valid, SkipList.Loose, Sorted, Next, CountBelow, CountUpTo, ScoredWithin, SkipList.Splits;
    Parts(list);
    FirstIs(list.Members(), min, max);
    ghost var R := CountBelow(list.Members(), min);
    ScoreSplits(list, min);
    var inRange := IsInRange(list, min, max);
    if !inRange {
      return null;
    }
    var x := Search(list, BeforeScore(min), R);
    list.Neighbour(R);
    node := x.level[0].forward;
  }

  /** slLastInRange: the last member scoring no more than max, in the range only if it is not below min as well. */
  method LastInRange(list: SkipList, min: real, max: real) returns (node: Node?)
    requires list.Valid()
    ensures |list.nodes| == list.length + 1
    ensures var r := CountUpTo(list.Members(), max);
      if min <= max && r > 0 && list.Members()[list.length - 1].score >= min then node == list.nodes[r] else node == null
    ensures var within := ScoredWithin(list.Members(), min, max);
      && (within != [] ==> node != null && node.member == within[|within| - 1])
      && (node != null ==> node.member.score <= max && (node.member.score >= min <==> within != []))
  {
    hide SkipList.Valid, SkipList.Loose, Sorted, Next, CountBelow, CountUpTo, ScoredWithin, SkipList.Splits;
    Parts(list);
    LastIs(list.Members(), min, max);
    ghost var R := CountUpTo(list.Members(), max);
    ScoreSplits(list, max);
    var inRange := IsInRange(list, min, max);
    if !inRange {
      return null;
    }
    node := Search(list, BehindScore(max), R);
  }

  /** A range between two members, as from 2.0 to 3.0 between 1.0 and 5.0: it counts as met, by members outside. */
  method Between(low: Element, high: Element, min: real, max: real) returns (b: bool, first: real, last: real)
    requires low.score < min <= max < high.score && low.obj != high.obj
    ensures b && first == high.score && last == low.score && ScoredWithin([low, high], min, max) == []
  {
    hide SkipList.Valid;
    var list := Build([low, high], 0);
    assert CountBelow([low, high], min) == 1 == CountUpTo([low, high], max) by {
      assert [low, high][1..] == [high];
    }
    b := IsInRange(list, min, max);
    var f := FirstInRange(list, min, max);
    var l := LastInRange(list, min, max);
    MemberAt(list, 1);
    MemberAt(list, 2);
    first, last := f.member.score, l.member.score;
  }

  // ----- lua-skiplist.c

  /** One step of either loop: to the next node, or back to the one before. */
  method Step(list: SkipList, node: Node, reverse: bool, ghost p: nat) returns (next: Node?)
    requires list.Valid() && 0 < p < |list.nodes| && node == list.nodes[p]
    ensures next == if reverse then (if p == 1 then null else list.nodes[p - 1])
                    else if p + 1 < |list.nodes| then list.nodes[p + 1] else null
  {
    hide LinksOk, Levels, Sorted, SkipList.Tight;
    list.Neighbour(p);
    next := if reverse then node.backward else node.level[0].forward;
  }

  /** What _get_rank_range ought to return: the objects from rank r1 toward rank r2, as far as there are any. */
  ghost function RankRange(s: seq<Element>, r1: nat, r2: nat): seq<Obj>
  {
    if r1 == 0 || r1 > |s| then []
    else if r1 <= r2 then Objects(s[r1 - 1..if r2 < |s| then r2 else |s|])
    else Objects(Reversed(s[if r2 == 0 then 0 else r2 - 1..r1]))
  }

  /** The rank after n steps. */
  function At(r1: nat, reverse: bool, n: nat): int
  {
    if reverse then r1 - n else r1 + n
  }

  ghost predicate Taken(s: seq<Element>, r1: nat, reverse: bool, objs: seq<Obj>)
  {
    forall k :: 0 <= k < |objs| ==> 0 < At(r1, reverse, k) <= |s| && objs[k] == s[At(r1, reverse, k) - 1].obj
  }

  lemma ForwardIs(s: seq<Element>, r1: nat, b: nat, objs: seq<Obj>)
    requires 0 < r1 <= b + 1 <= |s| + 1 && |objs| == b - r1 + 1 && Taken(s, r1, false, objs)
    ensures objs == Objects(s[r1 - 1..b])
  {
    forall k | 0 <= k < |objs| ensures objs[k] == s[r1 - 1..b][k].obj {
      assert objs[k] == s[At(r1, false, k) - 1].obj;
    }
  }

  lemma BackwardIs(s: seq<Element>, r1: nat, a: nat, objs: seq<Obj>)
    requires a <= r1 <= |s| && |objs| == r1 - a && Taken(s, r1, true, objs)
    ensures objs == Objects(Reversed(s[a..r1]))
  {
    forall k | 0 <= k < |objs| ensures objs[k] == Reversed(s[a..r1])[k].obj {
      assert objs[k] == s[At(r1, true, k) - 1].obj;
    }
  }

  lemma RankRangeIs(s: seq<Element>, r1: nat, r2: nat, objs: seq<Obj>)
    requires Taken(s, r1, r1 > r2, objs)
    requires |objs| <= if r1 > r2 then r1 - r2 + 1 else r2 - r1 + 1
    requires (|objs| == if r1 > r2 then r1 - r2 + 1 else r2 - r1 + 1) || !(0 < At(r1, r1 > r2, |objs|) <= |s|)
    ensures objs == RankRange(s, r1, r2)
  {
    if objs != [] {
      assert 0 < At(r1, r1 > r2, |objs| - 1) <= |s|;
      assert 0 < At(r1, r1 > r2, 0) <= |s|;
    }
    if 0 < r1 <= |s| {
      if r1 <= r2 {
        ForwardIs(s, r1, if r2 < |s| then r2 else |s|, objs);
      } else {
        BackwardIs(s, r1, if r2 == 0 then 0 else r2 - 1, objs);
      }
    }
  }

  /** _get_rank_range */
  method GetRankRange(list: SkipList, r1: nat, r2: nat) returns (objs: seq<Obj>)
    requires list.Valid()
    ensures |list.nodes| > 0 && objs == RankRange(list.Members(), r1, r2)
  {
    hide SkipList.Valid, SkipList.Loose, Sorted, RankRange, MembersOf;
    Parts(list);
    ghost var s := list.Members();
    var reverse := r1 > r2;
    var rangelen := if reverse then r1 - r2 + 1 else r2 - r1 + 1;
    var node := list.GetNodeByRank(r1);
    objs := [];
    var n: nat := 0;
    while node != null && n < rangelen
      invariant n <= rangelen && Taken(s, r1, reverse, objs) && |objs| == n
      invariant node == if 0 < At(r1, reverse, n) <= |s| then list.nodes[At(r1, reverse, n)] else null
      decreases rangelen - n
    {
      MemberAt(list, At(r1, reverse, n));
      objs := objs + [node.member.obj];
      node := Step(list, node, reverse, At(r1, reverse, n));
      n := n + 1;
    }
    RankRangeIs(s, r1, r2, objs);
  }

  /** What _get_score_range ought to return: the objects scored from s1 to s2, in ascending or descending order. */
  ghost function ScoreRange(s: seq<Element>, s1: real, s2: real): seq<Obj>
  {
    if s1 <= s2 then Objects(ScoredWithin(s, s1, s2)) else Objects(Reversed(ScoredWithin(s, s2, s1)))
  }

  /** _get_score_range */
  method GetScoreRange(list: SkipList, s1: real, s2: real) returns (objs: seq<Obj>)
    requires list.Valid()
    ensures |list.nodes| > 0 && objs == ScoreRange(list.Members(), s1, s2)
  {
    if s1 <= s2 {
      objs := Ascending(list, s1, s2);
    } else {
      objs := Descending(list, s1, s2);
    }
  }

  /** The stretch from a to b is what scores within a range. */
  ghost predicate Stretch(s: seq<Element>, lo: real, hi: real, a: nat, b: nat)
  {
    a <= b <= |s| && (forall k :: 0 <= k < a ==> s[k].score < lo) && (forall k :: a <= k < b ==> lo <= s[k].score <= hi) &&
    forall k :: b <= k < |s| ==> s[k].score > hi
  }

  lemma WithinIs(s: seq<Element>, lo: real, hi: real)
    requires Sorted(s) && lo <= hi
    ensures Stretch(s, lo, hi, CountBelow(s, lo), CountUpTo(s, hi))
    ensures ScoredWithin(s, lo, hi) == s[CountBelow(s, lo)..CountUpTo(s, hi)]
  {
    hide Sorted;
    WithinIsStretch(s, lo, hi);
    CountBelowSplits(s, lo);
    CountUpToSplits(s, hi);
  }

  lemma OneMoreObject(s: seq<Element>, a: nat, p: nat, b: nat)
    requires a <= p < b <= |s|
    ensures Objects(s[a..p + 1]) == Objects(s[a..p]) + [s[p].obj]
    ensures Objects(Reversed(s[p..b])) == Objects(Reversed(s[p + 1..b])) + [s[p].obj]
  {
  }

  lemma MemberAt(list: SkipList, p: nat)
    requires 0 < p < |list.nodes|
    ensures list.Members()[p - 1] == list.nodes[p].member
  {
  }

  /** What one member's score says of where it stands. */
  lemma StretchAt(s: seq<Element>, lo: real, hi: real, a: nat, b: nat, p: nat)
    requires lo <= hi && Stretch(s, lo, hi, a, b) && p < |s|
    ensures s[p].score < lo <==> p < a
    ensures s[p].score > hi <==> p >= b
  {
  }

  lemma StretchBounds(s: seq<Element>, lo: real, hi: real, a: nat, b: nat)
    requires lo <= hi && Stretch(s, lo, hi, a, b)
    ensures a <= b <= |s| && (|s| > 0 ==> (s[0].score <= hi <==> b > 0) && (s[|s| - 1].score >= lo <==> a < |s|))
  {
  }

  /** Where the loops start: at the first member of the stretch, or at its last. */
  method Start(list: SkipList, min: real, max: real, reverse: bool, ghost a: nat, ghost b: nat) returns (node: Node?)
    requires list.Valid() && min <= max && |list.nodes| > 0 && Stretch(list.Members(), min, max, a, b)
    requires a == CountBelow(list.Members(), min) && b == CountUpTo(list.Members(), max)
    ensures |list.nodes| == list.length + 1 && a <= b <= list.length
    ensures node == if a == list.length || b == 0 then null else list.nodes[if reverse then b else a + 1]
  {
    hide SkipList.Valid, SkipList.Loose, Sorted, ScoredWithin, CountBelow, CountUpTo, MembersOf, Stretch;
    Parts(list);
    StretchBounds(list.Members(), min, max, a, b);
    if reverse {
      node := LastInRange(list, min, max);
    } else {
      node := FirstInRange(list, min, max);
    }
  }

  method Ascending(list: SkipList, s1: real, s2: real) returns (objs: seq<Obj>)
    requires list.Valid() && s1 <= s2
    ensures |list.nodes| > 0 && objs == Objects(ScoredWithin(list.Members(), s1, s2))
  {
    hide SkipList.Valid, SkipList.Loose, Sorted, ScoredWithin, CountBelow, CountUpTo, MembersOf, Objects, Stretch;
    Parts(list);
    ghost var s := list.Members();
    ghost var a, b := CountBelow(s, s1), CountUpTo(s, s2);
    WithinIs(s, s1, s2);
    var node := Start(list, s1, s2, false, a, b);
    objs := [];
    ghost var p := a;
    while node != null
      invariant a <= p <= b && objs == Objects(s[a..p])
      invariant node == if p < |s| && b > 0 then list.nodes[p + 1] else null
      decreases |s| - p
    {
      MemberAt(list, p + 1);
      StretchAt(s, s1, s2, a, b, p);
      if node.member.score > s2 {
        break;
      }
      OneMoreObject(s, a, p, b);
      objs := objs + [node.member.obj];
      node := Step(list, node, false, p + 1);
      p := p + 1;
    }
  }

  /** The same loop backwards. */
  method Descending(list: SkipList, s1: real, s2: real) returns (objs: seq<Obj>)
    requires list.Valid() && s2 < s1
    ensures |list.nodes| > 0 && objs == Objects(Reversed(ScoredWithin(list.Members(), s2, s1)))
  {
    hide SkipList.Valid, SkipList.Loose, Sorted, ScoredWithin, CountBelow, CountUpTo, MembersOf, Objects, Reversed, Stretch;
    Parts(list);
    ghost var s := list.Members();
    ghost var a, b := CountBelow(s, s2), CountUpTo(s, s1);
    WithinIs(s, s2, s1);
    var node := Start(list, s2, s1, true, a, b);
    objs := [];
    ghost var p := b;
    while node != null
      invariant a <= p <= b && objs == Objects(Reversed(s[p..b]))
      invariant node == if p > 0 && a < |s| then list.nodes[p] else null
      decreases p
    {
      MemberAt(list, p);
      StretchAt(s, s2, s1, a, b, p - 1);
      if node.member.score < s2 {
        break;
      }
      OneMoreObject(s, a, p - 1, b);
      objs := objs + [node.member.obj];
      node := Step(list, node, true, p);
      p := p - 1;
    }
  }

  // ----- whole runs

  datatype Op = Add(e: Element, height: nat) | Drop(e: Element) | DropRanks(start: nat, end: nat)

  /** _delete_by_rank takes its ranks in either order. */
  ghost function WithoutRanks(s: seq<Element>, start: nat, end: nat): seq<Element>
  {
    var from, to := if start > end then end else start, if start > end then start else end;
    var a := if from == 0 then 0 else if from - 1 < |s| then from - 1 else |s|;
    var b := if to < a then a else if to < |s| then to else |s|;
    Cut(s, a, b)
  }

  /** Their objects, in ascending order. */
  ghost function OfRanks(s: seq<Element>, start: nat, end: nat): seq<Obj>
  {
    var from, to := if start > end then end else start, if start > end then start else end;
    var a := if from == 0 then 0 else if from - 1 < |s| then from - 1 else |s|;
    var b := if to < a then a else if to < |s| then to else |s|;
    Objects(s[a..b])
  }

  lemma CutLength(s: seq<Element>, start: nat, end: nat)
    ensures var from, to := if start > end then end else start, if start > end then start else end;
      var a := if from == 0 then 0 else if from - 1 < |s| then from - 1 else |s|;
      var b := if to < a then a else if to < |s| then to else |s|;
      |WithoutRanks(s, start, end)| == |s| - (b - a)
  {
  }

  /** What one operation makes of the sorted sequence. */
  ghost function Apply(s: seq<Element>, op: Op): seq<Element>
  {
    match op
    case Add(e, _) => Inserted(s, e)
    case Drop(e) => if CountBefore(s, e) < |s| && e in s then RemovedAt(s, CountBefore(s, e)) else s
    case DropRanks(start, end) => WithoutRanks(s, start, end)
  }

  ghost function ApplyAll(ops: seq<Op>): seq<Element>
  {
    if ops == [] then [] else Apply(ApplyAll(ops[..|ops| - 1]), ops[|ops| - 1])
  }

  /** _delete_by_rank */
  method DeleteByRank(list: SkipList, start: nat, end: nat) returns (removed: nat, deleted: seq<Obj>)
    requires list.Valid()
    modifies list, list.nodes`level, list.nodes`backward
    ensures list.Valid() && list.Members() == WithoutRanks(old(list.Members()), start, end)
    ensures removed == |old(list.Members())| - |list.Members()| == |deleted|
    ensures deleted == OfRanks(old(list.Members()), start, end)
    ensures forall p :: 0 <= p < |list.nodes| ==> list.nodes[p] in old(list.nodes)
  {
    hide SkipList.Valid, Cut, MembersOf, Sorted;
    Parts(list);
    CutLength(list.Members(), start, end);
    if start > end {
      removed, deleted := list.DeleteByRank(end, start);
    } else {
      removed, deleted := list.DeleteByRank(start, end);
    }
  }

  method Perform(list: SkipList, op: Op)
    requires list.Valid() && (op.Add? ==> 1 <= op.height <= MAXLEVEL)
    modifies list, list.nodes
    ensures list.Valid() && list.Members() == Apply(old(list.Members()), op)
    ensures forall p :: 0 <= p < |list.nodes| ==> list.nodes[p] in old(list.nodes) || fresh(list.nodes[p])
  {
    hide SkipList.Valid, Sorted, Inserted, RemovedAt, MembersOf;
    Parts(list);
    match op
    case Add(e, height) =>
      list.Insert(e, height);
    case Drop(e) =>
      var _ := list.Delete(e);
    case DropRanks(start, end) =>
      var _, _ := DeleteByRank(list, start, end);
  }

  /** Every run of operations on a new list refines the run on the sorted sequence. */
  method Run(ops: seq<Op>) returns (list: SkipList)
    requires forall k :: 0 <= k < |ops| && ops[k].Add? ==> 1 <= ops[k].height <= MAXLEVEL
    ensures list.Valid() && list.Members() == ApplyAll(ops) && InOrder(list.Members())
  {
    hide SkipList.Loose, SkipList.Tight, Apply, Sorted;
    list := new SkipList();
    for i := 0 to |ops|
      invariant fresh(list) && forall p :: 0 <= p < |list.nodes| ==> fresh(list.nodes[p])
      invariant list.Valid() && |list.nodes| > 0 && list.Members() == ApplyAll(ops[..i])
    {
      assert ops[..i + 1][..i] == ops[..i];
      Perform(list, ops[i]);
      Parts(list);
    }
    assert ops[..|ops|] == ops;
    list.MembersInOrder();
  }
}
