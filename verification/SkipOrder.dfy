/** The members of a skip list and their order: by score, then bytewise by object. */
module SkipOrder {
  import opened Bytes

  type Obj = seq<Byte>

  datatype Element = Element(score: real, obj: Obj)

  /** compareslObj: memcmp over the common length, then the shorter one first; only the sign matters. */
  function CompareObj(a: Obj, b: Obj): int
  {
    if a == [] || b == [] then |a| - |b|
    else if a[0] != b[0] then a[0] - b[0]
    else CompareObj(a[1..], b[1..])
  }

  /** The test that sends slInsert and slDelete forward. */
  predicate Before(e: Element, f: Element)
  {
    e.score < f.score || (e.score == f.score && CompareObj(e.obj, f.obj) < 0)
  }

  /** The test that sends slGetRank forward. */
  predicate AtMost(e: Element, f: Element)
  {
    e.score < f.score || (e.score == f.score && CompareObj(e.obj, f.obj) <= 0)
  }

  /** Where the searches stop: before or behind a member, a rank, or a score. */
  datatype Goal = BeforeMember(e: Element) | BehindMember(e: Element) | BeforeRank(rank: nat) | BehindRank(rank: nat)
                | BeforeScore(score: real) | BehindScore(score: real)

  /** The test that sends a search past a member of some rank. */
  predicate Onward(goal: Goal, m: Element, rank: nat)
  {
    match goal
    case BeforeMember(e) => Before(m, e)
    case BehindMember(e) => AtMost(m, e)
    case BeforeRank(n) => rank < n
    case BehindRank(n) => rank <= n
    case BeforeScore(x) => m.score < x
    case BehindScore(x) => m.score <= x
  }

  lemma {:induction false} CompareAntisymmetric(a: Obj, b: Obj)
    ensures CompareObj(a, b) == -CompareObj(b, a)
  {
    if a != [] && b != [] && a[0] == b[0] {
      CompareAntisymmetric(a[1..], b[1..]);
    }
  }

  lemma {:induction false} CompareEqual(a: Obj, b: Obj)
    ensures CompareObj(a, b) == 0 <==> a == b
  {
    if a != [] && b != [] && a[0] == b[0] {
      CompareEqual(a[1..], b[1..]);
      assert a == [a[0]] + a[1..] && b == [b[0]] + b[1..];
    }
  }

  lemma {:induction false} CompareTransitive(a: Obj, b: Obj, c: Obj)
    requires CompareObj(a, b) <= 0 && CompareObj(b, c) <= 0
    ensures CompareObj(a, c) <= 0
    ensures CompareObj(a, b) < 0 || CompareObj(b, c) < 0 ==> CompareObj(a, c) < 0
  {
    if a != [] && b != [] && c != [] && a[0] == b[0] == c[0] {
      CompareTransitive(a[1..], b[1..], c[1..]);
    }
  }

  /** a comes before b in a dictionary of bytes: b goes on where a ends, or a is less where they first differ. */
  ghost predicate Dictionary(a: Obj, b: Obj)
  {
    (|a| < |b| && b[..|a|] == a) || exists i: nat :: LessAt(a, b, i)
  }

  ghost predicate LessAt(a: Obj, b: Obj, i: nat)
  {
    i < |a| && i < |b| && a[..i] == b[..i] && a[i] < b[i]
  }

  lemma {:induction false} CompareIsDictionary(a: Obj, b: Obj)
    ensures CompareObj(a, b) < 0 <==> Dictionary(a, b)
  {
    if a != [] && b != [] && a[0] == b[0] {
      CompareIsDictionary(a[1..], b[1..]);
      TailDictionary(a, b);
    } else if a != [] && b != [] {
      assert a[..0] == b[..0];
      assert a[0] < b[0] ==> LessAt(a, b, 0);
      if |a| < |b| {
        assert b[..|a|][0] == b[0];
      }
      forall i: nat ensures LessAt(a, b, i) ==> i == 0 {
        if 0 < i < |a| && i < |b| {
          assert a[..i][0] == a[0] && b[..i][0] == b[0];
        }
      }
    }
  }

  lemma TailDictionary(a: Obj, b: Obj)
    requires a != [] && b != [] && a[0] == b[0]
    ensures Dictionary(a, b) <==> Dictionary(a[1..], b[1..])
  {
    forall i: nat ensures LessAt(a[1..], b[1..], i) <==> LessAt(a, b, i + 1) {
      if i + 1 < |a| && i + 1 < |b| {
        SamePrefix(a, b, i + 1);
      }
    }
    if i: nat :| LessAt(a, b, i) {
      assert LessAt(a[1..], b[1..], i - 1);
    }
    if |a| < |b| {
      SamePrefix(a, b, |a|);
      assert a[..|a|] == a && a[1..][..|a| - 1] == a[1..];
    }
  }

  lemma SamePrefix(a: Obj, b: Obj, n: nat)
    requires 0 < n <= |a| && n <= |b| && a[0] == b[0]
    ensures a[..n] == b[..n] <==> a[1..][..n - 1] == b[1..][..n - 1]
  {
    assert a[..n] == [a[0]] + a[1..][..n - 1] && b[..n] == [b[0]] + b[1..][..n - 1];
    assert a[1..][..n - 1] == a[..n][1..] && b[1..][..n - 1] == b[..n][1..];
  }

  /** Members stand by score, and those of one score in the order of a dictionary. */
  ghost predicate InOrder(s: seq<Element>)
  {
    forall p, q :: 0 <= p < q < |s| ==>
      s[p].score < s[q].score || (s[p].score == s[q].score && (s[p].obj == s[q].obj || Dictionary(s[p].obj, s[q].obj)))
  }

  lemma SortedIsInOrder(s: seq<Element>)
    ensures Sorted(s) <==> InOrder(s)
  {
    forall p, q | 0 <= p < q < |s|
      ensures AtMost(s[p], s[q]) <==>
        s[p].score < s[q].score || (s[p].score == s[q].score && (s[p].obj == s[q].obj || Dictionary(s[p].obj, s[q].obj)))
    {
      CompareIsDictionary(s[p].obj, s[q].obj);
      CompareEqual(s[p].obj, s[q].obj);
    }
  }

  /** Before is a strict total order on members. */
  lemma BeforeTotal(e: Element, f: Element)
    ensures !(Before(e, f) && Before(f, e))
    ensures Before(e, f) || Before(f, e) || e == f
    ensures !Before(e, e)
    ensures AtMost(e, f) <==> !Before(f, e)
  {
    CompareAntisymmetric(e.obj, f.obj);
    CompareEqual(e.obj, f.obj);
    CompareAntisymmetric(e.obj, e.obj);
  }

  lemma BeforeTransitive(e: Element, f: Element, g: Element)
    requires AtMost(e, f) && AtMost(f, g)
    ensures AtMost(e, g)
    ensures Before(e, f) || Before(f, g) ==> Before(e, g)
  {
    if e.score == f.score == g.score {
      CompareTransitive(e.obj, f.obj, g.obj);
    }
  }

  ghost predicate Sorted(s: seq<Element>)
  {
    forall p, q :: 0 <= p < q < |s| ==> AtMost(s[p], s[q])
  }

  /** How many members of a sorted sequence come before e, and how many not after it. */
  ghost function CountBefore(s: seq<Element>, e: Element): (r: nat)
    ensures r <= |s|
  {
    if s == [] || !Before(s[0], e) then 0 else 1 + CountBefore(s[1..], e)
  }

  ghost function CountAtMost(s: seq<Element>, e: Element): (r: nat)
    ensures r <= |s|
  {
    if s == [] || !AtMost(s[0], e) then 0 else 1 + CountAtMost(s[1..], e)
  }

  lemma {:induction false} CountBeforeSplits(s: seq<Element>, e: Element)
    requires Sorted(s)
    ensures forall p :: 0 <= p < |s| ==> (Before(s[p], e) <==> p < CountBefore(s, e))
  {
    if s != [] {
      CountBeforeSplits(s[1..], e);
      forall p | 0 <= p < |s| ensures Before(s[p], e) <==> p < CountBefore(s, e) {
        if p > 0 {
          assert s[1..][p - 1] == s[p];
          BeforeTotal(s[0], e);
          BeforeTotal(s[p], e);
          if !Before(s[0], e) && Before(s[p], e) {
            BeforeTransitive(s[0], s[p], e);
          }
        }
      }
    }
  }

  lemma {:induction false} CountAtMostSplits(s: seq<Element>, e: Element)
    requires Sorted(s)
    ensures forall p :: 0 <= p < |s| ==> (AtMost(s[p], e) <==> p < CountAtMost(s, e))
  {
    if s != [] {
      CountAtMostSplits(s[1..], e);
      forall p | 0 <= p < |s| ensures AtMost(s[p], e) <==> p < CountAtMost(s, e) {
        if p > 0 {
          assert s[1..][p - 1] == s[p];
          if AtMost(s[p], e) {
            BeforeTransitive(s[0], s[p], e);
          }
        }
      }
    }
  }

  /** Where slInsert puts a member: before the first that is not smaller. */
  ghost function Inserted(s: seq<Element>, e: Element): seq<Element>
  {
    s[..CountBefore(s, e)] + [e] + s[CountBefore(s, e)..]
  }

  lemma InsertedSorted(s: seq<Element>, e: Element)
    requires Sorted(s)
    ensures Sorted(Inserted(s, e))
    ensures multiset(Inserted(s, e)) == multiset(s) + multiset{e}
  {
    var r, t := CountBefore(s, e), Inserted(s, e);
    CountBeforeSplits(s, e);
    forall p, q | 0 <= p < q < |t| ensures AtMost(t[p], t[q]) {
      if p == r {
        BeforeTotal(s[q - 1], e);
      } else if q == r {
        BeforeTotal(s[p], e);
      }
    }
    assert s == s[..r] + s[r..];
  }

  /** A sequence without the element at k. */
  ghost function RemovedAt(s: seq<Element>, k: nat): seq<Element>
    requires k < |s|
  {
    s[..k] + s[k + 1..]
  }

  lemma RemovedSorted(s: seq<Element>, k: nat)
    requires Sorted(s) && k < |s|
    ensures Sorted(RemovedAt(s, k))
    ensures multiset(RemovedAt(s, k)) == multiset(s) - multiset{s[k]}
  {
    assert s == s[..k] + [s[k]] + s[k + 1..];
  }

  /** A sorted sequence holds e exactly when e stands where the members before it end. */
  lemma FirstEqual(s: seq<Element>, e: Element)
    requires Sorted(s)
    ensures var r := CountBefore(s, e); e in s <==> r < |s| && s[r] == e
  {
    var r := CountBefore(s, e);
    CountBeforeSplits(s, e);
    BeforeTotal(e, e);
    if e in s {
      var p :| 0 <= p < |s| && s[p] == e;
      assert r <= p;
      BeforeTotal(s[r], e);
      assert AtMost(s[r], s[p]);
    }
  }

  /** The objects, as they are handed to the caller. */
  function Objects(s: seq<Element>): (t: seq<Obj>)
    ensures |t| == |s| && forall p :: 0 <= p < |s| ==> t[p] == s[p].obj
  {
    seq(|s|, p requires 0 <= p < |s| => s[p].obj)
  }

  /** A sequence without the elements from a up to b. */
  ghost function Cut(s: seq<Element>, a: nat, b: nat): seq<Element>
    requires a <= b <= |s|
  {
    s[..a] + s[b..]
  }

  lemma CutMore(s: seq<Element>, a: nat, b: nat)
    requires a <= b < |s|
    ensures |Cut(s, a, b)| > a && Cut(s, a, b)[a] == s[b]
    ensures RemovedAt(Cut(s, a, b), a) == Cut(s, a, b + 1)
    ensures Objects(s[a..b]) + [s[b].obj] == Objects(s[a..b + 1])
  {
  }

  lemma CutNothing(s: seq<Element>, a: nat)
    requires a <= |s|
    ensures Cut(s, a, a) == s
  {
  }
}
