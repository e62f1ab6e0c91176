/** Ranking of per-product purchase decisions: the comparator of
    `RecommenderProductDecision` and the stable sort `Collections.sort`
    applies with it. */
module Ranking {

  /** A product id with the probability that the customer buys it. */
  datatype Decision = Decision(productId: string, buyProb: real)

  /** `Double.compare(x, y)` on non-NaN values. */
  function DoubleCompare(x: real, y: real): (r: int)
    ensures r < 0 <==> x < y
    ensures r == 0 <==> x == y
    ensures r > 0 <==> x > y
  {
    if x < y then -1 else if x > y then 1 else 0
  }

  /** `compareTo`: compares the other decision's probability with this one's,
      so that a higher probability sorts first. */
  function CompareTo(self: Decision, other: Decision): (r: int)
    ensures r < 0 <==> self.buyProb > other.buyProb
    ensures r == 0 <==> self.buyProb == other.buyProb
    ensures r > 0 <==> self.buyProb < other.buyProb
  {
    DoubleCompare(other.buyProb, self.buyProb)
  }

  /** `CompareTo` meets the `Comparable` contract: the sign flips when the
      arguments are swapped, and "sorts no later than" is transitive. */
  lemma CompareToIsConsistent(a: Decision, b: Decision, c: Decision)
    ensures CompareTo(a, b) == -CompareTo(b, a)
    ensures CompareTo(a, b) <= 0 && CompareTo(b, c) <= 0 ==> CompareTo(a, c) <= 0
  {
  }

  /** Sorted in ascending order of `CompareTo`, as `Collections.sort` leaves a list. */
  predicate Ordered(s: seq<Decision>)
  {
    forall i, j :: 0 <= i < j < |s| ==> CompareTo(s[i], s[j]) <= 0
  }

  /** Ascending under `CompareTo` is descending in probability. */
  lemma OrderedIsDescendingProbability(s: seq<Decision>)
    ensures Ordered(s) <==> forall i, j :: 0 <= i < j < |s| ==> s[i].buyProb >= s[j].buyProb
  {
  }

  /** The decisions of `s` whose probability is `p`, in their order in `s`. */
  function WithProb(s: seq<Decision>, p: real): seq<Decision>
  {
    if |s| == 0 then []
    else if s[0].buyProb == p then [s[0]] + WithProb(s[1..], p)
    else WithProb(s[1..], p)
  }

  /** A sort is stable when, for every probability, the decisions with that
      probability appear in the same order before and after. */
  ghost predicate SameTies(s: seq<Decision>, t: seq<Decision>)
  {
    forall p :: WithProb(s, p) == WithProb(t, p)
  }

  lemma WithProbCons(a: Decision, s: seq<Decision>, p: real)
    ensures WithProb([a] + s, p) == if a.buyProb == p then [a] + WithProb(s, p) else WithProb(s, p)
  {
    assert ([a] + s)[1..] == s;
  }

  lemma OrderedCons(a: Decision, t: seq<Decision>)
    requires Ordered(t)
    requires forall k :: 0 <= k < |t| ==> CompareTo(a, t[k]) <= 0
    ensures Ordered([a] + t)
  {
    forall i, j | 0 <= i < j < |[a] + t| ensures CompareTo(([a] + t)[i], ([a] + t)[j]) <= 0 {
      if i > 0 {
        assert ([a] + t)[i] == t[i - 1];
      }
      assert ([a] + t)[j] == t[j - 1];
    }
  }

  /** Puts `x` into the ordered `s` in front of the first decision it does
      not sort after, so `x` precedes every decision of equal probability. */
  function Insert(x: Decision, s: seq<Decision>): (r: seq<Decision>)
    requires Ordered(s)
    ensures Ordered(r)
    ensures multiset(r) == multiset(s) + multiset{x}
    ensures forall p :: WithProb(r, p) == if x.buyProb == p then [x] + WithProb(s, p) else WithProb(s, p)
    decreases |s|
  {
    if |s| == 0 || CompareTo(x, s[0]) <= 0 then
      InFront(x, s);
      [x] + s
    else
      var rest := Insert(x, s[1..]);
      HeadStaysFirst(x, s, rest);
      HeadKeepsTies(x, s, rest);
      assert s == [s[0]] + s[1..];
      [s[0]] + rest
  }

  /** In `Insert`, when `x` goes in front of `s`, the list is ordered and `x` heads its ties. */
  lemma InFront(x: Decision, s: seq<Decision>)
    requires Ordered(s)
    requires |s| == 0 || CompareTo(x, s[0]) <= 0
    ensures Ordered([x] + s)
    ensures forall p :: WithProb([x] + s, p) == if x.buyProb == p then [x] + WithProb(s, p) else WithProb(s, p)
  {
    forall k | 0 <= k < |s| ensures CompareTo(x, s[k]) <= 0 {
      if k > 0 {
        assert CompareTo(s[0], s[k]) <= 0;
      }
    }
    OrderedCons(x, s);
    forall p ensures WithProb([x] + s, p) == if x.buyProb == p then [x] + WithProb(s, p) else WithProb(s, p) {
      WithProbCons(x, s, p);
    }
  }

  /** In `Insert`, when `x` goes behind the head of `s`, the head still sorts first. */
  lemma HeadStaysFirst(x: Decision, s: seq<Decision>, rest: seq<Decision>)
    requires Ordered(s)
    requires |s| > 0 && CompareTo(x, s[0]) > 0
    requires Ordered(rest)
    requires multiset(rest) == multiset(s[1..]) + multiset{x}
    ensures Ordered([s[0]] + rest)
  {
    var tail := s[1..];
    forall k | 0 <= k < |rest| ensures CompareTo(s[0], rest[k]) <= 0 {
      assert rest[k] in multiset(rest);
      if rest[k] != x {
        assert rest[k] in multiset(tail);
        var m :| 0 <= m < |tail| && tail[m] == rest[k];
        assert s[m + 1] == rest[k];
      }
    }
    OrderedCons(s[0], rest);
  }

  /** In `Insert`, when `x` goes behind the head of `s`, the ties of the head are unaffected. */
  lemma HeadKeepsTies(x: Decision, s: seq<Decision>, rest: seq<Decision>)
    requires |s| > 0 && CompareTo(x, s[0]) > 0
    requires forall p :: WithProb(rest, p) == if x.buyProb == p then [x] + WithProb(s[1..], p) else WithProb(s[1..], p)
    ensures forall p :: WithProb([s[0]] + rest, p) == if x.buyProb == p then [x] + WithProb(s, p) else WithProb(s, p)
  {
    assert s == [s[0]] + s[1..];
    forall p ensures WithProb([s[0]] + rest, p) == if x.buyProb == p then [x] + WithProb(s, p) else WithProb(s, p) {
      WithProbCons(s[0], rest, p);
      WithProbCons(s[0], s[1..], p);
    }
  }

  /** `Collections.sort` with `CompareTo`: a stable sort, written as insertion sort. */
  function SortDecisions(s: seq<Decision>): (r: seq<Decision>)
    ensures Ordered(r)
    ensures multiset(r) == multiset(s)
    ensures SameTies(r, s)
    decreases |s|
  {
    if |s| == 0 then []
    else
      assert s == [s[0]] + s[1..];
      Insert(s[0], SortDecisions(s[1..]))
  }

  lemma {:induction false} WithProbMembers(s: seq<Decision>, p: real)
    ensures forall y :: y in WithProb(s, p) ==> y in s && y.buyProb == p
    decreases |s|
  {
    if |s| > 0 {
      WithProbMembers(s[1..], p);
    }
  }

  /** A decision heads the list of its own ties. */
  lemma NonEmptyTies(s: seq<Decision>)
    requires |s| > 0
    ensures WithProb(s, s[0].buyProb) == [s[0]] + WithProb(s[1..], s[0].buyProb)
  {
  }

  /** Ordered lists with the same ties start with the same decision. */
  lemma SameTiesSameHead(t: seq<Decision>, u: seq<Decision>)
    requires Ordered(t) && Ordered(u)
    requires SameTies(t, u)
    requires |t| > 0 && |u| > 0
    ensures t[0] == u[0]
  {
    var p, q := t[0].buyProb, u[0].buyProb;
    NonEmptyTies(t);
    NonEmptyTies(u);
    WithProbMembers(u, p);
    WithProbMembers(t, q);
    assert WithProb(u, p)[0] in WithProb(u, p);
    assert WithProb(t, q)[0] in WithProb(t, q);
    var k :| 0 <= k < |u| && u[k] == WithProb(u, p)[0];
    var m :| 0 <= m < |t| && t[m] == WithProb(t, q)[0];
    assert q >= p by {
      if k > 0 { assert CompareTo(u[0], u[k]) <= 0; }
    }
    assert p >= q by {
      if m > 0 { assert CompareTo(t[0], t[m]) <= 0; }
    }
    assert WithProb(t, p)[0] == t[0];
    assert WithProb(u, p)[0] == u[0];
  }

  /** Removing the same head from two lists with the same ties keeps their ties equal. */
  lemma SameTiesTails(t: seq<Decision>, u: seq<Decision>)
    requires SameTies(t, u)
    requires |t| > 0 && |u| > 0 && t[0] == u[0]
    ensures SameTies(t[1..], u[1..])
  {
    assert t == [t[0]] + t[1..];
    assert u == [u[0]] + u[1..];
    forall r ensures WithProb(t[1..], r) == WithProb(u[1..], r) {
      WithProbCons(t[0], t[1..], r);
      WithProbCons(u[0], u[1..], r);
      if t[0].buyProb == r {
        assert WithProb(t[1..], r) == ([t[0]] + WithProb(t[1..], r))[1..];
        assert WithProb(u[1..], r) == ([u[0]] + WithProb(u[1..], r))[1..];
      }
    }
  }

  /** Two ordered lists with the same ties are the same list. */
  lemma {:induction false} OrderedWithSameTiesAreEqual(t: seq<Decision>, u: seq<Decision>)
    requires Ordered(t) && Ordered(u)
    requires SameTies(t, u)
    ensures t == u
    decreases |t| + |u|
  {
    if |t| == 0 && |u| == 0 {
    } else if |t| == 0 {
      NonEmptyTies(u);
      assert false;
    } else if |u| == 0 {
      NonEmptyTies(t);
      assert false;
    } else {
      SameTiesSameHead(t, u);
      SameTiesTails(t, u);
      assert Ordered(t[1..]) && Ordered(u[1..]);
      OrderedWithSameTiesAreEqual(t[1..], u[1..]);
      assert t == [t[0]] + t[1..];
      assert u == [u[0]] + u[1..];
    }
  }

  /** Every stable sort by `CompareTo` — `Collections.sort` among them — puts
      the decisions in exactly the order `SortDecisions` does. */
  lemma StableSortIsUnique(s: seq<Decision>, t: seq<Decision>)
    requires Ordered(t)
    requires SameTies(t, s)
    ensures t == SortDecisions(s)
  {
    var r := SortDecisions(s);
    assert SameTies(t, r);
    OrderedWithSameTiesAreEqual(t, r);
  }

  /** Sorting two decisions swaps them exactly when the second has the higher probability. */
  lemma SortTwo(a: Decision, b: Decision)
    ensures SortDecisions([a, b]) == if a.buyProb >= b.buyProb then [a, b] else [b, a]
  {
    assert [a, b][1..] == [b] && [b][1..] == [];
    assert SortDecisions([b]) == [b];
    assert Insert(a, []) == [a];
  }
}
