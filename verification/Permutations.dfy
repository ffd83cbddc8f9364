/** Sequences of distinct numbers below a bound. */
module Permutations {

  ghost predicate Distinct(s: seq<int>) {
    forall i, j :: 0 <= i < j < |s| ==> s[i] != s[j]
  }

  ghost predicate Below(s: seq<int>, n: int) {
    forall i :: 0 <= i < |s| ==> 0 <= s[i] < n
  }

  /** Every number below the length occurs exactly once. */
  ghost predicate Permutation(s: seq<int>) {
    Distinct(s) && Below(s, |s|)
  }

  ghost function Numbers(n: nat): (r: set<int>)
    ensures forall k :: k in r <==> 0 <= k < n
    ensures |r| == n
  {
    if n == 0 then {} else Numbers(n - 1) + {n - 1}
  }

  ghost function Elements(s: seq<int>): set<int> {
    set i | 0 <= i < |s| :: s[i]
  }

  lemma {:induction false} DistinctCard(s: seq<int>)
    requires Distinct(s)
    ensures |Elements(s)| == |s|
  {
    if s != [] {
      var t := s[..|s| - 1];
      DistinctCard(t);
      assert Elements(s) == Elements(t) + {s[|s| - 1]} by {
        forall x | x in Elements(s) ensures x in Elements(t) + {s[|s| - 1]} {
          var i :| 0 <= i < |s| && s[i] == x;
          if i < |t| { assert t[i] == x; }
        }
        forall x | x in Elements(t) ensures x in Elements(s) {
          var i :| 0 <= i < |t| && t[i] == x;
          assert s[i] == x;
        }
      }
      assert s[|s| - 1] !in Elements(t);
    }
  }

  lemma SubsetCard(a: set<int>, b: set<int>)
    requires a <= b
    ensures |a| <= |b|
    ensures |a| == |b| ==> a == b
  {
    assert b == a + (b - a);
  }

  /** There are at most n distinct numbers below n. */
  lemma DistinctBelow(s: seq<int>, n: nat)
    requires Distinct(s) && Below(s, n)
    ensures |s| <= n
  {
    DistinctCard(s);
    SubsetCard(Elements(s), Numbers(n));
  }

  /** Every number below the length of a permutation has a place in it. */
  lemma PlaceOf(s: seq<int>, x: int) returns (i: int)
    requires Permutation(s) && 0 <= x < |s|
    ensures 0 <= i < |s| && s[i] == x
  {
    DistinctCard(s);
    SubsetCard(Elements(s), Numbers(|s|));
    assert x in Elements(s);
    i :| 0 <= i < |s| && s[i] == x;
  }

  lemma {:induction false} ElementsCard(s: seq<int>)
    ensures |Elements(s)| <= |s|
  {
    if s != [] {
      var t := s[..|s| - 1];
      ElementsCard(t);
      forall x | x in Elements(s) ensures x in Elements(t) + {s[|s| - 1]} {
        var i :| 0 <= i < |s| && s[i] == x;
        if i < |t| { assert t[i] == x; }
      }
      SubsetCard(Elements(s), Elements(t) + {s[|s| - 1]});
    }
  }

  /** A sequence that holds every number below n has at least n places. */
  lemma AllBelow(s: seq<int>, n: nat)
    requires forall x :: 0 <= x < n ==> x in s
    ensures n <= |s|
  {
    ElementsCard(s);
    forall x | x in Numbers(n) ensures x in Elements(s) {
      assert x in s;
    }
    SubsetCard(Numbers(n), Elements(s));
  }

  /** A sequence that holds every number below its length holds each once. */
  lemma OntoIsDistinct(s: seq<int>)
    requires forall x :: 0 <= x < |s| ==> x in s
    ensures Distinct(s)
  {
    forall i, j | 0 <= i < j < |s| ensures s[i] != s[j] {
      if s[i] == s[j] {
        var t := s[..j] + s[j + 1..];
        forall x | 0 <= x < |s| ensures x in t {
          assert x in s;
          var k :| 0 <= k < |s| && s[k] == x;
          var k' := if k == j then i else if k < j then k else k - 1;
          assert t[k'] == x;
        }
        AllBelow(t, |s|);
      }
    }
  }
}
