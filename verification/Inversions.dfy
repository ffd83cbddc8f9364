/** Inversions of a sequence of distinct numbers, and what exchanging two of them does to their parity. */
module Inversions {
  import opened Permutations

  function CountBelow(s: seq<int>, v: int): (c: nat) {
    if s == [] then 0 else CountBelow(s[1..], v) + if s[0] < v then 1 else 0
  }

  /** The pairs whose larger number comes first. */
  function Count(s: seq<int>): nat {
    if s == [] then 0 else CountBelow(s[1..], s[0]) + Count(s[1..])
  }

  function Exchange(s: seq<int>, p: nat, q: nat): (r: seq<int>)
    requires p < |s| && q < |s|
    ensures |r| == |s|
  {
    s[p := s[q]][q := s[p]]
  }

  lemma ExchangeDistinct(s: seq<int>, p: nat, q: nat)
    requires Distinct(s) && p < |s| && q < |s|
    ensures Distinct(Exchange(s, p, q))
  {
  }

  lemma {:induction false} CountBelowConcat(a: seq<int>, b: seq<int>, v: int)
    ensures CountBelow(a + b, v) == CountBelow(a, v) + CountBelow(b, v)
  {
    if a != [] {
      assert (a + b)[1..] == a[1..] + b;
      CountBelowConcat(a[1..], b, v);
    } else {
      assert a + b == b;
    }
  }

  /** Exchanging neighbours moves no number past another's count. */
  lemma CountBelowSwapped(s: seq<int>, p: nat, v: int)
    requires p + 1 < |s|
    ensures CountBelow(Exchange(s, p, p + 1), v) == CountBelow(s, v)
  {
    var r := Exchange(s, p, p + 1);
    var a, b := s[..p], s[p + 2..];
    assert s == a + ([s[p], s[p + 1]] + b) && r == a + ([s[p + 1], s[p]] + b);
    CountBelowConcat(a, [s[p], s[p + 1]] + b, v);
    CountBelowConcat(a, [s[p + 1], s[p]] + b, v);
    CountBelowConcat([s[p], s[p + 1]], b, v);
    CountBelowConcat([s[p + 1], s[p]], b, v);
    assert [s[p], s[p + 1]][1..] == [s[p + 1]] && [s[p + 1], s[p]][1..] == [s[p]];
  }

  /** Exchanging different neighbours makes or removes one inversion. */
  lemma {:induction false} NeighboursParity(s: seq<int>, p: nat)
    requires p + 1 < |s| && s[p] != s[p + 1]
    ensures (Count(Exchange(s, p, p + 1)) + Count(s)) % 2 == 1
  {
    var r := Exchange(s, p, p + 1);
    if p == 0 {
      var t := s[2..];
      assert s[1..][1..] == t == r[1..][1..] && s[1..][0] == s[1] && r[1..][0] == s[0];
    } else {
      NeighboursParity(s[1..], p - 1);
      assert r[1..] == Exchange(s[1..], p - 1, p);
      CountBelowSwapped(s[1..], p - 1, s[0]);
    }
  }

  /** Exchanging any two of distinct numbers changes the parity. */
  lemma {:induction false} ExchangeParity(s: seq<int>, p: nat, q: nat)
    requires Distinct(s) && p < q < |s|
    ensures (Count(Exchange(s, p, q)) + Count(s)) % 2 == 1
    decreases q - p
  {
    NeighboursParity(s, p);
    if p + 1 < q {
      var s1 := Exchange(s, p, p + 1);
      ExchangeDistinct(s, p, p + 1);
      ExchangeParity(s1, p + 1, q);
      var s2 := Exchange(s1, p + 1, q);
      ExchangeDistinct(s1, p + 1, q);
      NeighboursParity(s2, p);
      assert Exchange(s2, p, p + 1) == Exchange(s, p, q);
    }
  }
}
