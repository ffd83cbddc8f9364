/** The order of suffixes, and the sample of every third suffix from which the skew algorithm builds it. */
module SuffixOrder {
  import opened Permutations

  // ---------------------------------------------------------------------------
  // Suffix arrays
  // ---------------------------------------------------------------------------

  /** Strict lexicographic order. */
  ghost predicate LexLt(a: seq<int>, b: seq<int>) {
    b != [] && (a == [] || a[0] < b[0] || (a[0] == b[0] && LexLt(a[1..], b[1..])))
  }

  /** `sa` lists the start positions of all suffixes of `text` in strictly increasing order. */
  ghost predicate IsSuffixArray(text: seq<int>, sa: seq<int>) {
    && |sa| == |text|
    && Permutation(sa)
    && forall i, j :: 0 <= i < j < |sa| ==> LexLt(text[sa[i]..], text[sa[j]..])
  }

  /** A text of `n` characters from 1 up, with at least three zeros behind it. */
  ghost predicate Padded(s: seq<int>, n: nat) {
    && n + 3 <= |s|
    && s[n] == s[n + 1] == s[n + 2] == 0
    && forall i :: 0 <= i < n ==> s[i] >= 1
  }

  /** The suffix at `i` comes before the suffix at `j`. */
  ghost predicate SufLt(s: seq<int>, n: nat, i: nat, j: nat)
    requires n <= |s| && i <= n && j <= n
    decreases n - i
  {
    j < n && (i == n || s[i] < s[j] || (s[i] == s[j] && SufLt(s, n, i + 1, j + 1)))
  }

  lemma {:induction false} SufLtIsLexLt(s: seq<int>, n: nat, i: nat, j: nat)
    requires n <= |s| && i <= n && j <= n
    ensures SufLt(s, n, i, j) <==> LexLt(s[..n][i..], s[..n][j..])
    decreases n - i
  {
    var t := s[..n];
    if i < n && j < n {
      assert t[i..][1..] == t[i + 1..] && t[j..][1..] == t[j + 1..];
      SufLtIsLexLt(s, n, i + 1, j + 1);
    }
  }

  /** Different suffixes are ordered one way and not the other. */
  lemma {:induction false} SufLtTotal(s: seq<int>, n: nat, i: nat, j: nat)
    requires n <= |s| && i <= n && j <= n
    ensures i != j ==> (SufLt(s, n, i, j) <==> !SufLt(s, n, j, i))
    ensures i == j ==> !SufLt(s, n, i, j)
    decreases n - i
  {
    if i < n && j < n {
      SufLtTotal(s, n, i + 1, j + 1);
    }
  }

  lemma {:induction false} SufLtTrans(s: seq<int>, n: nat, i: nat, j: nat, k: nat)
    requires n <= |s| && i <= n && j <= n && k <= n
    requires SufLt(s, n, i, j) && SufLt(s, n, j, k)
    ensures SufLt(s, n, i, k)
    decreases n - i
  {
    if i < n && s[i] == s[j] == s[k] {
      SufLtTrans(s, n, i + 1, j + 1, k + 1);
    }
  }

  // ---------------------------------------------------------------------------
  // Triples
  // ---------------------------------------------------------------------------

  /** The characters from offset `k` on in the triples at `x` and `y`, compared lexicographically. */
  predicate TripleLe(s: seq<int>, k: nat, x: int, y: int)
    requires 0 <= x && 0 <= y && x + 2 < |s| && y + 2 < |s|
    decreases 3 - k
  {
    k >= 3 || s[x + k] < s[y + k] || (s[x + k] == s[y + k] && TripleLe(s, k + 1, x, y))
  }

  predicate TripleEq(s: seq<int>, x: int, y: int)
    requires 0 <= x && 0 <= y && x + 2 < |s| && y + 2 < |s|
  {
    s[x] == s[y] && s[x + 1] == s[y + 1] && s[x + 2] == s[y + 2]
  }

  predicate TripleLt(s: seq<int>, x: int, y: int)
    requires 0 <= x && 0 <= y && x + 2 < |s| && y + 2 < |s|
  {
    TripleLe(s, 0, x, y) && !TripleEq(s, x, y)
  }

  /** Suffixes whose triples differ are ordered as their triples. */
  lemma TripleDecides(s: seq<int>, n: nat, x: nat, y: nat)
    requires Padded(s, n) && x <= n && y <= n
    requires TripleLt(s, x, y)
    ensures SufLt(s, n, x, y)
  {
    assert TripleLe(s, 0, x, y) ==> s[x] < s[y] || (s[x] == s[y] && TripleLe(s, 1, x, y));
    assert TripleLe(s, 1, x, y) ==> s[x + 1] < s[y + 1] || (s[x + 1] == s[y + 1] && TripleLe(s, 2, x, y));
    assert TripleLe(s, 2, x, y) ==> s[x + 2] < s[y + 2] || (s[x + 2] == s[y + 2] && TripleLe(s, 3, x, y));
    if s[x] == s[y] {
      assert x < n && y < n;
      if s[x + 1] == s[y + 1] {
        assert x + 1 < n && y + 1 < n;
        assert SufLt(s, n, x + 2, y + 2);
      }
      assert SufLt(s, n, x + 1, y + 1);
    }
  }

  /** Equal triples at different positions lie inside the text, and the rest decides. */
  lemma EqualTriples(s: seq<int>, n: nat, x: nat, y: nat)
    requires Padded(s, n) && x <= n && y <= n && x != y
    requires TripleEq(s, x, y)
    ensures x + 3 <= n && y + 3 <= n
    ensures SufLt(s, n, x, y) <==> SufLt(s, n, x + 3, y + 3)
  {
    assert x < n && y < n;
    assert x + 1 < n && y + 1 < n;
    assert x + 2 < n && y + 2 < n;
    assert SufLt(s, n, x + 2, y + 2) <==> SufLt(s, n, x + 3, y + 3);
    assert SufLt(s, n, x + 1, y + 1) <==> SufLt(s, n, x + 2, y + 2);
  }

  // ---------------------------------------------------------------------------
  // The sample: the suffixes at positions 1 and 2 modulo 3, numbered mod 1 first
  // ---------------------------------------------------------------------------

  /** A text length with the numbers of positions that are 0, 1 and 2 modulo 3. */
  datatype ThirdsOf = ThirdsOf(n: nat, n0: nat, n1: nat, n2: nat) {
    /** n02: the size of the sample, with the dummy position when the length is 1 modulo 3. */
    function Sample(): nat { n0 + n2 }
  }

  type Dims = d: ThirdsOf | d.n == d.n0 + d.n1 + d.n2 && d.n2 <= d.n1 <= d.n0 <= d.n2 + 1 witness ThirdsOf(0, 0, 0, 0)

  function DimsOf(n: nat): Dims {
    ThirdsOf(n, (n + 2) / 3, (n + 1) / 3, n / 3)
  }

  /** GetI of the source: the position with number `x` in the sample. */
  function Pos(d: Dims, x: nat): nat {
    if x < d.n0 then 3 * x + 1 else 3 * (x - d.n0) + 2
  }

  /** The number of a sampled position. */
  function NumberOf(d: Dims, p: nat): nat {
    if p % 3 == 1 then p / 3 else p / 3 + d.n0
  }

  predicate Sampled(d: Dims, p: int) {
    0 <= p < d.n + (d.n0 - d.n1) && p % 3 != 0
  }

  lemma SampleNumbers(d: Dims, x: nat)
    requires x < d.Sample()
    ensures Sampled(d, Pos(d, x)) && Pos(d, x) <= d.n && NumberOf(d, Pos(d, x)) == x
    ensures Pos(d, x) == d.n ==> d.n0 > d.n1 && x == d.n0 - 1
  {
  }

  lemma SamplePositions(d: Dims, p: int)
    requires Sampled(d, p)
    ensures p <= d.n && NumberOf(d, p) < d.Sample() && Pos(d, NumberOf(d, p)) == p
  {
  }

  /** Positions of the numbers 0, ..., N02(n): the number behind the last one stands for the empty
      suffix, and does so only when the length is 2 modulo 3. */
  function PosEnd(d: Dims, x: nat): nat {
    if x >= d.Sample() then d.n else Pos(d, x)
  }

  predicate Numbered(d: Dims, x: nat) {
    x < d.Sample() || (x == d.Sample() && d.n1 > d.n2)
  }

  lemma PosEndBelow(d: Dims, x: nat)
    requires Numbered(d, x)
    ensures PosEnd(d, x) <= d.n
  {
  }

  /** `t` names the sampled suffixes by their triples: equal names for equal triples, smaller names
      for smaller triples. */
  ghost predicate NamesTriples(s: seq<int>, d: Dims, t: seq<int>)
    requires d.n + 3 <= |s|
  {
    && |t| == d.Sample()
    && forall x, y :: 0 <= x < |t| && 0 <= y < |t| ==>
         && Pos(d, x) <= d.n && Pos(d, y) <= d.n
         && (t[x] == t[y] <==> TripleEq(s, Pos(d, x), Pos(d, y)))
         && (t[x] < t[y] <==> TripleLt(s, Pos(d, x), Pos(d, y)))
  }

  lemma NextNumber(d: Dims, x: nat)
    requires x < d.Sample() && Pos(d, x) + 3 <= d.n
    ensures Numbered(d, x + 1) && PosEnd(d, x + 1) == Pos(d, x) + 3
  {
  }

  /** The string of names has the same suffix order as the sampled suffixes. */
  lemma {:induction false} NamesOrder(s: seq<int>, d: Dims, t: seq<int>, x: nat, y: nat)
    requires Padded(s, d.n) && NamesTriples(s, d, t)
    requires Numbered(d, x) && Numbered(d, y) && x != y
    requires SufLt(t, |t|, x, y)
    ensures PosEnd(d, x) <= d.n && PosEnd(d, y) <= d.n
    ensures SufLt(s, d.n, PosEnd(d, x), PosEnd(d, y))
    decreases |t| - x
  {
    PosEndBelow(d, x);
    PosEndBelow(d, y);
    if x == |t| {
      SampleNumbers(d, y);
    } else if t[x] < t[y] {
      TripleDecides(s, d.n, Pos(d, x), Pos(d, y));
    } else {
      SampleNumbers(d, x);
      SampleNumbers(d, y);
      EqualTriples(s, d.n, Pos(d, x), Pos(d, y));
      NextNumber(d, x);
      NextNumber(d, y);
      NamesOrder(s, d, t, x + 1, y + 1);
    }
  }

  /** `rank` numbers the sampled suffixes in their order, from 1; the number 0 behind them is the
      empty suffix. */
  ghost predicate RanksSample(s: seq<int>, d: Dims, rank: seq<int>)
    requires d.n <= |s|
  {
    && d.Sample() < |rank|
    && forall x: nat, y: nat :: Numbered(d, x) && Numbered(d, y) ==>
         && PosEnd(d, x) <= d.n && PosEnd(d, y) <= d.n && x < |rank| && y < |rank|
         && (rank[x] < rank[y] <==> SufLt(s, d.n, PosEnd(d, x), PosEnd(d, y)))
  }

  /** The merge compares a sampled suffix with one at a multiple of 3 by a character or two and ranks. */
  predicate MergeLe(s: seq<int>, d: Dims, rank: seq<int>, x: nat, j: nat)
    requires Pos(d, x) + 1 < |s| && j + 1 < |s|
    requires x < d.Sample() && x + 1 < |rank| && x + d.n0 < |rank| + d.n0
    requires x < d.n0 ==> x + d.n0 < |rank|
    requires j / 3 + d.n0 < |rank|
  {
    var i := Pos(d, x);
    if x < d.n0 then
      s[i] < s[j] || (s[i] == s[j] && rank[x + d.n0] <= rank[j / 3])
    else
      s[i] < s[j] || (s[i] == s[j] && (s[i + 1] < s[j + 1] ||
        (s[i + 1] == s[j + 1] && rank[x - d.n0 + 1] <= rank[j / 3 + d.n0])))
  }

  lemma MergeBounds(d: Dims, x: nat, j: nat)
    requires x < d.Sample() && j < d.n && j % 3 == 0
    ensures Pos(d, x) <= d.n && x + 1 <= d.Sample()
    ensures x < d.n0 ==> x + d.n0 <= d.Sample()
    ensures j / 3 + d.n0 <= d.Sample() && j / 3 < d.n0
  {
  }

  lemma MergeDecides(s: seq<int>, d: Dims, rank: seq<int>, x: nat, j: nat)
    requires Padded(s, d.n) && RanksSample(s, d, rank)
    requires x < d.Sample() && Pos(d, x) < d.n && j < d.n && j % 3 == 0
    ensures x + 1 < |rank| && (x < d.n0 ==> x + d.n0 < |rank|) && j / 3 + d.n0 < |rank|
    ensures MergeLe(s, d, rank, x, j) <==> SufLt(s, d.n, Pos(d, x), j)
  {
    MergeBounds(d, x, j);
    if x < d.n0 {
      MergeDecides1(s, d, rank, x, j);
    } else {
      MergeDecides2(s, d, rank, x, j);
    }
  }

  /** The sampled position is 1 modulo 3: one character, then the ranks of the next suffixes. */
  lemma MergeDecides1(s: seq<int>, d: Dims, rank: seq<int>, x: nat, j: nat)
    requires Padded(s, d.n) && RanksSample(s, d, rank)
    requires x < d.n0 && x < d.Sample() && Pos(d, x) < d.n && j < d.n && j % 3 == 0
    ensures x + d.n0 < |rank| && j / 3 < |rank|
    ensures SufLt(s, d.n, Pos(d, x), j) <==>
              s[Pos(d, x)] < s[j] || (s[Pos(d, x)] == s[j] && rank[x + d.n0] <= rank[j / 3])
  {
    var i := Pos(d, x);
    var x', j' := x + d.n0, j / 3;
    assert Numbered(d, x') && PosEnd(d, x') == i + 1;
    assert Numbered(d, j') && PosEnd(d, j') == j + 1;
    SufLtTotal(s, d.n, i + 1, j + 1);
    assert rank[x'] < rank[j'] <==> SufLt(s, d.n, i + 1, j + 1);
    assert rank[j'] < rank[x'] <==> SufLt(s, d.n, j + 1, i + 1);
  }

  /** It is 2 modulo 3: two characters, then the ranks. */
  lemma MergeDecides2(s: seq<int>, d: Dims, rank: seq<int>, x: nat, j: nat)
    requires Padded(s, d.n) && RanksSample(s, d, rank)
    requires d.n0 <= x < d.Sample() && Pos(d, x) < d.n && j < d.n && j % 3 == 0
    ensures x - d.n0 + 1 < |rank| && j / 3 + d.n0 < |rank|
    ensures var i := Pos(d, x);
            SufLt(s, d.n, i, j) <==>
              s[i] < s[j] || (s[i] == s[j] && (s[i + 1] < s[j + 1] ||
                (s[i + 1] == s[j + 1] && rank[x - d.n0 + 1] <= rank[j / 3 + d.n0])))
  {
    MergeBounds(d, x, j);
    var i := Pos(d, x);
    if s[i] == s[j] {
      assert SufLt(s, d.n, i, j) <==> SufLt(s, d.n, i + 1, j + 1);
      if s[i + 1] == s[j + 1] {
        assert i + 1 < d.n && j + 1 < d.n;
        assert SufLt(s, d.n, i + 1, j + 1) <==> SufLt(s, d.n, i + 2, j + 2);
        var x', j' := x - d.n0 + 1, j / 3 + d.n0;
        assert Numbered(d, x') && PosEnd(d, x') == i + 2;
        assert Numbered(d, j') && PosEnd(d, j') == j + 2;
        SufLtTotal(s, d.n, i + 2, j + 2);
        assert rank[x'] < rank[j'] <==> SufLt(s, d.n, i + 2, j + 2);
        assert rank[j'] < rank[x'] <==> SufLt(s, d.n, j + 2, i + 2);
      }
    }
  }
}
