/** Facts about sequences of sampled positions on which the steps of the skew algorithm rest. */
module SuffixSample {
  import opened Permutations
  import opened RadixSort
  import opened SuffixOrder

  ghost predicate AllSampled(d: Dims, a: seq<int>) {
    forall i :: 0 <= i < |a| ==> Sampled(d, a[i])
  }

  lemma SampledFits(s: seq<int>, d: Dims, p: int)
    requires Sampled(d, p) && d.n + 3 <= |s|
    ensures 0 <= p <= d.n && p + 2 < |s|
  {
    SamplePositions(d, p);
  }

  /** Ordered by the characters from offset `k` on. */
  ghost predicate SortedFrom(s: seq<int>, k: nat, a: seq<int>) {
    forall i, j :: 0 <= i < j < |a| ==>
      0 <= a[i] && a[i] + 2 < |s| && 0 <= a[j] && a[j] + 2 < |s| && TripleLe(s, k, a[i], a[j])
  }

  /** Each pass adds one more leading character to the order. */
  lemma PassSorts(s: seq<int>, d: Dims, a: seq<int>, b: seq<int>, k: nat)
    requires k < 3 && d.n + 3 <= |s| && AllSampled(d, a) && Distinct(a) && SortedFrom(s, k + 1, a)
    requires forall i :: 0 <= i < |a| ==> 0 <= a[i] && a[i] + k < |s|
    requires StablySorted(a, b, KeysOf(a, s, k))
    ensures AllSampled(d, b) && Distinct(b) && SortedFrom(s, k, b)
  {
    var fits := (x: int) => 0 <= x && x + 2 < |s|;
    var key := (x: int) => if fits(x) then s[x + k] else 0;
    var r := (x: int, y: int) => fits(x) && fits(y) && TripleLe(s, k + 1, x, y);
    forall i | 0 <= i < |a| ensures fits(a[i]) { SampledFits(s, d, a[i]); }
    StableOrder(a, b, KeysOf(a, s, k), key, r);
    StableContents(a, b, KeysOf(a, s, k), x => Sampled(d, x));
  }

  lemma TripleLeAntisym(s: seq<int>, x: int, y: int)
    requires 0 <= x && 0 <= y && x + 2 < |s| && y + 2 < |s|
    requires TripleLe(s, 0, x, y) && TripleLe(s, 0, y, x)
    ensures TripleEq(s, x, y)
  {
    assert TripleLe(s, 0, x, y) ==> s[x] < s[y] || (s[x] == s[y] && TripleLe(s, 1, x, y));
    assert TripleLe(s, 0, y, x) ==> s[y] < s[x] || (s[x] == s[y] && TripleLe(s, 1, y, x));
    assert TripleLe(s, 1, x, y) ==> s[x + 1] < s[y + 1] || (s[x + 1] == s[y + 1] && TripleLe(s, 2, x, y));
    assert TripleLe(s, 1, y, x) ==> s[y + 1] < s[x + 1] || (s[x + 1] == s[y + 1] && TripleLe(s, 2, y, x));
  }

  // ---------------------------------------------------------------------------
  // Names
  // ---------------------------------------------------------------------------

  ghost function NumbersOf(d: Dims, a: seq<int>): (r: seq<int>)
    requires AllSampled(d, a)
    ensures |r| == |a|
  {
    seq(|a|, i requires 0 <= i < |a| => NumberOf(d, a[i]))
  }

  /** All sampled positions, each once, have all numbers, each once. */
  lemma NumbersPermutation(d: Dims, a: seq<int>)
    requires AllSampled(d, a) && Distinct(a) && |a| == d.Sample()
    ensures Permutation(NumbersOf(d, a))
  {
    forall i | 0 <= i < |a| ensures NumberOf(d, a[i]) < d.Sample() && Pos(d, NumberOf(d, a[i])) == a[i] {
      SamplePositions(d, a[i]);
    }
  }

  /** The names of the first positions of a list sorted by triples: they grow by one where the triple changes. */
  ghost predicate Named(s: seq<int>, a: seq<int>, names: seq<int>) {
    && |names| <= |a|
    && (forall k :: 0 <= k < |names| ==> 1 <= names[k] <= k + 1)
    && (forall k, l :: 0 <= k <= l < |names| ==> names[k] <= names[l] <= names[k] + (l - k))
    && (forall k, l {:trigger names[k], names[l]} :: 0 <= k < l < |names| ==>
          0 <= a[k] && a[k] + 2 < |s| && 0 <= a[l] && a[l] + 2 < |s|
            && (names[k] == names[l] <==> TripleEq(s, a[k], a[l])))
  }

  /** The next name is the last one for an equal triple, and one more for a greater one. */
  lemma NextName(s: seq<int>, d: Dims, a: seq<int>, names: seq<int>, name: int)
    requires d.n + 3 <= |s| && AllSampled(d, a) && SortedFrom(s, 0, a)
    requires Named(s, a, names) && |names| < |a|
    requires 0 <= a[|names|] && a[|names|] + 2 < |s|
    requires names == [] ==> name == 1
    requires names != [] ==> 0 <= a[|names| - 1] && a[|names| - 1] + 2 < |s|
    requires names != [] ==> name == names[|names| - 1] + if TripleEq(s, a[|names| - 1], a[|names|]) then 0 else 1
    ensures Named(s, a, names + [name])
  {
    var i := |names|;
    forall k | 0 <= k < i
      ensures 0 <= a[k] && a[k] + 2 < |s| && (names[k] == name <==> TripleEq(s, a[k], a[i]))
    {
      NameTies(s, d, a, names, name, k);
    }
  }

  lemma NameTies(s: seq<int>, d: Dims, a: seq<int>, names: seq<int>, name: int, k: nat)
    requires d.n + 3 <= |s| && AllSampled(d, a) && SortedFrom(s, 0, a)
    requires Named(s, a, names) && k < |names| < |a|
    requires 0 <= a[|names|] && a[|names|] + 2 < |s|
    requires 0 <= a[|names| - 1] && a[|names| - 1] + 2 < |s|
    requires name == names[|names| - 1] + if TripleEq(s, a[|names| - 1], a[|names|]) then 0 else 1
    ensures 0 <= a[k] && a[k] + 2 < |s| && (names[k] == name <==> TripleEq(s, a[k], a[|names|]))
  {
    var i := |names|;
    SampledFits(s, d, a[k]);
    if k < i - 1 {
      assert names[k] <= names[i - 1] && (names[k] == names[i - 1] <==> TripleEq(s, a[k], a[i - 1]));
      assert TripleLe(s, 0, a[k], a[i - 1]) && TripleLe(s, 0, a[i - 1], a[i]);
      if TripleEq(s, a[k], a[i]) {
        Between(s, a[k], a[i - 1], a[i]);
      }
    }
  }

  /** What lies between two equal triples is equal to them. */
  lemma Between(s: seq<int>, x: int, y: int, z: int)
    requires 0 <= x && 0 <= y && 0 <= z && x + 2 < |s| && y + 2 < |s| && z + 2 < |s|
    requires TripleLe(s, 0, x, y) && TripleLe(s, 0, y, z) && TripleEq(s, x, z)
    ensures TripleEq(s, x, y) && TripleEq(s, y, z)
  {
    assert TripleLe(s, 2, y, z) ==> TripleLe(s, 2, y, x);
    assert TripleLe(s, 1, y, z) ==> TripleLe(s, 1, y, x);
    assert TripleLe(s, 0, y, x);
    TripleLeAntisym(s, x, y);
  }

  /** Names stored under the numbers of the positions name the triples. */
  lemma NamesAreTriples(s: seq<int>, d: Dims, a: seq<int>, names: seq<int>, t: seq<int>)
    requires d.n + 3 <= |s| && AllSampled(d, a) && Distinct(a) && SortedFrom(s, 0, a)
    requires |a| == |names| == |t| == d.Sample()
    requires Named(s, a, names)
    requires forall k :: 0 <= k < |a| ==> 0 <= NumberOf(d, a[k]) < |t| && t[NumberOf(d, a[k])] == names[k]
    ensures NamesTriples(s, d, t)
    ensures forall x :: 0 <= x < |t| ==> 1 <= t[x] && (|names| > 0 ==> t[x] <= names[|names| - 1])
    ensures |names| > 0 && names[|names| - 1] == |names| ==>
              forall k :: 0 <= k < |a| ==> 0 <= NumberOf(d, a[k]) < |t| && t[NumberOf(d, a[k])] == k + 1
  {
    NumbersPermutation(d, a);
    forall x, y | 0 <= x < |t| && 0 <= y < |t|
      ensures Pos(d, x) <= d.n && Pos(d, y) <= d.n && 1 <= t[x] <= names[|names| - 1]
      ensures t[x] == t[y] <==> TripleEq(s, Pos(d, x), Pos(d, y))
      ensures t[x] < t[y] <==> TripleLt(s, Pos(d, x), Pos(d, y))
    {
      var k := PlaceOf(NumbersOf(d, a), x);
      var l := PlaceOf(NumbersOf(d, a), y);
      SamplePositions(d, a[k]);
      SamplePositions(d, a[l]);
      assert a[k] == Pos(d, x) && a[l] == Pos(d, y) && t[x] == names[k] && t[y] == names[l];
      if k < l {
        assert TripleLe(s, 0, a[k], a[l]);
      } else if l < k {
        assert TripleLe(s, 0, a[l], a[k]);
        if TripleLe(s, 0, a[k], a[l]) { TripleLeAntisym(s, a[k], a[l]); }
      }
    }
  }

  // ---------------------------------------------------------------------------
  // The sorted sample
  // ---------------------------------------------------------------------------

  /** The numbers of the sampled suffixes, in the order of the suffixes. */
  ghost predicate SampleSorted(s: seq<int>, d: Dims, sa: seq<int>)
    requires d.n <= |s|
  {
    && |sa| == d.Sample() && Permutation(sa)
    && forall i, j :: 0 <= i < j < |sa| ==>
         Pos(d, sa[i]) <= d.n && Pos(d, sa[j]) <= d.n && SufLt(s, d.n, Pos(d, sa[i]), Pos(d, sa[j]))
  }

  /** The suffix array of the names sorts the sample. */
  lemma SampleFromRecursion(s: seq<int>, d: Dims, t: seq<int>, sa: seq<int>)
    requires Padded(s, d.n) && NamesTriples(s, d, t)
    requires IsSuffixArray(t, sa)
    ensures SampleSorted(s, d, sa)
  {
    forall i, j | 0 <= i < j < |sa|
      ensures Pos(d, sa[i]) <= d.n && Pos(d, sa[j]) <= d.n && SufLt(s, d.n, Pos(d, sa[i]), Pos(d, sa[j]))
    {
      assert t[..|t|] == t;
      SufLtIsLexLt(t, |t|, sa[i], sa[j]);
      NamesOrder(s, d, t, sa[i], sa[j]);
    }
  }

  /** When all names differ, they are the order. */
  lemma SampleFromNames(s: seq<int>, d: Dims, t: seq<int>, sa: seq<int>)
    requires Padded(s, d.n) && NamesTriples(s, d, t)
    requires |sa| == |t| && Below(sa, |t|) && forall i :: 0 <= i < |sa| ==> t[sa[i]] == i + 1
    ensures SampleSorted(s, d, sa)
  {
    forall i, j | 0 <= i < j < |sa|
      ensures sa[i] != sa[j]
      ensures Pos(d, sa[i]) <= d.n && Pos(d, sa[j]) <= d.n && SufLt(s, d.n, Pos(d, sa[i]), Pos(d, sa[j]))
    {
      assert t[sa[i]] < t[sa[j]];
      TripleDecides(s, d.n, Pos(d, sa[i]), Pos(d, sa[j]));
    }
  }

  /** The places in the sorted sample, counted from 1, rank the sampled suffixes. */
  lemma PlacesRank(s: seq<int>, d: Dims, sa: seq<int>, rank: seq<int>)
    requires Padded(s, d.n) && SampleSorted(s, d, sa)
    requires d.Sample() < |rank| && rank[d.Sample()] == 0
    requires forall i :: 0 <= i < |sa| ==> rank[sa[i]] == i + 1
    ensures RanksSample(s, d, rank)
  {
    forall x: nat, y: nat | Numbered(d, x) && Numbered(d, y)
      ensures PosEnd(d, x) <= d.n && PosEnd(d, y) <= d.n
      ensures rank[x] < rank[y] <==> SufLt(s, d.n, PosEnd(d, x), PosEnd(d, y))
    {
      PosEndBelow(d, x);
      PosEndBelow(d, y);
      if x < d.Sample() && y < d.Sample() {
        var i := PlaceOf(sa, x);
        var j := PlaceOf(sa, y);
        SufLtTotal(s, d.n, Pos(d, x), Pos(d, y));
        SufLtTotal(s, d.n, Pos(d, y), Pos(d, x));
      } else if x < d.Sample() {
        var i := PlaceOf(sa, x);
      } else if y < d.Sample() {
        var j := PlaceOf(sa, y);
        SampleNumbers(d, y);
      }
    }
  }

  /** The dummy suffix, when there is one, is the first of the sorted sample; all others are real. */
  lemma DummyFirst(s: seq<int>, d: Dims, sa: seq<int>, t: nat)
    requires Padded(s, d.n) && SampleSorted(s, d, sa)
    requires d.n0 - d.n1 <= t < |sa|
    ensures Pos(d, sa[t]) < d.n
  {
    SampleNumbers(d, sa[t]);
    if t > 0 {
      assert SufLt(s, d.n, Pos(d, sa[0]), Pos(d, sa[t]));
    }
  }

  // ---------------------------------------------------------------------------
  // The suffixes at multiples of 3
  // ---------------------------------------------------------------------------

  /** Multiples of 3 in the order of the suffixes one further. */
  ghost predicate TailSorted(s: seq<int>, n: nat, a: seq<int>)
    requires n <= |s|
  {
    && (forall i :: 0 <= i < |a| ==> 0 <= a[i] < n && a[i] % 3 == 0)
    && forall i, j :: 0 <= i < j < |a| ==> SufLt(s, n, a[i] + 1, a[j] + 1)
  }

  ghost predicate Sorted(s: seq<int>, n: nat, a: seq<int>)
    requires n <= |s|
  {
    && Below(a, n)
    && forall i, j :: 0 <= i < j < |a| ==> SufLt(s, n, a[i], a[j])
  }

  /** A stable sort by the first character completes the order. */
  lemma FirstCharacterSorts(s: seq<int>, n: nat, a: seq<int>, b: seq<int>)
    requires Padded(s, n) && TailSorted(s, n, a)
    requires StablySorted(a, b, KeysOf(a, s, 0))
    ensures Sorted(s, n, b) && forall i :: 0 <= i < |b| ==> b[i] % 3 == 0
  {
    var keys := KeysOf(a, s, 0);
    forall p | 0 <= p < |b| ensures 0 <= b[p] < n && b[p] % 3 == 0 {
      var i := SourceOf(a, b, keys, p);
    }
    forall p, q | 0 <= p < q < |b| ensures SufLt(s, n, b[p], b[q]) {
      var i := SourceOf(a, b, keys, p);
      var j := SourceOf(a, b, keys, q);
      if Before(keys, j, i) { RankMono(keys, j, i); }
      PairSorted(s, n, a, keys, i, j);
    }
  }

  lemma PairSorted(s: seq<int>, n: nat, a: seq<int>, keys: seq<int>, i: nat, j: nat)
    requires n <= |s| && TailSorted(s, n, a) && i < |a| && j < |a| && |keys| == |a|
    requires Before(keys, i, j) && keys[i] == s[a[i]] && keys[j] == s[a[j]]
    ensures SufLt(s, n, a[i], a[j])
  {
  }

  /** A strictly sorted list of n positions is the suffix array. */
  lemma SortedIsSuffixArray(s: seq<int>, n: nat, sa: seq<int>)
    requires n <= |s| && |sa| == n && Sorted(s, n, sa)
    ensures IsSuffixArray(s[..n], sa)
  {
    forall i, j | 0 <= i < j < |sa|
      ensures sa[i] != sa[j] && LexLt(s[..n][sa[i]..], s[..n][sa[j]..])
    {
      SufLtTotal(s, n, sa[i], sa[j]);
      SufLtIsLexLt(s, n, sa[i], sa[j]);
    }
  }
}
