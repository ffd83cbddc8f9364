/**
 The skew construction of a suffix array: sort the suffixes at positions 1 and 2 modulo 3 by
 recursion on their triples, the others from them, and merge.
 */
module SuffixArray {
  import opened Permutations
  import opened RadixSort
  import opened SuffixOrder
  import opened SuffixSample

  /** Positions 1 and 2 modulo 3, with a dummy position when the length is 1 modulo 3. */
  method FillSample(s12: array<int>, d: Dims)
    requires s12.Length == d.Sample() + 3
    modifies s12
    ensures AllSampled(d, s12[..d.Sample()]) && Distinct(s12[..d.Sample()])
    ensures forall k :: d.Sample() <= k < s12.Length ==> s12[k] == old(s12[k])
  {
    var i, j := 0, 0;
    while i < d.n + (d.n0 - d.n1)
      invariant 0 <= i <= d.n + (d.n0 - d.n1) && j == i - (i + 2) / 3 && 0 <= j <= d.Sample()
      invariant forall k :: 0 <= k < j ==> Sampled(d, s12[k]) && s12[k] < i
      invariant forall k, l :: 0 <= k < l < j ==> s12[k] < s12[l]
      invariant forall k :: d.Sample() <= k < s12.Length ==> s12[k] == old(s12[k])
    {
      if i % 3 != 0 {
        s12[j] := i;
        j := j + 1;
      }
      i := i + 1;
    }
    assert j == d.Sample();
  }

  /** One pass: order by the character at offset `k` of the triples, ties as before. */
  method TriplePass(s: array<int>, a: array<int>, b: array<int>, d: Dims, k: nat, bound: nat)
    requires a != b && b != s && k < 3
    requires Padded(s[..], d.n) && forall i :: 0 <= i < d.n ==> s[i] <= bound
    requires a.Length == b.Length == d.Sample() + 3
    requires AllSampled(d, a[..d.Sample()]) && Distinct(a[..d.Sample()]) && SortedFrom(s[..], k + 1, a[..d.Sample()])
    modifies b
    ensures AllSampled(d, b[..d.Sample()]) && Distinct(b[..d.Sample()]) && SortedFrom(s[..], k, b[..d.Sample()])
    ensures forall i :: d.Sample() <= i < b.Length ==> b[i] == old(b[i])
  {
    var m := d.Sample();
    ghost var text, a0 := s[..], a[..m];
    PassFits(text, d, a0, k, bound);
    forall i | 0 <= i < m ensures 0 <= a[i] && a[i] + k < s.Length && 0 <= s[a[i] + k] <= bound {
      assert a[i] == a0[i] && s[a0[i] + k] == text[a0[i] + k];
    }
    RadixPass(a, b, s, k, m, bound);
    PassSorts(text, d, a0, b[..m], k);
  }

  /** The characters a pass looks at. */
  lemma PassFits(s: seq<int>, d: Dims, a: seq<int>, k: nat, bound: nat)
    requires k < 3 && Padded(s, d.n) && AllSampled(d, a) && forall i :: 0 <= i < d.n ==> s[i] <= bound
    ensures forall i :: 0 <= i < |a| ==> 0 <= a[i] && a[i] + k < |s| && 0 <= s[a[i] + k] <= bound
  {
    forall i | 0 <= i < |a| ensures 0 <= a[i] && a[i] + k < |s| && 0 <= s[a[i] + k] <= bound {
      SampledFits(s, d, a[i]);
    }
  }

  /** The three passes, from the last character of the triples to the first. */
  method SortTriples(s: array<int>, s12: array<int>, SA12: array<int>, d: Dims, bound: nat)
    requires s != s12 && s != SA12 && s12 != SA12
    requires Padded(s[..], d.n) && forall i :: 0 <= i < d.n ==> s[i] <= bound
    requires s12.Length == SA12.Length == d.Sample() + 3
    requires AllSampled(d, s12[..d.Sample()]) && Distinct(s12[..d.Sample()])
    modifies s12, SA12
    ensures AllSampled(d, SA12[..d.Sample()]) && Distinct(SA12[..d.Sample()])
            && SortedFrom(s[..], 0, SA12[..d.Sample()])
    ensures forall k :: d.Sample() <= k < SA12.Length ==> SA12[k] == old(SA12[k]) && s12[k] == old(s12[k])
  {
    SortedAtEnd(s[..], d, s12[..d.Sample()]);
    TriplePass(s, s12, SA12, d, 2, bound);
    TriplePass(s, SA12, s12, d, 1, bound);
    TriplePass(s, s12, SA12, d, 0, bound);
  }

  lemma SortedAtEnd(s: seq<int>, d: Dims, a: seq<int>)
    requires d.n + 3 <= |s| && AllSampled(d, a)
    ensures SortedFrom(s, 3, a)
  {
    forall i | 0 <= i < |a| ensures 0 <= a[i] && a[i] + 2 < |s| { SampledFits(s, d, a[i]); }
  }

  /** The list holds positions with whole triples, each sampled position once. */
  ghost predicate ListsSample(s: seq<int>, d: Dims, a: seq<int>) {
    && |a| == d.Sample()
    && (forall k :: 0 <= k < |a| ==> 0 <= a[k] && a[k] + 2 < |s| && Sampled(d, a[k]))
    && Distinct(a)
  }

  /** The name of the k-th triple of the list: one more than the last where it differs from it. */
  function NameAt(s: seq<int>, a: seq<int>, k: nat): nat
    requires k < |a| && forall k :: 0 <= k < |a| ==> 0 <= a[k] && a[k] + 2 < |s|
  {
    if k == 0 then 1 else NameAt(s, a, k - 1) + if TripleEq(s, a[k - 1], a[k]) then 0 else 1
  }

  /** The k-th position has the name k + 1. */
  ghost predicate Inverse(d: Dims, a: seq<int>, t: seq<int>) {
    |a| == |t| && forall k :: 0 <= k < |a| ==>
      a[k] >= 0 && 0 <= NumberOf(d, a[k]) < |t| && t[NumberOf(d, a[k])] == k + 1
  }

  /** The first `k` names. */
  ghost function NamesUpTo(s: seq<int>, a: seq<int>, k: nat): (r: seq<int>)
    requires k <= |a| && forall k :: 0 <= k < |a| ==> 0 <= a[k] && a[k] + 2 < |s|
    ensures |r| == k
  {
    if k == 0 then [] else NamesUpTo(s, a, k - 1) + [NameAt(s, a, k - 1)]
  }

  lemma {:induction false} NameIndex(s: seq<int>, a: seq<int>, k: nat, i: nat)
    requires i < k <= |a| && forall k :: 0 <= k < |a| ==> 0 <= a[k] && a[k] + 2 < |s|
    ensures NamesUpTo(s, a, k)[i] == NameAt(s, a, i)
  {
    if i < k - 1 {
      NameIndex(s, a, k - 1, i);
    }
  }

  lemma NameFollows(s: seq<int>, a: seq<int>, k: nat)
    requires 1 < k <= |a| && forall k :: 0 <= k < |a| ==> 0 <= a[k] && a[k] + 2 < |s|
    ensures NameAt(s, a, k - 1) == NamesUpTo(s, a, k - 1)[k - 2] + if TripleEq(s, a[k - 2], a[k - 1]) then 0 else 1
  {
    NameIndex(s, a, k - 1, k - 2);
  }

  lemma {:induction false} NamesNamed(s: seq<int>, d: Dims, a: seq<int>, k: nat)
    requires d.n + 3 <= |s| && ListsSample(s, d, a) && AllSampled(d, a) && SortedFrom(s, 0, a) && k <= |a|
    ensures Named(s, a, NamesUpTo(s, a, k))
  {
    if k > 0 {
      NamesNamed(s, d, a, k - 1);
      var names, name := NamesUpTo(s, a, k - 1), NameAt(s, a, k - 1);
      if k > 1 { NameFollows(s, a, k); }
      NextName(s, d, a, names, name);
    }
  }

  lemma PlacedNames(d: Dims, a: seq<int>, t: seq<int>, names: seq<int>)
    requires AllSampled(d, a) && Distinct(a) && |a| == |names| == d.Sample() <= |t|
    requires Below(NumbersOf(d, a), |t|) && Placed(t, names, NumbersOf(d, a), |a|)
    ensures forall k :: 0 <= k < |a| ==>
              0 <= NumberOf(d, a[k]) < d.Sample() && t[..d.Sample()][NumberOf(d, a[k])] == names[k]
  {
    NumbersPermutation(d, a);
    forall k | 0 <= k < |a|
      ensures 0 <= NumberOf(d, a[k]) < d.Sample() && t[..d.Sample()][NumberOf(d, a[k])] == names[k]
    {
      assert NumbersOf(d, a)[k] == NumberOf(d, a[k]);
    }
  }

  /** What the naming leaves behind names the triples. */
  lemma NamingDone(s: seq<int>, d: Dims, a: seq<int>, t: seq<int>, name: int)
    requires d.n >= 2 && Padded(s, d.n) && ListsSample(s, d, a) && SortedFrom(s, 0, a) && AllSampled(d, a)
    requires |t| == d.Sample() + 3 && Below(NumbersOf(d, a), |t|)
    requires Placed(t, NamesUpTo(s, a, |a|), NumbersOf(d, a), |a|)
    requires name == NamesUpTo(s, a, |a|)[|a| - 1]
    ensures NamesTriples(s, d, t[..d.Sample()])
    ensures 1 <= name <= d.Sample()
    ensures forall x :: 0 <= x < d.Sample() ==> 1 <= t[..d.Sample()][x] <= name
    ensures name == d.Sample() ==> Inverse(d, a, t[..d.Sample()])
  {
    var names := NamesUpTo(s, a, |a|);
    ListNamed(s, d, a, t, names, t[..d.Sample()]);
    NamedTriples(s, d, a, names, t[..d.Sample()], name);
  }

  lemma NamedTriples(s: seq<int>, d: Dims, a: seq<int>, names: seq<int>, named: seq<int>, name: int)
    requires d.n >= 2 && Padded(s, d.n) && ListsSample(s, d, a) && SortedFrom(s, 0, a) && AllSampled(d, a)
    requires |named| == |names| == |a| == d.Sample() && Named(s, a, names) && name == names[|names| - 1]
    requires forall k :: 0 <= k < |a| ==> 0 <= NumberOf(d, a[k]) < d.Sample() && named[NumberOf(d, a[k])] == names[k]
    ensures NamesTriples(s, d, named)
    ensures 1 <= name <= d.Sample()
    ensures forall x :: 0 <= x < d.Sample() ==> 1 <= named[x] <= name
    ensures name == d.Sample() ==> Inverse(d, a, named)
  {
    NamesAreTriples(s, d, a, names, named);
  }

  lemma ListNamed(s: seq<int>, d: Dims, a: seq<int>, t: seq<int>, names: seq<int>, named: seq<int>)
    requires d.n >= 2 && Padded(s, d.n) && ListsSample(s, d, a) && SortedFrom(s, 0, a) && AllSampled(d, a)
    requires |t| == d.Sample() + 3 && Below(NumbersOf(d, a), |t|) && named == t[..d.Sample()]
    requires names == NamesUpTo(s, a, |a|) && Placed(t, names, NumbersOf(d, a), |a|)
    ensures Named(s, a, names)
    ensures forall k :: 0 <= k < |a| ==> 0 <= NumberOf(d, a[k]) < d.Sample() && named[NumberOf(d, a[k])] == names[k]
  {
    NamesNamed(s, d, a, |a|);
    PlacedNames(d, a, t, names);
  }

  /** The last triple that was named, or the initial values that equal no triple. */
  ghost predicate LastNamed(s: seq<int>, a: seq<int>, i: nat, name: int, c0: int, c1: int, c2: int)
    requires i <= |a| && forall k :: 0 <= k < |a| ==> 0 <= a[k] && a[k] + 2 < |s|
  {
    if i == 0 then name == 0 && c0 == -1
    else name == NameAt(s, a, i - 1) && c0 == s[a[i - 1]] && c1 == s[a[i - 1] + 1] && c2 == s[a[i - 1] + 2]
  }

  /** One turn of the naming loop, on values. */
  lemma NameStep(s: seq<int>, a: seq<int>, numbers: seq<int>, t: seq<int>, i: nat, name: int, c0: int, c1: int,
      c2: int, name': int)
    requires i < |a| && (forall k :: 0 <= k < |a| ==> 0 <= a[k] && a[k] + 2 < |s|) && s[a[i]] >= 0
    requires |numbers| == |a| && Below(numbers, |t|) && Distinct(numbers)
    requires Placed(t, NamesUpTo(s, a, |a|), numbers, i) && LastNamed(s, a, i, name, c0, c1, c2)
    requires name' == name + if s[a[i]] != c0 || s[a[i] + 1] != c1 || s[a[i] + 2] != c2 then 1 else 0
    ensures Placed(t[numbers[i] := name'], NamesUpTo(s, a, |a|), numbers, i + 1)
    ensures LastNamed(s, a, i + 1, name', s[a[i]], s[a[i] + 1], s[a[i] + 2])
  {
    NameIndex(s, a, |a|, i);
    PlaceOne(t, NamesUpTo(s, a, |a|), numbers, i);
  }

  /** Lexicographic names of the triples, written under the numbers of their positions. */
  method NameTriples(s: array<int>, s12: array<int>, SA12: array<int>, d: Dims, ghost a: seq<int>) returns (name: nat)
    requires s != s12 && s12 != SA12
    requires s12.Length == SA12.Length == d.Sample() + 3 && a == SA12[..d.Sample()]
    requires ListsSample(s[..], d, a) && forall k :: 0 <= k < |a| ==> s[a[k]] >= 0
    modifies s12
    ensures AllSampled(d, a) && Below(NumbersOf(d, a), s12.Length)
    ensures Placed(s12[..], NamesUpTo(s[..], a, |a|), NumbersOf(d, a), |a|)
    ensures |a| > 0 ==> name == NamesUpTo(s[..], a, |a|)[|a| - 1]
    ensures forall k :: d.Sample() <= k < s12.Length ==> s12[k] == old(s12[k])
  {
    ghost var text, numbers, t0 := s[..], NumbersOf(d, a), s12[..];
    ghost var t := t0;
    NumbersPermutation(d, a);
    name := 0;
    var c0, c1, c2 := -1, -1, -1;
    for i := 0 to d.Sample()
      invariant s12[..] == t && |t| == |t0| && t[d.Sample()..] == t0[d.Sample()..]
      invariant Placed(t, NamesUpTo(text, a, |a|), numbers, i)
      invariant LastNamed(text, a, i, name, c0, c1, c2)
    {
      var x := SA12[i];
      assert x == a[i] && numbers[i] == NumberOf(d, x);
      ghost var name0, last0, last1, last2 := name, c0, c1, c2;
      if s[x] != c0 || s[x + 1] != c1 || s[x + 2] != c2 {
        name := name + 1;
        c0, c1, c2 := s[x], s[x + 1], s[x + 2];
      }
      NameStep(text, a, numbers, t, i, name0, last0, last1, last2, name);
      s12[NumberOf(d, x)] := name;
      t := t[numbers[i] := name];
    }
    if |a| > 0 { NameIndex(text, a, |a|, |a| - 1); }
    SameTail(t, t0, d.Sample());
  }

  lemma SameTail(t: seq<int>, u: seq<int>, m: nat)
    requires |t| == |u| && m <= |t| && t[m..] == u[m..]
    ensures forall k :: m <= k < |t| ==> t[k] == u[k]
  {
    forall k | m <= k < |t| ensures t[k] == u[k] { assert t[m..][k - m] == u[m..][k - m]; }
  }

  /** `kept` holds the numbers below N0 among the first `i` of the sorted sample, in their order. */
  ghost predicate Kept(s: seq<int>, d: Dims, sa: seq<int>, kept: seq<int>, i: nat)
    requires d.n <= |s| && i <= |sa|
  {
    && Below(kept, d.n0)
    && (forall k, l :: 0 <= k < l < |kept| ==> SufLt(s, d.n, 3 * kept[k] + 1, 3 * kept[l] + 1))
    && (forall k, l :: 0 <= k < |kept| && i <= l < |sa| && 0 <= sa[l] < d.n0 ==>
          SufLt(s, d.n, 3 * kept[k] + 1, 3 * sa[l] + 1))
    && (forall k :: 0 <= k < i && sa[k] < d.n0 ==> sa[k] in kept)
  }

  lemma KeepSkip(s: seq<int>, d: Dims, sa: seq<int>, kept: seq<int>, i: nat)
    requires d.n <= |s| && i < |sa| && Kept(s, d, sa, kept, i) && sa[i] >= d.n0
    ensures Kept(s, d, sa, kept, i + 1)
  {
  }

  lemma KeptRoom(s: seq<int>, d: Dims, sa: seq<int>, kept: seq<int>, i: nat)
    requires d.n <= |s| && i <= |sa| && Kept(s, d, sa, kept, i)
    ensures |kept| <= d.n0
  {
    TailDistinct(s, d, kept);
    DistinctBelow(kept, d.n0);
  }

  lemma KeepTake(s: seq<int>, d: Dims, sa: seq<int>, kept: seq<int>, i: nat)
    requires d.n <= |s| && SampleSorted(s, d, sa) && i < |sa| && Kept(s, d, sa, kept, i) && sa[i] < d.n0
    ensures Kept(s, d, sa, kept + [sa[i]], i + 1)
  {
    forall l | i < l < |sa| && 0 <= sa[l] < d.n0 ensures SufLt(s, d.n, 3 * sa[i] + 1, 3 * sa[l] + 1) {
      assert SufLt(s, d.n, Pos(d, sa[i]), Pos(d, sa[l]));
    }
  }

  /** The multiples of 3 in the order of the suffixes that follow them, and then in their own. */
  method SortMultiples(s: array<int>, SA12: array<int>, SA0: array<int>, d: Dims, bound: nat)
    requires d.n >= 2 && Padded(s[..], d.n) && forall i :: 0 <= i < d.n ==> s[i] <= bound
    requires SA12.Length == d.Sample() + 3 && SA0.Length == d.n0 && s != SA0 && SA12 != SA0
    requires SampleSorted(s[..], d, SA12[..d.Sample()])
    modifies SA0
    ensures Sorted(s[..], d.n, SA0[..]) && forall i :: 0 <= i < SA0.Length ==> SA0[i] % 3 == 0
  {
    var n0 := d.n0;
    ghost var text := s[..];
    var s0 := new int[n0];
    ghost var kept := GatherMultiples(text, SA12, s0, d);
    TailDistinct(text, d, kept);
    AllKept(SA12[..d.Sample()], kept, n0);
    MultiplesBelow(text, d, kept, s0[..]);
    assert s0[..n0] == s0[..];
    RadixPass(s0, SA0, s, 0, n0, bound);
    assert SA0[..n0] == SA0[..];
    FirstCharacterSorts(text, d.n, s0[..], SA0[..]);
  }

  /** Its first loop: the multiples of 3 in the order of the sampled suffixes right behind them. */
  method GatherMultiples(ghost text: seq<int>, SA12: array<int>, s0: array<int>, d: Dims) returns (ghost kept: seq<int>)
    requires d.n >= 2 && Padded(text, d.n) && SA12.Length == d.Sample() + 3 && s0.Length == d.n0 && SA12 != s0
    requires SampleSorted(text, d, SA12[..d.Sample()])
    modifies s0
    ensures Kept(text, d, SA12[..d.Sample()], kept, d.Sample()) && |kept| <= d.n0
    ensures forall k :: 0 <= k < |kept| ==> s0[k] == 3 * kept[k]
  {
    var m, n0 := d.Sample(), d.n0;
    ghost var sa := SA12[..m];
    var i, j := 0, 0;
    kept := [];
    while i < m
      invariant SA12[..m] == sa
      invariant 0 <= i <= m && 0 <= j == |kept| <= n0
      invariant forall k :: 0 <= k < j ==> s0[k] == 3 * kept[k]
      invariant Kept(text, d, sa, kept, i)
    {
      assert SA12[i] == sa[i];
      if SA12[i] < n0 {
        KeepTake(text, d, sa, kept, i);
        KeptRoom(text, d, sa, kept + [sa[i]], i + 1);
        s0[j] := 3 * SA12[i];
        j := j + 1;
        kept := kept + [sa[i]];
      } else {
        KeepSkip(text, d, sa, kept, i);
      }
      i := i + 1;
    }
  }

  lemma TailDistinct(s: seq<int>, d: Dims, kept: seq<int>)
    requires d.n <= |s| && Below(kept, d.n0)
    requires forall k, l :: 0 <= k < l < |kept| ==> SufLt(s, d.n, 3 * kept[k] + 1, 3 * kept[l] + 1)
    ensures Distinct(kept)
  {
    forall k, l | 0 <= k < l < |kept| ensures kept[k] != kept[l] {
      SufLtTotal(s, d.n, 3 * kept[k] + 1, 3 * kept[l] + 1);
    }
  }

  /** Every number below `m` was kept, so `m` of them were. */
  lemma AllKept(sa: seq<int>, kept: seq<int>, m: nat)
    requires Permutation(sa) && m <= |sa| && Distinct(kept) && Below(kept, m)
    requires forall k :: 0 <= k < |sa| && sa[k] < m ==> sa[k] in kept
    ensures |kept| == m
  {
    forall x | x in Numbers(m) ensures x in Elements(kept) {
      var k := PlaceOf(sa, x);
      var i :| 0 <= i < |kept| && kept[i] == x;
    }
    DistinctCard(kept);
    SubsetCard(Numbers(m), Elements(kept));
    DistinctBelow(kept, m);
  }

  lemma MultiplesBelow(s: seq<int>, d: Dims, kept: seq<int>, z: seq<int>)
    requires d.n <= |s| && Below(kept, d.n0) && |z| == |kept|
    requires forall k, l :: 0 <= k < l < |kept| ==> SufLt(s, d.n, 3 * kept[k] + 1, 3 * kept[l] + 1)
    requires forall k :: 0 <= k < |z| ==> z[k] == 3 * kept[k]
    ensures TailSorted(s, d.n, z)
  {
    forall i | 0 <= i < |z| ensures 0 <= z[i] < d.n && z[i] % 3 == 0 {
      assert z[i] == 3 * kept[i];
    }
    forall i, j | 0 <= i < j < |z| ensures SufLt(s, d.n, z[i] + 1, z[j] + 1) {
      assert z[i] == 3 * kept[i] && z[j] == 3 * kept[j];
    }
  }

  // ---------------------------------------------------------------------------
  // The merge
  // ---------------------------------------------------------------------------

  ghost predicate Precedes(s: seq<int>, n: nat, xs: seq<int>, ys: seq<int>)
    requires n <= |s|
  {
    && Below(xs, n + 1) && Below(ys, n + 1)
    && forall i, j :: 0 <= i < |xs| && 0 <= j < |ys| ==> SufLt(s, n, xs[i], ys[j])
  }

  /** Moving the smaller of two heads behind what is merged already. */
  lemma TakeHead(s: seq<int>, n: nat, done: seq<int>, xs: seq<int>, ys: seq<int>)
    requires n <= |s| && Sorted(s, n, done) && Sorted(s, n, xs) && Sorted(s, n, ys) && xs != []
    requires Precedes(s, n, done, xs) && Precedes(s, n, done, ys)
    requires ys != [] ==> SufLt(s, n, xs[0], ys[0])
    ensures Sorted(s, n, done + [xs[0]]) && Sorted(s, n, xs[1..])
    ensures Precedes(s, n, done + [xs[0]], xs[1..]) && Precedes(s, n, done + [xs[0]], ys)
  {
    forall j | 0 <= j < |ys| ensures SufLt(s, n, xs[0], ys[j]) {
      if j > 0 { SufLtTrans(s, n, xs[0], ys[0], ys[j]); }
    }
  }

  /** Positions of the numbers in a sorted sample, without the dummy. */
  ghost function SamplePos(d: Dims, sa: seq<int>, t: nat): (r: seq<int>)
    requires t <= |sa| && forall i :: 0 <= i < |sa| ==> sa[i] >= 0
    ensures |r| == |sa| - t
  {
    seq(|sa| - t, i requires 0 <= i < |sa| - t => Pos(d, sa[t + i]))
  }

  lemma SamplePosSorted(s: seq<int>, d: Dims, sa: seq<int>, t: nat)
    requires Padded(s, d.n) && SampleSorted(s, d, sa) && d.n0 - d.n1 <= t <= |sa|
    ensures Sorted(s, d.n, SamplePos(d, sa, t))
    ensures t < |sa| ==> SamplePos(d, sa, t)[1..] == SamplePos(d, sa, t + 1)
  {
    var r := SamplePos(d, sa, t);
    forall i | 0 <= i < |r| ensures 0 <= r[i] < d.n {
      DummyFirst(s, d, sa, t + i);
    }
  }

  /** The merge is under way: `done` is sorted and precedes what is left of both lists. */
  ghost predicate Merging(s: seq<int>, d: Dims, sa: seq<int>, z: seq<int>, done: seq<int>, p: nat, t: nat)
    requires d.n <= |s| && p <= |z| && t <= |sa| && forall i :: 0 <= i < |sa| ==> sa[i] >= 0
  {
    Sorted(s, d.n, done) && Precedes(s, d.n, done, z[p..]) && Precedes(s, d.n, done, SamplePos(d, sa, t))
  }

  lemma TakeSampled(s: seq<int>, d: Dims, sa: seq<int>, z: seq<int>, done: seq<int>, p: nat, t: nat)
    requires Padded(s, d.n) && SampleSorted(s, d, sa) && Sorted(s, d.n, z)
    requires p <= |z| && d.n0 - d.n1 <= t < |sa| && Merging(s, d, sa, z, done, p, t)
    requires p < |z| ==> Pos(d, sa[t]) <= d.n && SufLt(s, d.n, Pos(d, sa[t]), z[p])
    ensures Merging(s, d, sa, z, done + [Pos(d, sa[t])], p, t + 1)
  {
    SamplePosSorted(s, d, sa, t);
    assert Sorted(s, d.n, z[p..]);
    TakeHead(s, d.n, done, SamplePos(d, sa, t), z[p..]);
  }

  lemma TakeMultiple(s: seq<int>, d: Dims, sa: seq<int>, z: seq<int>, done: seq<int>, p: nat, t: nat)
    requires Padded(s, d.n) && SampleSorted(s, d, sa) && Sorted(s, d.n, z)
    requires p < |z| && d.n0 - d.n1 <= t <= |sa| && Merging(s, d, sa, z, done, p, t)
    requires t < |sa| ==> Pos(d, sa[t]) <= d.n && SufLt(s, d.n, z[p], Pos(d, sa[t]))
    ensures Merging(s, d, sa, z, done + [z[p]], p + 1, t)
  {
    SamplePosSorted(s, d, sa, t);
    assert Sorted(s, d.n, z[p..]);
    TakeHead(s, d.n, done, z[p..], SamplePos(d, sa, t));
    assert z[p..][1..] == z[p + 1..];
  }

  /** What the comparison of the merge decides about the suffix at place `t` of the sorted sample. */
  lemma HeadsDecide(s: seq<int>, d: Dims, sa: seq<int>, rank: seq<int>, t: nat, j: nat)
    requires Padded(s, d.n) && SampleSorted(s, d, sa) && RanksSample(s, d, rank)
    requires d.n0 - d.n1 <= t < |sa| && j < d.n && j % 3 == 0
    ensures var x := sa[t];
            && 0 <= x < d.Sample() && Pos(d, x) < d.n
            && x + 1 < |rank| && (x < d.n0 ==> x + d.n0 < |rank|) && j / 3 + d.n0 < |rank|
            && (MergeLe(s, d, rank, x, j) <==> SufLt(s, d.n, Pos(d, x), j))
            && (SufLt(s, d.n, Pos(d, x), j) <==> !SufLt(s, d.n, j, Pos(d, x)))
  {
    DummyFirst(s, d, sa, t);
    MergeDecides(s, d, rank, sa[t], j);
    MergeBounds(d, sa[t], j);
    SufLtTotal(s, d.n, Pos(d, sa[t]), j);
  }

  /** The comparison of the merge, by characters and ranks. */
  method MergeCompare(s: array<int>, s12: array<int>, d: Dims, x: nat, j: nat) returns (first: bool)
    requires x < d.Sample() && Pos(d, x) + 1 < s.Length && j + 1 < s.Length
    requires x + 1 < s12.Length && (x < d.n0 ==> x + d.n0 < s12.Length) && j / 3 + d.n0 < s12.Length
    ensures first == MergeLe(s[..], d, s12[..], x, j)
  {
    var i := Pos(d, x);
    if x < d.n0 {
      first := s[i] < s[j] || (s[i] == s[j] && s12[x + d.n0] <= s12[j / 3]);
    } else {
      first := s[i] < s[j] || (s[i] == s[j] && (s[i + 1] < s[j + 1] ||
        (s[i + 1] == s[j + 1] && s12[x - d.n0 + 1] <= s12[j / 3 + d.n0])));
    }
  }

  /** The output after `k` places. */
  ghost predicate Merged(s: seq<int>, d: Dims, sa: seq<int>, z: seq<int>, out: seq<int>, p: nat, t: nat, k: nat)
    requires d.n <= |s|
  {
    && SampleSorted(s, d, sa) && Sorted(s, d.n, z)
    && p <= |z| && d.n0 - d.n1 <= t <= |sa|
    && k == p + t - (d.n0 - d.n1) <= |out|
    && Merging(s, d, sa, z, out[..k], p, t)
  }

  lemma PutSampled(s: seq<int>, d: Dims, sa: seq<int>, z: seq<int>, out: seq<int>, p: nat, t: nat, k: nat)
    requires Padded(s, d.n) && Merged(s, d, sa, z, out, p, t, k) && t < |sa| && k < |out|
    requires p < |z| ==> Pos(d, sa[t]) <= d.n && SufLt(s, d.n, Pos(d, sa[t]), z[p])
    ensures Merged(s, d, sa, z, out[k := Pos(d, sa[t])], p, t + 1, k + 1)
  {
    TakeSampled(s, d, sa, z, out[..k], p, t);
    assert out[k := Pos(d, sa[t])][..k + 1] == out[..k] + [Pos(d, sa[t])];
  }

  lemma PutMultiple(s: seq<int>, d: Dims, sa: seq<int>, z: seq<int>, out: seq<int>, p: nat, t: nat, k: nat)
    requires Padded(s, d.n) && Merged(s, d, sa, z, out, p, t, k) && p < |z| && k < |out|
    requires t < |sa| ==> Pos(d, sa[t]) <= d.n && SufLt(s, d.n, z[p], Pos(d, sa[t]))
    ensures Merged(s, d, sa, z, out[k := z[p]], p + 1, t, k + 1)
  {
    TakeMultiple(s, d, sa, z, out[..k], p, t);
    assert out[k := z[p]][..k + 1] == out[..k] + [z[p]];
  }

  lemma MergeStart(s: seq<int>, d: Dims, sa: seq<int>, z: seq<int>, out: seq<int>)
    requires Padded(s, d.n) && SampleSorted(s, d, sa) && Sorted(s, d.n, z)
    ensures d.n0 >= d.n1 && (d.n >= 2 ==> d.n0 - d.n1 < d.Sample())
    ensures d.n >= 2 ==> Merged(s, d, sa, z, out, 0, d.n0 - d.n1, 0)
  {
    if d.n >= 2 {
      SamplePosSorted(s, d, sa, d.n0 - d.n1);
    }
  }

  /** Only the suffixes at multiples of 3 are left. */
  method AppendMultiples(SA0: array<int>, SA: array<int>, p0: nat, k0: nat, ghost s: seq<int>, d: Dims,
      ghost sa: seq<int>)
    requires SA != SA0 && Padded(s, d.n) && d.n <= SA.Length
    requires d.n0 == SA0.Length && |sa| == d.Sample()
    requires Merged(s, d, sa, SA0[..], SA[..], p0, d.Sample(), k0)
    modifies SA
    ensures Merged(s, d, sa, SA0[..], SA[..], d.n0, d.Sample(), d.n)
    ensures forall q :: d.n <= q < SA.Length ==> SA[q] == old(SA[q])
  {
    ghost var z := SA0[..];
    ghost var out := SA[..];
    var p, k := p0, k0;
    while p < d.n0
      invariant p0 <= p <= d.n0 && k == p + d.Sample() - (d.n0 - d.n1) && SA[..] == out
      invariant Merged(s, d, sa, z, out, p, d.Sample(), k)
      invariant forall q :: d.n <= q < SA.Length ==> SA[q] == old(SA[q])
    {
      PutMultiple(s, d, sa, z, out, p, d.Sample(), k);
      SA[k] := SA0[p];
      out := out[k := z[p]];
      p, k := p + 1, k + 1;
    }
  }

  /** Only sampled suffixes are left. */
  method AppendSampled(SA12: array<int>, SA: array<int>, t0: nat, k0: nat, ghost s: seq<int>, d: Dims,
      ghost z: seq<int>)
    requires SA != SA12 && Padded(s, d.n) && d.n <= SA.Length
    requires d.n0 == |z| && d.Sample() <= SA12.Length
    requires Merged(s, d, SA12[..d.Sample()], z, SA[..], d.n0, t0, k0)
    modifies SA
    ensures Merged(s, d, SA12[..d.Sample()], z, SA[..], d.n0, d.Sample(), d.n)
    ensures forall q :: d.n <= q < SA.Length ==> SA[q] == old(SA[q])
  {
    ghost var sa := SA12[..d.Sample()];
    ghost var out := SA[..];
    var t, k := t0, k0;
    while t < d.Sample()
      invariant t0 <= t <= d.Sample() && k == d.n0 + t - (d.n0 - d.n1) && SA[..] == out
      invariant Merged(s, d, sa, z, out, d.n0, t, k)
      invariant forall q :: d.n <= q < SA.Length ==> SA[q] == old(SA[q])
    {
      PutSampled(s, d, sa, z, out, d.n0, t, k);
      assert SA12[t] == sa[t];
      SA[k] := Pos(d, SA12[t]);
      out := out[k := Pos(d, sa[t])];
      t, k := t + 1, k + 1;
    }
  }

  /** The smaller of the two heads goes to place `k`. */
  method TakeOne(s: array<int>, s12: array<int>, SA12: array<int>, SA0: array<int>, SA: array<int>, d: Dims,
                 p0: nat, t0: nat, k: nat) returns (p: nat, t: nat)
    requires Padded(s[..], d.n)
    requires s12.Length == SA12.Length == d.Sample() + 3 && SA0.Length == d.n0 && k < d.n <= SA.Length
    requires SA != s && SA != s12 && SA != SA12 && SA != SA0
    requires RanksSample(s[..], d, s12[..]) && forall i :: 0 <= i < SA0.Length ==> SA0[i] % 3 == 0
    requires p0 < d.n0 && t0 < d.Sample() && Merged(s[..], d, SA12[..d.Sample()], SA0[..], SA[..], p0, t0, k)
    modifies SA
    ensures (p, t) == (p0 + 1, t0) || (p, t) == (p0, t0 + 1)
    ensures Merged(s[..], d, SA12[..d.Sample()], SA0[..], SA[..], p, t, k + 1)
    ensures forall q :: d.n <= q < SA.Length ==> SA[q] == old(SA[q])
  {
    ghost var text, sa, z, out := s[..], SA12[..d.Sample()], SA0[..], SA[..];
    assert SA12[t0] == sa[t0] && SA0[p0] == z[p0];
    var i := Pos(d, SA12[t0]);
    var j := SA0[p0];
    HeadsDecide(text, d, sa, s12[..], t0, j);
    var first := MergeCompare(s, s12, d, SA12[t0], j);
    if first {
      PutSampled(text, d, sa, z, out, p0, t0, k);
      SA[k] := i;
      assert SA[..] == out[k := Pos(d, sa[t0])];
      p, t := p0, t0 + 1;
    } else {
      PutMultiple(text, d, sa, z, out, p0, t0, k);
      SA[k] := j;
      assert SA[..] == out[k := z[p0]];
      p, t := p0 + 1, t0;
    }
  }

  /** The merge of the sorted multiples of 3 with the sorted sample: whichever list runs out, the
      rest of the other one is copied. */
  method Merge(s: array<int>, s12: array<int>, SA12: array<int>, SA0: array<int>, SA: array<int>, d: Dims)
    requires d.n >= 2 && Padded(s[..], d.n)
    requires s12.Length == SA12.Length == d.Sample() + 3 && SA0.Length == d.n0 && d.n <= SA.Length
    requires SA != s && SA != s12 && SA != SA12 && SA != SA0
    requires SampleSorted(s[..], d, SA12[..d.Sample()]) && RanksSample(s[..], d, s12[..])
    requires Sorted(s[..], d.n, SA0[..]) && forall i :: 0 <= i < SA0.Length ==> SA0[i] % 3 == 0
    modifies SA
    ensures IsSuffixArray(s[..d.n], SA[..d.n])
    ensures forall k :: d.n <= k < SA.Length ==> SA[k] == old(SA[k])
  {
    ghost var text, sa, z := s[..], SA12[..d.Sample()], SA0[..];
    MergeStart(text, d, sa, z, SA[..]);
    var p, t, k := 0, d.n0 - d.n1, 0;
    while k < d.n
      invariant 0 <= p <= d.n0 && d.n0 - d.n1 <= t <= d.Sample() && 0 <= k
      invariant k < d.n ==> p < d.n0 && t < d.Sample()
      invariant Merged(text, d, sa, z, SA[..], p, t, if k < d.n then k else d.n)
      invariant forall q :: d.n <= q < SA.Length ==> SA[q] == old(SA[q])
    {
      p, t := TakeOne(s, s12, SA12, SA0, SA, d, p, t, k);
      if t == d.Sample() {
        AppendMultiples(SA0, SA, p, k + 1, text, d, sa);
        p, k := d.n0, d.n;
      } else if p == d.n0 {
        AppendSampled(SA12, SA, t, k + 1, text, d, z);
        t, k := d.Sample(), d.n;
      }
      k := k + 1;
    }
    assert SA[..][..d.n] == SA[..d.n];
    SortedIsSuffixArray(text, d.n, SA[..d.n]);
  }

  // ---------------------------------------------------------------------------
  // The sample
  // ---------------------------------------------------------------------------

  ghost function Counting(m: nat): (r: seq<int>)
    ensures |r| == m && forall i :: 0 <= i < m ==> r[i] == i + 1
  {
    seq(m, i => i + 1)
  }

  /** The places in the sorted sample become the ranks. */
  method StoreRanks(s12: array<int>, SA12: array<int>, m: nat, ghost sa: seq<int>)
    requires s12 != SA12 && m <= s12.Length && m <= SA12.Length
    requires sa == SA12[..m] && Permutation(sa)
    modifies s12
    ensures forall i :: 0 <= i < m ==> s12[sa[i]] == i + 1
    ensures forall k :: m <= k < s12.Length ==> s12[k] == old(s12[k])
  {
    ghost var t := s12[..];
    for i := 0 to m
      invariant s12[..] == t && forall k :: m <= k < |t| ==> t[k] == old(s12[k])
      invariant Placed(t, Counting(m), sa, i)
    {
      assert SA12[i] == sa[i];
      PlaceOne(t, Counting(m), sa, i);
      s12[SA12[i]] := i + 1;
      t := t[sa[i] := Counting(m)[i]];
    }
  }

  /** Names that are all different are ranks; the sample is sorted by inverting them. */
  method InvertNames(s12: array<int>, SA12: array<int>, m: nat, ghost t: seq<int>)
    requires s12 != SA12 && m <= s12.Length && m <= SA12.Length
    requires t == s12[..m] && (forall x :: 0 <= x < m ==> 1 <= t[x] <= m)
    requires forall x, y :: 0 <= x < y < m ==> t[x] != t[y]
    modifies SA12
    ensures forall x :: 0 <= x < m ==> SA12[t[x] - 1] == x
    ensures forall k :: m <= k < SA12.Length ==> SA12[k] == old(SA12[k])
  {
    for i := 0 to m
      invariant forall x :: 0 <= x < i ==> SA12[t[x] - 1] == x
      invariant forall k :: m <= k < SA12.Length ==> SA12[k] == old(SA12[k])
    {
      assert s12[i] == t[i];
      SA12[s12[i] - 1] := i;
    }
  }

  lemma NamesDiffer(d: Dims, a: seq<int>, t: seq<int>)
    requires AllSampled(d, a) && Distinct(a) && |a| == d.Sample() && Inverse(d, a, t)
    ensures forall x, y :: 0 <= x < y < |t| ==> t[x] != t[y]
  {
    NumbersPermutation(d, a);
    forall x, y | 0 <= x < y < |t| ensures t[x] != t[y] {
      var k := PlaceOf(NumbersOf(d, a), x);
      var l := PlaceOf(NumbersOf(d, a), y);
    }
  }

  /** The inverse of names that are all different sorts the sample. */
  lemma InvertedSorts(s: seq<int>, d: Dims, a: seq<int>, t: seq<int>, sa: seq<int>)
    requires Padded(s, d.n) && NamesTriples(s, d, t) && Inverse(d, a, t)
    requires |sa| == |t| && forall x :: 0 <= x < |t| ==> 1 <= t[x] <= |t|
    requires forall x :: 0 <= x < |t| ==> sa[t[x] - 1] == x
    ensures SampleSorted(s, d, sa) && forall k :: 0 <= k < |sa| ==> t[sa[k]] == k + 1
  {
    forall k | 0 <= k < |sa| ensures 0 <= sa[k] < |t| && t[sa[k]] == k + 1 {
      var x := NumberOf(d, a[k]);
      assert sa[t[x] - 1] == x;
    }
    SampleFromNames(s, d, t, sa);
  }

  /** The sample in the order of its suffixes, and their ranks. */
  ghost predicate SampleRanked(s: seq<int>, d: Dims, sa: seq<int>, rank: seq<int>)
    requires d.n <= |s|
  {
    && SampleSorted(s, d, sa) && d.Sample() < |rank| && rank[d.Sample()] == 0
    && forall i :: 0 <= i < |sa| ==> rank[sa[i]] == i + 1
  }

  /** Names are not yet unique: recurse, and store the ranks. */
  method SortByRecursion(s12: array<int>, SA12: array<int>, d: Dims, name: nat, ghost text: seq<int>)
    requires s12 != SA12 && Padded(text, d.n)
    requires s12.Length == SA12.Length == d.Sample() + 3 && 2 <= d.Sample() < d.n
    requires Padded(s12[..], d.Sample()) && forall x :: 0 <= x < d.Sample() ==> s12[x] <= name
    requires NamesTriples(text, d, s12[..d.Sample()])
    modifies s12, SA12
    ensures SampleRanked(text, d, SA12[..d.Sample()], s12[..])
    decreases d.n, 0
  {
    var m := d.Sample();
    ghost var t := s12[..m];
    BuildSuffixArray(s12, SA12, m, name);
    ghost var sa := SA12[..m];
    SampleFromRecursion(text, d, t, sa);
    StoreRanks(s12, SA12, m, sa);
  }

  /** Names are unique: they are the ranks. */
  method SortByNames(s12: array<int>, SA12: array<int>, d: Dims, ghost text: seq<int>, ghost a: seq<int>)
    requires s12 != SA12 && Padded(text, d.n)
    requires s12.Length == SA12.Length == d.Sample() + 3 && s12[d.Sample()] == 0
    requires AllSampled(d, a) && Distinct(a) && |a| == d.Sample()
    requires NamesTriples(text, d, s12[..d.Sample()]) && Inverse(d, a, s12[..d.Sample()])
    requires forall x :: 0 <= x < d.Sample() ==> 1 <= s12[..d.Sample()][x] <= d.Sample()
    modifies SA12
    ensures SampleRanked(text, d, SA12[..d.Sample()], s12[..])
  {
    var m := d.Sample();
    ghost var t := s12[..m];
    NamesDiffer(d, a, t);
    InvertNames(s12, SA12, m, t);
    ghost var sa := SA12[..m];
    InvertedSorts(text, d, a, t, sa);
  }

  /** The names of the sampled triples, under their numbers in s12. */
  method NameSample(s: array<int>, s12: array<int>, SA12: array<int>, d: Dims, bound: nat)
    returns (name: nat, ghost a: seq<int>)
    requires s != s12 && s != SA12 && s12 != SA12 && d.n >= 2
    requires Padded(s[..], d.n) && forall i :: 0 <= i < d.n ==> s[i] <= bound
    requires s12.Length == SA12.Length == d.Sample() + 3
    modifies s12, SA12
    ensures AllSampled(d, a) && Distinct(a) && |a| == d.Sample()
    ensures NamesTriples(s[..], d, s12[..d.Sample()])
    ensures 1 <= name <= d.Sample()
    ensures forall x :: 0 <= x < d.Sample() ==> 1 <= s12[..d.Sample()][x] <= name
    ensures name == d.Sample() ==> Inverse(d, a, s12[..d.Sample()])
    ensures forall k :: d.Sample() <= k < s12.Length ==> s12[k] == old(s12[k])
  {
    FillSample(s12, d);
    SortTriples(s, s12, SA12, d, bound);
    a := SA12[..d.Sample()];
    SampleListed(s[..], d, a);
    name := NameTriples(s, s12, SA12, d, a);
    NamingDone(s[..], d, a, s12[..], name);
    assert s12[..][..d.Sample()] == s12[..d.Sample()];
  }

  /** suffixArray: the start positions of the suffixes of s[0..n-1], in lexicographic order. */
  method BuildSuffixArray(s: array<int>, SA: array<int>, n: nat, bound: nat)
    requires s != SA && n >= 2 && n <= SA.Length
    requires Padded(s[..], n) && forall i :: 0 <= i < n ==> s[i] <= bound
    modifies SA
    ensures IsSuffixArray(s[..n], SA[..n])
    ensures forall k :: n <= k < SA.Length ==> SA[k] == old(SA[k])
    decreases n, 1
  {
    var d := DimsOf(n);
    var m := d.n0 + d.n2;
    var s12 := new int[m + 3](_ => 0);
    var SA12 := new int[m + 3](_ => 0);
    var SA0 := new int[d.n0];
    ghost var text := s[..];
    var name;
    ghost var a;
    name, a := NameSample(s, s12, SA12, d, bound);
    if name < m {
      NamesPadded(s12[..], m, name);
      SortByRecursion(s12, SA12, d, name, text);
    } else {
      SortByNames(s12, SA12, d, text, a);
    }
    SortMultiples(s, SA12, SA0, d, bound);
    PlacesRank(text, d, SA12[..m], s12[..]);
    Merge(s, s12, SA12, SA0, SA, d);
  }

  lemma NamesPadded(t: seq<int>, m: nat, name: nat)
    requires |t| == m + 3 && t[m] == 0 && t[m + 1] == 0 && t[m + 2] == 0
    requires forall x :: 0 <= x < m ==> 1 <= t[..m][x] <= name
    ensures Padded(t, m) && forall x :: 0 <= x < m ==> t[x] <= name
  {
    forall x | 0 <= x < m ensures 1 <= t[x] <= name {
      assert t[x] == t[..m][x];
    }
  }

  lemma SampleListed(s: seq<int>, d: Dims, a: seq<int>)
    requires Padded(s, d.n) && AllSampled(d, a) && Distinct(a) && |a| == d.Sample()
    ensures ListsSample(s, d, a) && forall k :: 0 <= k < |a| ==> s[a[k]] >= 0
  {
    forall k | 0 <= k < |a| ensures 0 <= a[k] <= d.n && a[k] + 2 < |s| {
      SampledFits(s, d, a[k]);
    }
  }
}
