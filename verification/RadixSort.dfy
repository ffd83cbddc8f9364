/** The stable counting sort under the suffix-array construction. */
module RadixSort {
  import opened Permutations

  // ---------------------------------------------------------------------------
  // The place of an element in the stable order
  // ---------------------------------------------------------------------------

  function CountEq(keys: seq<int>, v: int): nat {
    if keys == [] then 0
    else CountEq(keys[..|keys| - 1], v) + if keys[|keys| - 1] == v then 1 else 0
  }

  function CountLess(keys: seq<int>, v: int): nat {
    if keys == [] then 0
    else CountLess(keys[..|keys| - 1], v) + if keys[|keys| - 1] < v then 1 else 0
  }

  /** How many elements come before element `i`: those with smaller keys, and earlier ones with the same key. */
  function Rank(keys: seq<int>, i: nat): nat
    requires i < |keys|
  {
    CountLess(keys, keys[i]) + CountEq(keys[..i], keys[i])
  }

  /** `b` is `a` in the stable order of the keys. */
  ghost predicate StablySorted(a: seq<int>, b: seq<int>, keys: seq<int>) {
    && |a| == |b| == |keys|
    && forall i :: 0 <= i < |a| ==> Rank(keys, i) < |b| && b[Rank(keys, i)] == a[i]
  }

  lemma {:induction false} CountSplit(keys: seq<int>, v: int)
    ensures CountLess(keys, v + 1) == CountLess(keys, v) + CountEq(keys, v)
    ensures CountLess(keys, v) + CountEq(keys, v) <= |keys|
  {
    if keys != [] {
      CountSplit(keys[..|keys| - 1], v);
    }
  }

  lemma {:induction false} CountLessMono(keys: seq<int>, v: int, w: int)
    requires v <= w
    ensures CountLess(keys, v) <= CountLess(keys, w)
  {
    if keys != [] {
      CountLessMono(keys[..|keys| - 1], v, w);
    }
  }

  lemma {:induction false} CountEqMono(keys: seq<int>, v: int, i: nat, j: nat)
    requires i <= j <= |keys|
    ensures CountEq(keys[..i], v) <= CountEq(keys[..j], v)
    decreases j
  {
    if i < j {
      CountEqMono(keys, v, i, j - 1);
      assert keys[..j][..j - 1] == keys[..j - 1];
    }
  }

  lemma CountEqNext(keys: seq<int>, i: nat, v: int)
    requires i < |keys|
    ensures CountEq(keys[..i + 1], v) == CountEq(keys[..i], v) + if keys[i] == v then 1 else 0
  {
    assert keys[..i + 1][..i] == keys[..i];
  }

  /** Key first, position second. */
  predicate Before(keys: seq<int>, i: nat, j: nat)
    requires i < |keys| && j < |keys|
  {
    keys[i] < keys[j] || (keys[i] == keys[j] && i < j)
  }

  lemma RankMono(keys: seq<int>, i: nat, j: nat)
    requires i < |keys| && j < |keys| && Before(keys, i, j)
    ensures Rank(keys, i) < Rank(keys, j)
  {
    var v := keys[i];
    CountEqNext(keys, i, v);
    if v == keys[j] {
      CountEqMono(keys, v, i + 1, j);
    } else {
      CountEqMono(keys, v, i + 1, |keys|);
      assert keys[..|keys|] == keys;
      CountSplit(keys, v);
      CountLessMono(keys, v + 1, keys[j]);
    }
  }

  lemma RankBound(keys: seq<int>, i: nat)
    requires i < |keys|
    ensures Rank(keys, i) < |keys|
  {
    CountEqNext(keys, i, keys[i]);
    CountEqMono(keys, keys[i], i + 1, |keys|);
    assert keys[..|keys|] == keys;
    CountSplit(keys, keys[i]);
  }

  ghost function Ranks(keys: seq<int>): seq<int> {
    seq(|keys|, i requires 0 <= i < |keys| => Rank(keys, i))
  }

  lemma RanksPermutation(keys: seq<int>)
    ensures Permutation(Ranks(keys))
  {
    forall i | 0 <= i < |keys| ensures Rank(keys, i) < |keys| { RankBound(keys, i); }
    forall i, j | 0 <= i < j < |keys| ensures Rank(keys, i) != Rank(keys, j) {
      if Before(keys, i, j) { RankMono(keys, i, j); } else { RankMono(keys, j, i); }
    }
  }

  /** Where the element at place `p` of the sorted sequence comes from. */
  lemma SourceOf(a: seq<int>, b: seq<int>, keys: seq<int>, p: nat) returns (i: nat)
    requires StablySorted(a, b, keys) && p < |b|
    ensures i < |a| && Rank(keys, i) == p && b[p] == a[i]
  {
    RanksPermutation(keys);
    i := PlaceOf(Ranks(keys), p);
  }

  /** A stable sort of a sequence ordered by `r` is ordered by key first and `r` second. */
  lemma StableOrder(a: seq<int>, b: seq<int>, keys: seq<int>, key: int -> int, r: (int, int) -> bool)
    requires StablySorted(a, b, keys)
    requires forall i :: 0 <= i < |a| ==> keys[i] == key(a[i])
    requires forall i, j :: 0 <= i < j < |a| ==> r(a[i], a[j])
    ensures forall p, q :: 0 <= p < q < |b| ==> key(b[p]) < key(b[q]) || (key(b[p]) == key(b[q]) && r(b[p], b[q]))
  {
    forall p, q | 0 <= p < q < |b|
      ensures key(b[p]) < key(b[q]) || (key(b[p]) == key(b[q]) && r(b[p], b[q]))
    {
      var i := SourceOf(a, b, keys, p);
      var j := SourceOf(a, b, keys, q);
      if !Before(keys, i, j) && i != j {
        RankMono(keys, j, i);
      }
    }
  }

  /** Distinct elements stay distinct, and whatever holds of all elements still does. */
  lemma StableContents(a: seq<int>, b: seq<int>, keys: seq<int>, p: int -> bool)
    requires StablySorted(a, b, keys)
    requires forall i :: 0 <= i < |a| ==> p(a[i])
    ensures forall i :: 0 <= i < |b| ==> p(b[i])
    ensures Distinct(a) ==> Distinct(b)
  {
    forall q | 0 <= q < |b| ensures p(b[q]) {
      var i := SourceOf(a, b, keys, q);
    }
    if Distinct(a) {
      forall q, q' | 0 <= q < q' < |b| ensures b[q] != b[q'] {
        var i := SourceOf(a, b, keys, q);
        var j := SourceOf(a, b, keys, q');
      }
    }
  }

  // ---------------------------------------------------------------------------
  // radixPass
  // ---------------------------------------------------------------------------

  /** The keys of the elements of `a` in the array that starts `off` places into `r`. */
  function KeysOf(a: seq<int>, r: seq<int>, off: nat): (keys: seq<int>)
    requires forall i :: 0 <= i < |a| ==> 0 <= a[i] && a[i] + off < |r|
    ensures |keys| == |a|
    ensures forall i :: 0 <= i < |a| ==> keys[i] == r[a[i] + off]
  {
    seq(|a|, i requires 0 <= i < |a| => r[a[i] + off])
  }

  lemma CountEqStep(keys: seq<int>, i: nat)
    requires i < |keys|
    ensures forall v :: CountEq(keys[..i + 1], v) == CountEq(keys[..i], v) + if keys[i] == v then 1 else 0
  {
    forall v ensures CountEq(keys[..i + 1], v) == CountEq(keys[..i], v) + if keys[i] == v then 1 else 0 {
      CountEqNext(keys, i, v);
    }
  }

  /** The counting loops of radixPass: where the elements of each key begin. */
  method BucketStarts(a: array<int>, r: array<int>, off: nat, n: nat, bound: nat) returns (c: array<int>)
    requires n <= a.Length
    requires forall i :: 0 <= i < n ==> 0 <= a[i] && a[i] + off < r.Length && 0 <= r[a[i] + off] <= bound
    ensures fresh(c) && c.Length == bound + 1
    ensures forall v :: 0 <= v <= bound ==> c[v] == CountLess(KeysOf(a[..n], r[..], off), v)
  {
    c := new int[bound + 1];
    ghost var keys := KeysOf(a[..n], r[..], off);
    for i := 0 to bound + 1
      invariant forall v :: 0 <= v < i ==> c[v] == 0
    {
      c[i] := 0;
    }
    assert keys[..0] == [];
    for i := 0 to n
      invariant forall v :: 0 <= v <= bound ==> c[v] == CountEq(keys[..i], v)
    {
      CountEqStep(keys, i);
      assert keys[i] == r[a[i] + off];
      c[r[a[i] + off]] := c[r[a[i] + off]] + 1;
    }
    assert keys[..n] == keys;
    NothingBelowZero(keys);
    var sum := 0;
    for i := 0 to bound + 1
      invariant sum == CountLess(keys, i)
      invariant forall v :: 0 <= v < i ==> c[v] == CountLess(keys, v)
      invariant forall v :: i <= v <= bound ==> c[v] == CountEq(keys, v)
    {
      CountSplit(keys, i);
      var t := c[i];
      c[i] := sum;
      sum := sum + t;
    }
  }

  /** The first `i` elements are at their places. */
  ghost predicate Placed(b: seq<int>, items: seq<int>, place: seq<int>, i: nat)
    requires i <= |items| == |place| && Below(place, |b|)
  {
    forall t :: 0 <= t < i ==> b[place[t]] == items[t]
  }

  lemma PlaceOne(b: seq<int>, items: seq<int>, place: seq<int>, i: nat)
    requires i < |items| == |place| && Below(place, |b|) && Distinct(place)
    requires Placed(b, items, place, i)
    ensures Placed(b[place[i] := items[i]], items, place, i + 1)
  {
  }

  lemma AllPlaced(b: seq<int>, items: seq<int>, keys: seq<int>)
    requires |items| == |keys| <= |b| && Below(Ranks(keys), |b|)
    requires Placed(b, items, Ranks(keys), |items|)
    ensures StablySorted(items, b[..|items|], keys)
  {
    forall i | 0 <= i < |items| ensures Rank(keys, i) < |items| && b[Rank(keys, i)] == items[i] {
      RankBound(keys, i);
      assert Ranks(keys)[i] == Rank(keys, i);
    }
  }

  /** Where the next element of each key goes once `i` elements are placed. */
  ghost function Cursors(keys: seq<int>, i: nat, bound: nat): (s: seq<int>)
    requires i <= |keys|
    ensures |s| == bound + 1
  {
    seq(bound + 1, v requires 0 <= v <= bound => CountLess(keys, v) + CountEq(keys[..i], v))
  }

  lemma CursorStep(keys: seq<int>, i: nat, bound: nat)
    requires i < |keys| && 0 <= keys[i] <= bound
    ensures Cursors(keys, i, bound)[keys[i]] == Ranks(keys)[i]
    ensures Cursors(keys, i + 1, bound) == Cursors(keys, i, bound)[keys[i] := Ranks(keys)[i] + 1]
  {
    CountEqStep(keys, i);
  }

  /** The last loop of radixPass: every element goes where the cursor of its key points. */
  method Distribute(a: array<int>, b: array<int>, r: array<int>, off: nat, n: nat, c: array<int>, ghost keys: seq<int>)
    requires a != b && b != r && c != a && c != b && c != r
    requires n <= a.Length && n <= b.Length && |keys| == n && c.Length > 0
    requires forall i :: 0 <= i < n ==> 0 <= a[i] && a[i] + off < r.Length && 0 <= r[a[i] + off] < c.Length
    requires forall i :: 0 <= i < n ==> keys[i] == r[a[i] + off]
    requires c[..] == Cursors(keys, 0, c.Length - 1)
    modifies b, c
    ensures Below(Ranks(keys), b.Length) && Placed(b[..], a[..n], Ranks(keys), n)
    ensures forall k :: n <= k < b.Length ==> b[k] == old(b[k])
  {
    ghost var items, place := a[..n], Ranks(keys);
    RanksPermutation(keys);
    for i := 0 to n
      invariant forall k :: n <= k < b.Length ==> b[k] == old(b[k])
      invariant c[..] == Cursors(keys, i, c.Length - 1)
      invariant Placed(b[..], items, place, i)
    {
      CursorStep(keys, i, c.Length - 1);
      PlaceOne(b[..], items, place, i);
      var v := r[a[i] + off];
      ghost var b0, c0 := b[..], c[..];
      assert c[v] == c0[v] == place[i];
      b[c[v]] := a[i];
      c[v] := c[v] + 1;
      assert b[..] == b0[place[i] := items[i]];
      assert c[..] == c0[v := place[i] + 1];
    }
  }

  /** radixPass: stably sort a[0..n-1] to b[0..n-1] by the keys in 0..bound from r + off. */
  method RadixPass(a: array<int>, b: array<int>, r: array<int>, off: nat, n: nat, bound: nat)
    requires a != b && b != r
    requires n <= a.Length && n <= b.Length
    requires forall i :: 0 <= i < n ==> 0 <= a[i] && a[i] + off < r.Length && 0 <= r[a[i] + off] <= bound
    modifies b
    ensures StablySorted(a[..n], b[..n], KeysOf(a[..n], r[..], off))
    ensures forall k :: n <= k < b.Length ==> b[k] == old(b[k])
  {
    ghost var keys := KeysOf(a[..n], r[..], off);
    var c := BucketStarts(a, r, off, n, bound);
    assert c[..] == Cursors(keys, 0, bound);
    Distribute(a, b, r, off, n, c, keys);
    AllPlaced(b[..], a[..n], keys);
    assert b[..][..n] == b[..n];
  }

  lemma {:induction false} NothingBelowZero(keys: seq<int>)
    requires forall i :: 0 <= i < |keys| ==> keys[i] >= 0
    ensures CountLess(keys, 0) == 0
  {
    if keys != [] {
      NothingBelowZero(keys[..|keys| - 1]);
    }
  }
}
