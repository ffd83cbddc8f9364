/**
 What can be done to the order of things in a row when the ends of some stretches can be taken across them:
 from two crossings come turns of three, from turns that share two places those of the others, and from turns
 of neighbours every order up to an exchange of the last two.
 */
module TileTurns {
  import opened DivMod
  import opened Inversions

  /** Which order can be brought into which. */
  type Relation = R: iset<(seq<int>, seq<int>)> | Preorder(R)
    ghost witness iset p: (seq<int>, seq<int>) | true

  ghost predicate Preorder(R: iset<(seq<int>, seq<int>)>) {
    && (forall s: seq<int> :: (s, s) in R)
    && forall s: seq<int>, u: seq<int>, w: seq<int> :: (s, u) in R && (u, w) in R ==> (s, w) in R
  }

  ghost predicate Reaches(R: Relation, s: seq<int>, u: seq<int>) {
    (s, u) in R
  }

  lemma ReachesSelf(R: Relation, s: seq<int>)
    ensures Reaches(R, s, s)
  {
  }

  lemma ReachesOn(R: Relation, s: seq<int>, u: seq<int>, w: seq<int>)
    requires Reaches(R, s, u) && Reaches(R, u, w)
    ensures Reaches(R, s, w)
  {
  }

  /** The tile at `e` taken forward to `b`. */
  function Forward(s: seq<int>, b: nat, e: nat): (u: seq<int>)
    requires b <= e < |s|
    ensures |u| == |s|
  {
    seq(|s|, i requires 0 <= i < |s| => if i == b then s[e] else if b < i <= e then s[i - 1] else s[i])
  }

  /** The tile at `b` taken back to `e`. */
  function Backward(s: seq<int>, b: nat, e: nat): (u: seq<int>)
    requires b <= e < |s|
    ensures |u| == |s|
  {
    seq(|s|, i requires 0 <= i < |s| => if i == e then s[b] else if b <= i < e then s[i + 1] else s[i])
  }

  // ---------------------------------------------------------------------------
  // Turning three tiles
  // ---------------------------------------------------------------------------

  predicate Three(len: nat, x: nat, y: nat, z: nat) {
    x < len && y < len && z < len && x != y && y != z && x != z
  }

  /** Each of three places gets the tile of the next. */
  function Turn(s: seq<int>, x: nat, y: nat, z: nat): (u: seq<int>)
    requires Three(|s|, x, y, z)
    ensures |u| == |s|
  {
    seq(|s|, i requires 0 <= i < |s| =>
      if i == x then s[y] else if i == y then s[z] else if i == z then s[x] else s[i])
  }

  /** Whatever the order of the tiles, the three can be turned, this way. */
  ghost predicate Turns(R: Relation, len: nat, x: nat, y: nat, z: nat)
    requires Three(len, x, y, z)
  {
    forall s: seq<int> {:trigger Reaches(R, s, Turn(s, x, y, z))} :: |s| == len ==> Reaches(R, s, Turn(s, x, y, z))
  }

  lemma TurnsUse(R: Relation, len: nat, x: nat, y: nat, z: nat, s: seq<int>)
    requires Three(len, x, y, z) && Turns(R, len, x, y, z) && |s| == len
    ensures Reaches(R, s, Turn(s, x, y, z))
  {
  }

  /** The three can be turned both ways. */
  ghost predicate Free(R: Relation, len: nat, x: nat, y: nat, z: nat)
  {
    Three(len, x, y, z) && Turns(R, len, x, y, z) && Turns(R, len, x, z, y)
  }

  lemma TurnTwice(s: seq<int>, x: nat, y: nat, z: nat)
    requires Three(|s|, x, y, z)
    ensures Turn(Turn(s, x, y, z), x, y, z) == Turn(s, x, z, y)
  {
  }

  lemma TurnFromNext(s: seq<int>, x: nat, y: nat, z: nat)
    requires Three(|s|, x, y, z)
    ensures Turn(s, y, z, x) == Turn(s, x, y, z)
  {
  }

  lemma TurnShared(s: seq<int>, a: nat, b: nat, c: nat, d: nat)
    requires Three(|s|, a, b, c) && Three(|s|, a, b, d) && c != d
    ensures Turn(Turn(Turn(s, a, b, c), a, b, d), a, c, b) == Turn(s, b, c, d)
  {
  }

  /** Turning twice is turning the other way. */
  lemma TurnsBothWays(R: Relation, len: nat, x: nat, y: nat, z: nat)
    requires Three(len, x, y, z) && Turns(R, len, x, y, z)
    ensures Free(R, len, x, y, z)
  {
    forall s: seq<int> | |s| == len ensures Reaches(R, s, Turn(s, x, z, y)) {
      var u := Turn(s, x, y, z);
      TurnsUse(R, len, x, y, z, s);
      TurnsUse(R, len, x, y, z, u);
      TurnTwice(s, x, y, z);
      ReachesOn(R, s, u, Turn(u, x, y, z));
    }
  }

  /** It does not matter with which of the three the turn starts, or in which direction it goes. */
  lemma FreeNext(R: Relation, len: nat, x: nat, y: nat, z: nat)
    requires Free(R, len, x, y, z)
    ensures Free(R, len, y, z, x) && Free(R, len, x, z, y)
  {
    forall s: seq<int> | |s| == len
      ensures Reaches(R, s, Turn(s, y, z, x)) && Reaches(R, s, Turn(s, y, x, z))
    {
      TurnsUse(R, len, x, y, z, s);
      TurnsUse(R, len, x, z, y, s);
      TurnFromNext(s, x, y, z);
      TurnFromNext(s, z, y, x);
      TurnFromNext(s, y, x, z);
    }
  }

  lemma FreeAnyOrder(R: Relation, len: nat, x: nat, y: nat, z: nat)
    requires Free(R, len, x, y, z)
    ensures Free(R, len, x, z, y) && Free(R, len, y, z, x) && Free(R, len, y, x, z)
    ensures Free(R, len, z, x, y) && Free(R, len, z, y, x)
  {
    FreeNext(R, len, x, y, z);
    FreeNext(R, len, y, z, x);
    FreeNext(R, len, z, x, y);
  }

  /** Two turns that share two places give the turns of the others with either. */
  lemma SharePair(R: Relation, len: nat, a: nat, b: nat, c: nat, d: nat)
    requires Free(R, len, a, b, c) && Free(R, len, a, b, d) && c != d
    ensures Free(R, len, b, c, d)
  {
    forall s: seq<int> | |s| == len ensures Reaches(R, s, Turn(s, b, c, d)) {
      var u := Turn(s, a, b, c);
      var w := Turn(u, a, b, d);
      TurnsUse(R, len, a, b, c, s);
      TurnsUse(R, len, a, b, d, u);
      TurnsUse(R, len, a, c, b, w);
      TurnShared(s, a, b, c, d);
      ReachesOn(R, s, u, w);
      ReachesOn(R, s, w, Turn(w, a, c, b));
    }
    TurnsBothWays(R, len, b, c, d);
  }

  lemma ShareBoth(R: Relation, len: nat, a: nat, b: nat, c: nat, d: nat)
    requires Free(R, len, a, b, c) && Free(R, len, a, b, d) && c != d
    ensures Free(R, len, b, c, d) && Free(R, len, a, c, d)
  {
    SharePair(R, len, a, b, c, d);
    FreeAnyOrder(R, len, a, b, c);
    FreeAnyOrder(R, len, a, b, d);
    SharePair(R, len, b, a, c, d);
  }

  // ---------------------------------------------------------------------------
  // A window of the snake around a bend
  // ---------------------------------------------------------------------------

  /** Any three places from `lo` to `hi` can be turned. */
  ghost predicate AllFree(R: Relation, len: nat, lo: nat, hi: nat)
  {
    forall x, y, z :: lo <= x <= hi && lo <= y <= hi && lo <= z <= hi && Three(len, x, y, z) ==>
      Free(R, len, x, y, z)
  }

  /** If one pair of such places can be turned with `p`, then each can. */
  lemma AddPlace(R: Relation, len: nat, lo: nat, hi: nat, p: nat, u: nat, w: nat, x: nat, y: nat)
    requires hi < len && AllFree(R, len, lo, hi) && (p < lo || hi < p)
    requires lo <= u <= hi && lo <= w <= hi && Free(R, len, u, w, p)
    requires lo <= x <= hi && lo <= y <= hi && x != y
    ensures Free(R, len, x, y, p)
  {
    AddPlaceToOne(R, len, lo, hi, p, u, w, x);
    AddPlaceToOne(R, len, lo, hi, p, u, w, y);
    if x != u && y != u {
      ShareBoth(R, len, u, x, y, p);
    } else {
      FreeAnyOrder(R, len, u, if x == u then y else x, p);
    }
  }

  lemma AddPlaceToOne(R: Relation, len: nat, lo: nat, hi: nat, p: nat, u: nat, w: nat, x: nat)
    requires hi < len && AllFree(R, len, lo, hi) && (p < lo || hi < p)
    requires lo <= u <= hi && lo <= w <= hi && Free(R, len, u, w, p) && lo <= x <= hi
    ensures x != u ==> Free(R, len, u, x, p)
  {
    if x != u && x != w {
      assert Free(R, len, u, w, x);
      ShareBoth(R, len, u, w, x, p);
    }
  }

  /** The stretch of `d` places on either side of the end of row i. */
  predicate Bend(n: nat, len: nat, i: nat, d: nat, c: nat) {
    n > 0 && c == n * i + n - 1 && 1 <= d < n && c + d < len
  }

  /** The tile at one end of a stretch can be taken to the other, both ways. */
  ghost predicate Crossed(R: Relation, len: nat, b: nat, e: nat)
    requires b <= e < len
  {
    forall s: seq<int> {:trigger Reaches(R, s, Forward(s, b, e))} {:trigger Reaches(R, s, Backward(s, b, e))} ::
      |s| == len ==> Reaches(R, s, Forward(s, b, e)) && Reaches(R, s, Backward(s, b, e))
  }

  /** So it is with every stretch around a bend. */
  ghost predicate BendsCrossed(R: Relation, n: nat, len: nat) {
    forall i: nat, d: nat, c: nat :: Bend(n, len, i, d, c) ==> d <= c && Crossed(R, len, c - d, c + d)
  }

  /** A step over the whole stretch, and one back over the stretch one shorter on both sides. */
  lemma OuterTurns(R: Relation, len: nat, b: nat, b': nat, e': nat, e: nat)
    requires b' == b + 1 && e == e' + 1 && b' + 2 <= e' && e < len
    requires Crossed(R, len, b, e) && Crossed(R, len, b', e')
    ensures Free(R, len, b, e, e') && Free(R, len, b, b', e)
  {
    forall s: seq<int> | |s| == len ensures Reaches(R, s, Turn(s, b, e, e')) && Reaches(R, s, Turn(s, b, b', e)) {
      OuterTurnsAt(R, len, b, b', e', e, s);
    }
    TurnsBothWays(R, len, b, e, e');
    TurnsBothWays(R, len, b, b', e);
  }

  lemma CrossedUse(R: Relation, len: nat, b: nat, e: nat, s: seq<int>)
    requires b <= e < len && Crossed(R, len, b, e) && |s| == len
    ensures Reaches(R, s, Forward(s, b, e)) && Reaches(R, s, Backward(s, b, e))
  {
  }

  lemma OuterTurnsAt(R: Relation, len: nat, b: nat, b': nat, e': nat, e: nat, s: seq<int>)
    requires b' == b + 1 && e == e' + 1 && b' + 2 <= e' && e < len
    requires Crossed(R, len, b, e) && Crossed(R, len, b', e') && |s| == len
    ensures Reaches(R, s, Turn(s, b, e, e')) && Reaches(R, s, Turn(s, b, b', e))
  {
    var f, g := Forward(s, b, e), Backward(s, b, e);
    CrossedUse(R, len, b, e, s);
    CrossedUse(R, len, b', e', f);
    CrossedUse(R, len, b', e', g);
    OuterThenInner(s, b, e);
    ReachesOn(R, s, f, Backward(f, b', e'));
    ReachesOn(R, s, g, Forward(g, b', e'));
  }

  lemma OuterThenInner(s: seq<int>, b: nat, e: nat)
    requires b + 4 <= e < |s|
    ensures Backward(Forward(s, b, e), b + 1, e - 1) == Turn(s, b, e, e - 1)
    ensures Forward(Backward(s, b, e), b + 1, e - 1) == Turn(s, b, b + 1, e)
  {
  }

  lemma ForwardByTwo(s: seq<int>, b: nat)
    requires b + 2 < |s|
    ensures Forward(s, b, b + 2) == Turn(s, b, b + 2, b + 1)
  {
  }

  lemma InnerTurn(R: Relation, len: nat, b: nat)
    requires b + 2 < len && Crossed(R, len, b, b + 2)
    ensures Free(R, len, b, b + 2, b + 1)
  {
    forall s: seq<int> | |s| == len ensures Reaches(R, s, Turn(s, b, b + 2, b + 1)) {
      ForwardByTwo(s, b);
    }
    TurnsBothWays(R, len, b, b + 2, b + 1);
  }

  /** Around a bend any three places can be turned. */
  lemma {:induction false} WindowFree(R: Relation, n: nat, len: nat, i: nat, d: nat, c: nat)
    requires BendsCrossed(R, n, len) && Bend(n, len, i, d, c)
    ensures d <= c && AllFree(R, len, c - d, c + d)
    decreases d
  {
    if d == 1 {
      InnerTurn(R, len, c - 1);
      FreeAnyOrder(R, len, c - 1, c + 1, c);
    } else {
      assert Bend(n, len, i, d - 1, c);
      WindowFree(R, n, len, i, d - 1, c);
      OuterTurns(R, len, c - d, c - d + 1, c + d - 1, c + d);
      WindowGrows(R, len, c - d + 1, c + d - 1);
    }
  }

  /** Two turns that reach beyond both ends of a stretch widen it. */
  lemma WindowGrows(R: Relation, len: nat, lo: nat, hi: nat)
    requires 0 < lo && lo + 2 <= hi && hi + 1 < len && AllFree(R, len, lo, hi)
    requires Free(R, len, lo - 1, hi + 1, hi) && Free(R, len, lo - 1, lo, hi + 1)
    ensures AllFree(R, len, lo - 1, hi + 1)
  {
    var p, q := lo - 1, hi + 1;
    FreeAnyOrder(R, len, p, lo, q);
    ShareBoth(R, len, p, q, hi, lo);
    FreeAnyOrder(R, len, p, hi, lo);
    FreeAnyOrder(R, len, q, hi, lo);
    forall x, y | lo <= x <= hi && lo <= y <= hi && x != y ensures Free(R, len, x, y, p) && Free(R, len, x, y, q) {
      AddPlace(R, len, lo, hi, p, hi, lo, x, y);
      AddPlace(R, len, lo, hi, q, hi, lo, x, y);
    }
    forall x | lo <= x <= hi ensures Free(R, len, x, p, q) {
      var y := if x == lo then hi else lo;
      ShareBoth(R, len, x, y, p, q);
    }
    forall x, y, z | p <= x <= q && p <= y <= q && p <= z <= q && Three(len, x, y, z)
      ensures Free(R, len, x, y, z)
    {
      WidenedFree(R, len, lo, hi, p, q, x, y, z);
    }
  }

  lemma WidenedFree(R: Relation, len: nat, lo: nat, hi: nat, p: nat, q: nat, x: nat, y: nat, z: nat)
    requires 0 < lo && hi + 1 < len && AllFree(R, len, lo, hi)
    requires p == lo - 1 && q == hi + 1
    requires forall x, y :: lo <= x <= hi && lo <= y <= hi && x != y ==> Free(R, len, x, y, p) && Free(R, len, x, y, q)
    requires forall x :: lo <= x <= hi ==> Free(R, len, x, p, q)
    requires p <= x <= q && p <= y <= q && p <= z <= q && Three(len, x, y, z)
    ensures Free(R, len, x, y, z)
  {
    if x == p || x == q {
      if y == p || y == q {
        FreeAnyOrder(R, len, z, p, q);
      } else if z == p || z == q {
        FreeAnyOrder(R, len, y, p, q);
      } else {
        FreeAnyOrder(R, len, y, z, x);
      }
    } else if y == p || y == q {
      if z == p || z == q {
        FreeAnyOrder(R, len, x, p, q);
      } else {
        FreeAnyOrder(R, len, x, z, y);
      }
    }
  }

  lemma RowOf(n: nat, len: nat, k: nat) returns (i: nat, c: nat)
    requires n >= 2 && len + 1 == n * n && k + 2 < len
    ensures Bend(n, len, i, n - 1, c) && c <= k + (n - 1) && k + 2 <= c + (n - 1)
  {
    i := if k / n < n - 1 then k / n else n - 2;
    c := n * i + n - 1;
    assert k == n * (k / n) + k % n;
    ProductMonotone(n, i + 2, n);
    assert n * (i + 2) == n * i + 2 * n;
    ProductMonotone(n, i, k / n);
  }

  lemma AllFreeUse(R: Relation, len: nat, lo: nat, hi: nat, k: nat)
    requires AllFree(R, len, lo, hi) && lo <= k && k + 2 <= hi && k + 2 < len
    ensures Free(R, len, k, k + 1, k + 2)
  {
  }

  /** Any three successive places can be turned. */
  lemma NeighboursFree(R: Relation, n: nat, len: nat, k: nat)
    requires BendsCrossed(R, n, len) && n >= 2 && len + 1 == n * n && k + 2 < len
    ensures Free(R, len, k, k + 1, k + 2)
  {
    var i, c := RowOf(n, len, k);
    WindowFree(R, n, len, i, n - 1, c);
    AllFreeUse(R, len, c - (n - 1), c + (n - 1), k);
  }

  // ---------------------------------------------------------------------------
  // Sorting
  // ---------------------------------------------------------------------------

  lemma UpdateTiles(s: seq<int>, i: nat, v: int)
    requires i < |s|
    ensures multiset(s[i := v]) + multiset{s[i]} == multiset(s) + multiset{v}
  {
  }

  lemma TurnKeepsTiles(s: seq<int>, x: nat, y: nat, z: nat)
    requires Three(|s|, x, y, z)
    ensures multiset(Turn(s, x, y, z)) == multiset(s)
  {
    var a := s[x := s[y]];
    var b := a[y := s[z]];
    UpdateTiles(s, x, s[y]);
    UpdateTiles(a, y, s[z]);
    UpdateTiles(b, z, s[x]);
    assert Turn(s, x, y, z) == b[z := s[x]];
    SumsCancel(multiset(s), multiset(a), multiset(b), multiset(b[z := s[x]]), s[x], s[y], s[z]);
  }

  lemma SumsCancel(s: multiset<int>, a: multiset<int>, b: multiset<int>, c: multiset<int>, x: int, y: int, z: int)
    requires a + multiset{x} == s + multiset{y} && b + multiset{y} == a + multiset{z}
    requires c + multiset{z} == b + multiset{x}
    ensures c == s
  {
    forall v ensures c[v] == s[v] {
      assert (a + multiset{x})[v] == (s + multiset{y})[v];
      assert (b + multiset{y})[v] == (a + multiset{z})[v];
      assert (c + multiset{z})[v] == (b + multiset{x})[v];
    }
  }

  /** The tile at `j` is brought forward to `k`; what stands before stays. */
  lemma {:induction false} BringForward(R: Relation, n: nat, s: seq<int>, j: nat, k: nat) returns (u: seq<int>)
    requires BendsCrossed(R, n, |s|) && n >= 2 && |s| + 1 == n * n && k <= j < |s| && k + 2 < |s|
    ensures |u| == |s| && Reaches(R, s, u) && multiset(u) == multiset(s) && u[..k] == s[..k] && u[k] == s[j]
    decreases j
  {
    if j == k {
      u := s;
      ReachesSelf(R, s);
    } else if j == k + 1 {
      u := Turn(s, k, k + 1, k + 2);
      NeighboursFree(R, n, |s|, k);
      TurnsUse(R, |s|, k, k + 1, k + 2, s);
      TurnKeepsTiles(s, k, k + 1, k + 2);
    } else {
      var m := Turn(s, j - 2, j, j - 1);
      NeighboursFree(R, n, |s|, j - 2);
      TurnsUse(R, |s|, j - 2, j, j - 1, s);
      TurnKeepsTiles(s, j - 2, j, j - 1);
      u := BringForward(R, n, m, j - 2, k);
      ReachesOn(R, s, m, u);
      assert m[..k] == s[..k];
    }
  }

  lemma SameRest(p: seq<int>, a: seq<int>, b: seq<int>)
    requires multiset(p + a) == multiset(p + b)
    ensures multiset(a) == multiset(b)
  {
    assert multiset(p + a) == multiset(p) + multiset(a) && multiset(p + b) == multiset(p) + multiset(b);
    forall v ensures multiset(a)[v] == multiset(b)[v] {
      assert (multiset(p) + multiset(a))[v] == (multiset(p) + multiset(b))[v];
    }
  }

  lemma TileBehind(s: seq<int>, target: seq<int>, k: nat) returns (j: nat)
    requires |s| == |target| && multiset(s) == multiset(target) && k < |s| && s[..k] == target[..k]
    ensures k <= j < |s| && s[j] == target[k]
  {
    assert s == s[..k] + s[k..] && target == target[..k] + target[k..];
    SameRest(s[..k], s[k..], target[k..]);
    assert target[k] == target[k..][0];
    assert target[k] in multiset(target[k..]);
    assert target[k] in s[k..];
    var i :| 0 <= i < |s| - k && s[k..][i] == target[k];
    j := k + i;
  }

  /** Every order is reached, except that the last two tiles may come out exchanged. */
  lemma {:induction false} SortFrom(R: Relation, n: nat, s: seq<int>, target: seq<int>, k: nat) returns (u: seq<int>)
    requires BendsCrossed(R, n, |s|) && n >= 2 && |s| + 1 == n * n && |target| == |s| && multiset(s) == multiset(target)
    requires k + 2 <= |s| && s[..k] == target[..k]
    ensures |u| == |s| && Reaches(R, s, u) && multiset(u) == multiset(target)
    ensures u[..|u| - 2] == target[..|u| - 2]
    decreases |s| - k
  {
    if k + 2 == |s| {
      u := s;
      ReachesSelf(R, s);
    } else {
      var j := TileBehind(s, target, k);
      var m := BringForward(R, n, s, j, k);
      assert m[..k + 1] == m[..k] + [m[k]] && target[..k + 1] == target[..k] + [target[k]];
      u := SortFrom(R, n, m, target, k + 1);
      ReachesOn(R, s, m, u);
    }
  }

  lemma SamePair(a: int, b: int, c: int, d: int)
    requires multiset{a, b} == multiset{c, d}
    ensures (a == c && b == d) || (a == d && b == c)
  {
    assert a in multiset{c, d} && c in multiset{a, b} && d in multiset{a, b};
  }

  lemma LastTwo(u: seq<int>, target: seq<int>)
    requires |u| == |target| >= 2 && multiset(u) == multiset(target) && u[..|u| - 2] == target[..|u| - 2]
    ensures u == target || u == Exchange(target, |u| - 2, |u| - 1)
  {
    var k := |u| - 2;
    assert u == u[..k] + [u[k], u[k + 1]] && target == target[..k] + [target[k], target[k + 1]];
    SameRest(u[..k], [u[k], u[k + 1]], [target[k], target[k + 1]]);
    SamePair(u[k], u[k + 1], target[k], target[k + 1]);
  }

  lemma Sorted(R: Relation, n: nat, s: seq<int>, target: seq<int>) returns (u: seq<int>)
    requires BendsCrossed(R, n, |s|) && n >= 2 && |s| + 1 == n * n
    requires |target| == |s| >= 2 && multiset(s) == multiset(target)
    ensures Reaches(R, s, u) && (u == target || u == Exchange(target, |s| - 2, |s| - 1))
  {
    u := SortFrom(R, n, s, target, 0);
    LastTwo(u, target);
  }
}
