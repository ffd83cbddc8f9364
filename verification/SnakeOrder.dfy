/**
 A square board read along a snake, every other row backwards. The blank moves along the snake without
 changing the order of the tiles, and its steps between rows take a tile across a stretch around a bend.
 */
module SnakeOrder {
  import opened DivMod
  import opened Inversions
  import opened TileTurns

  // ---------------------------------------------------------------------------
  // Steps of the blank
  // ---------------------------------------------------------------------------

  /** Places `a` and `b` of the snake are neighbours on a board of rows of n: one follows the other, or they
      are opposite each other in successive rows. */
  predicate Near(n: nat, a: nat, b: nat)
    requires n > 0
  {
    b == a + 1 || (b / n == a / n + 1 && a + b + 1 == 2 * (n * (b / n)))
  }

  /** The blank at `z` and the tile at `q` change places. */
  ghost predicate HopAt(n: nat, t: seq<int>, u: seq<int>, z: nat, q: nat)
    requires n > 0
  {
    z < |t| && q < |t| && t[z] == 0 && (Near(n, z, q) || Near(n, q, z)) && u == Exchange(t, z, q)
  }

  ghost predicate Hop(n: nat, t: seq<int>, u: seq<int>)
    requires n > 0
  {
    exists z: nat, q: nat :: HopAt(n, t, u, z, q)
  }

  ghost predicate Walk(n: nat, t: seq<int>, u: seq<int>, k: nat)
    requires n > 0
    decreases k
  {
    if k == 0 then t == u else exists m: seq<int> :: Hop(n, t, m) && Walk(n, m, u, k - 1)
  }

  ghost predicate Linked(n: nat, t: seq<int>, u: seq<int>)
    requires n > 0
  {
    exists k: nat :: Walk(n, t, u, k)
  }

  lemma LinkSelf(n: nat, t: seq<int>)
    requires n > 0
    ensures Linked(n, t, t)
  {
    assert Walk(n, t, t, 0);
  }

  lemma LinkHop(n: nat, t: seq<int>, u: seq<int>, z: nat, q: nat)
    requires n > 0 && HopAt(n, t, u, z, q)
    ensures Linked(n, t, u)
  {
    assert Hop(n, t, u) && Walk(n, u, u, 0);
    assert Walk(n, t, u, 1);
  }

  lemma {:induction false} WalkOn(n: nat, t: seq<int>, u: seq<int>, w: seq<int>, j: nat, k: nat)
    requires n > 0 && Walk(n, t, u, j) && Walk(n, u, w, k)
    ensures Walk(n, t, w, j + k)
    decreases j
  {
    if j > 0 {
      var m :| Hop(n, t, m) && Walk(n, m, u, j - 1);
      WalkOn(n, m, u, w, j - 1, k);
    }
  }

  lemma LinkOn(n: nat, t: seq<int>, u: seq<int>, w: seq<int>)
    requires n > 0 && Linked(n, t, u) && Linked(n, u, w)
    ensures Linked(n, t, w)
  {
    var j: nat :| Walk(n, t, u, j);
    var k: nat :| Walk(n, u, w, k);
    WalkOn(n, t, u, w, j, k);
  }

  // ---------------------------------------------------------------------------
  // The order of the tiles
  // ---------------------------------------------------------------------------

  /** The tiles in order `s` with the blank before the one at place `b`. */
  function Insert(s: seq<int>, b: nat): (t: seq<int>)
    requires b <= |s|
    ensures |t| == |s| + 1 && t[b] == 0
  {
    s[..b] + [0] + s[b..]
  }

  lemma BlankOneUp(n: nat, s: seq<int>, b: nat)
    requires n > 0 && b < |s|
    ensures Linked(n, Insert(s, b), Insert(s, b + 1)) && Linked(n, Insert(s, b + 1), Insert(s, b))
  {
    var t, u := Insert(s, b), Insert(s, b + 1);
    assert u == Exchange(t, b, b + 1) && t == Exchange(u, b + 1, b);
    LinkHop(n, t, u, b, b + 1);
    LinkHop(n, u, t, b + 1, b);
  }

  /** The blank goes anywhere along the snake. */
  lemma {:induction false} BlankAlong(n: nat, s: seq<int>, b: nat, c: nat)
    requires n > 0 && b <= |s| && c <= |s|
    ensures Linked(n, Insert(s, b), Insert(s, c))
    decreases if b < c then c - b else b - c
  {
    if b == c {
      LinkSelf(n, Insert(s, b));
    } else if b < c {
      BlankOneUp(n, s, c - 1);
      BlankAlong(n, s, b, c - 1);
      LinkOn(n, Insert(s, b), Insert(s, c - 1), Insert(s, c));
    } else {
      BlankOneUp(n, s, c);
      BlankAlong(n, s, b, c + 1);
      LinkOn(n, Insert(s, b), Insert(s, c + 1), Insert(s, c));
    }
  }

  /** The order `u` can be reached from `s`, with the blank last before and after. */
  ghost predicate Orderable(n: nat, s: seq<int>, u: seq<int>)
    requires n > 0
  {
    |s| == |u| && Linked(n, Insert(s, |s|), Insert(u, |u|))
  }

  lemma OrderableOn(n: nat, s: seq<int>, u: seq<int>, w: seq<int>)
    requires n > 0 && Orderable(n, s, u) && Orderable(n, u, w)
    ensures Orderable(n, s, w)
  {
    LinkOn(n, Insert(s, |s|), Insert(u, |u|), Insert(w, |w|));
  }

  ghost function Orders(n: nat): (R: Relation)
    requires n > 0
    ensures forall s, u :: Reaches(R, s, u) <==> Orderable(n, s, u)
  {
    var R := iset p: (seq<int>, seq<int>) | Orderable(n, p.0, p.1);
    forall s: seq<int> ensures (s, s) in R { LinkSelf(n, Insert(s, |s|)); }
    forall s: seq<int>, u: seq<int>, w: seq<int> | (s, u) in R && (u, w) in R ensures (s, w) in R {
      OrderableOn(n, s, u, w);
    }
    R
  }

  lemma ThroughBlank(n: nat, s: seq<int>, b: nat, u: seq<int>, c: nat)
    requires n > 0 && b <= |s| && c <= |u| && |s| == |u| && Linked(n, Insert(s, b), Insert(u, c))
    ensures Orderable(n, s, u)
  {
    BlankAlong(n, s, |s|, b);
    BlankAlong(n, u, c, |u|);
    LinkOn(n, Insert(s, |s|), Insert(s, b), Insert(u, c));
    LinkOn(n, Insert(s, |s|), Insert(u, c), Insert(u, |u|));
  }

  lemma ForwardIsExchange(s: seq<int>, b: nat, e: nat)
    requires b <= e < |s|
    ensures Insert(Forward(s, b, e), e + 1) == Exchange(Insert(s, b), b, e + 1)
  {
  }

  lemma BackwardIsExchange(s: seq<int>, b: nat, e: nat)
    requires b <= e < |s|
    ensures Insert(Backward(s, b, e), b) == Exchange(Insert(s, e + 1), e + 1, b)
  {
  }

  /** A step of the blank between places `b` and e + 1 takes a tile across the stretch. */
  lemma StepsAcross(n: nat, s: seq<int>, b: nat, e: nat)
    requires n > 0 && b <= e < |s| && Near(n, b, e + 1)
    ensures Orderable(n, s, Forward(s, b, e)) && Orderable(n, s, Backward(s, b, e))
  {
    ForwardIsExchange(s, b, e);
    LinkHop(n, Insert(s, b), Insert(Forward(s, b, e), e + 1), b, e + 1);
    ThroughBlank(n, s, b, Forward(s, b, e), e + 1);
    BackwardIsExchange(s, b, e);
    LinkHop(n, Insert(s, e + 1), Insert(Backward(s, b, e), b), e + 1, b);
    ThroughBlank(n, s, e + 1, Backward(s, b, e), b);
  }

  lemma Opposite(n: nat, i: nat, p: nat, a: nat, b: nat)
    requires n > 0 && p == n * (i + 1) && a / n == i && b / n == i + 1 && a + b + 1 == 2 * p
    ensures Near(n, a, b)
  {
  }

  lemma AcrossBend(n: nat, len: nat, i: nat, d: nat, c: nat)
    requires Bend(n, len, i, d, c)
    ensures d <= c && Near(n, c - d, c + d + 1)
  {
    var p := n * (i + 1);
    assert p == n * i + n;
    DivModUnique(c - d, n, i, n - 1 - d);
    DivModUnique(c + d + 1, n, i + 1, d);
    Opposite(n, i, p, c - d, c + d + 1);
  }

  lemma StretchCrossed(n: nat, len: nat, b: nat, e: nat, R: Relation)
    requires n > 0 && b <= e < len && Near(n, b, e + 1)
    requires forall s, u :: Orderable(n, s, u) ==> Reaches(R, s, u)
    ensures Crossed(R, len, b, e)
  {
    forall s: seq<int> | |s| == len ensures Reaches(R, s, Forward(s, b, e)) && Reaches(R, s, Backward(s, b, e)) {
      StepsAcross(n, s, b, e);
    }
  }

  /** The blank can take tiles across every stretch around a bend of the snake. */
  lemma SnakeBends(n: nat, len: nat)
    requires n > 0
    ensures BendsCrossed(Orders(n), n, len)
  {
    var R := Orders(n);
    forall i: nat, d: nat, c: nat | Bend(n, len, i, d, c) ensures d <= c && Crossed(R, len, c - d, c + d) {
      AcrossBend(n, len, i, d, c);
      StretchCrossed(n, len, c - d, c + d, R);
    }
  }

  /** From any order of the tiles any other is reached, with the blank anywhere before and after, except
      that the last two tiles may come out exchanged. */
  lemma AnyOrder(n: nat, s: seq<int>, b: nat, target: seq<int>, c: nat) returns (u: seq<int>)
    requires n >= 2 && |s| + 1 == n * n && |target| == |s| >= 2 && multiset(s) == multiset(target)
    requires b <= |s| && c <= |s|
    ensures u == target || u == Exchange(target, |s| - 2, |s| - 1)
    ensures Linked(n, Insert(s, b), Insert(u, c))
  {
    SnakeBends(n, |s|);
    u := Sorted(Orders(n), n, s, target);
    assert Orderable(n, s, u);
    BlankAlong(n, s, b, |s|);
    BlankAlong(n, u, |u|, c);
    LinkOn(n, Insert(s, b), Insert(s, |s|), Insert(u, |u|));
    LinkOn(n, Insert(s, b), Insert(u, |u|), Insert(u, c));
  }
}
