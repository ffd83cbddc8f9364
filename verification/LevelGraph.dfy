/** The level graph of a blocking-flow phase, and what augmenting along it changes. */
module LevelGraph {
  import opened FlowNetwork

  /** The marks of a breadth-first search: visited vertices have levels below n. */
  ghost predicate Levelled(n: nat, d: seq<int>, vis: seq<bool>) {
    |d| == |vis| == n && forall v :: 0 <= v < n && vis[v] ==> 0 <= d[v] < n
  }

  /** No residual edge leaves the visited vertices. */
  ghost predicate Closed(n: nat, es: Edges, vis: seq<bool>) {
    |vis| == n && forall i :: 0 <= i < |es| && es[i].from < n && es[i].to < n ==>
      vis[es[i].from] && es[i].Residual() > 0 ==> vis[es[i].to]
  }

  /** Residual edges out of visited vertices lead to visited ones, at most one level up. */
  ghost predicate Shallow(n: nat, es: Edges, d: seq<int>, vis: seq<bool>) {
    |d| == |vis| == n && forall i :: 0 <= i < |es| && es[i].from < n && es[i].to < n ==>
      vis[es[i].from] && es[i].Residual() > 0 ==> vis[es[i].to] && d[es[i].to] <= d[es[i].from] + 1
  }

  predicate LevelEdge(d: seq<int>, e: Edge) {
    e.from < |d| && e.to < |d| && d[e.from] + 1 == d[e.to]
  }

  /** The sink can be reached from `x` over `k` residual edges that each go up one level. */
  ghost predicate Reach(es: Edges, d: seq<int>, x: nat, t: nat, k: nat)
    decreases k
  {
    if k == 0 then x == t
    else exists i :: 0 <= i < |es| && es[i].from == x && LevelEdge(d, es[i]) && es[i].Residual() > 0
                     && Reach(es, d, es[i].to, t, k - 1)
  }

  /** The lengths of the paths from `x` to the sink. */
  ghost function Paths(es: Edges, d: seq<int>, x: nat, t: nat): iset<nat> {
    iset k: nat | Reach(es, d, x, t, k)
  }

  ghost predicate Dead(es: Edges, d: seq<int>, x: nat, t: nat) {
    Paths(es, d, x, t) == iset{}
  }

  lemma DeadNoReach(es: Edges, d: seq<int>, x: nat, t: nat, k: nat)
    requires Dead(es, d, x, t)
    ensures !Reach(es, d, x, t, k)
  {
    assert k !in Paths(es, d, x, t);
  }

  /** The change from `a` to `b` is a flow of `r` from `x` to `t` over edges at level `lvl` and above,
      which uses level edges only. */
  ghost predicate Effect(a: Edges, b: Edges, d: seq<int>, vis: seq<bool>, lvl: int, x: nat, t: nat, r: int) {
    && SameNetwork(a, b) && |d| == |vis|
    && (forall v: nat :: Out(b, v) == Out(a, v) + (if v == x then r else 0) - (if v == t then r else 0))
    && (forall i :: 0 <= i < |a| && b[i].flow != a[i].flow ==>
          && a[i].from < |d| && a[i].to < |d| && vis[a[i].from] && vis[a[i].to]
          && d[a[i].from] >= lvl && d[a[i].to] >= lvl)
    && (forall i :: 0 <= i < |a| && LevelEdge(d, a[i]) ==> b[i].flow >= a[i].flow)
    && (forall i :: 0 <= i < |a| && b[i].flow > a[i].flow ==> LevelEdge(d, a[i]))
    && (r == 0 ==> a == b)
  }

  lemma EffectTrans(a: Edges, b: Edges, c: Edges, d: seq<int>, vis: seq<bool>, lvl: int, x: nat, t: nat, r: nat,
      r': nat)
    requires Effect(a, b, d, vis, lvl, x, t, r) && Effect(b, c, d, vis, lvl, x, t, r')
    ensures Effect(a, c, d, vis, lvl, x, t, r + r')
  {
    forall i | 0 <= i < |a| && LevelEdge(d, a[i]) ensures c[i].flow >= a[i].flow {
      assert LevelEdge(d, b[i]);
    }
    forall i | 0 <= i < |a| && c[i].flow > a[i].flow ensures LevelEdge(d, a[i]) {
      assert b[i].flow > a[i].flow || c[i].flow > b[i].flow;
      assert LevelEdge(d, b[i]) <==> LevelEdge(d, a[i]);
    }
  }

  /** A flow of `f` from the head of a level edge, followed by the push along the edge. */
  lemma EffectPush(n: nat, a: Edges, b: Edges, d: seq<int>, vis: seq<bool>, i: nat, t: nat, f: nat)
    requires Network(n, a) && i < |a| && |d| == |vis| == n && LevelEdge(d, a[i]) && f > 0
    requires vis[a[i].from] && vis[a[i].to]
    requires Effect(a, b, d, vis, d[a[i].to], a[i].to, t, f)
    ensures |b| % 2 == 0 && Effect(a, Push(b, i, f), d, vis, d[a[i].from], a[i].from, t, f)
    ensures b[i] == a[i]
  {
    var c := Push(b, i, f);
    SameIsNetwork(n, a, b);
    var x, y := a[i].from, a[i].to;
    forall v: nat ensures Out(c, v) == Out(a, v) + (if v == x then f else 0) - (if v == t then f else 0) {
      PushOut(n, b, i, f, v);
    }
    assert b[i].flow == a[i].flow;
    forall j | 0 <= j < |a|
      ensures c[j].from == a[j].from && c[j].to == a[j].to && c[j].cap == a[j].cap
      ensures c[j].flow != a[j].flow ==>
                && a[j].from < |d| && a[j].to < |d| && vis[a[j].from] && vis[a[j].to]
                && d[a[j].from] >= d[x] && d[a[j].to] >= d[x]
      ensures LevelEdge(d, a[j]) ==> c[j].flow >= a[j].flow
      ensures c[j].flow > a[j].flow ==> LevelEdge(d, a[j])
    {
      PushAt(b, i, f, j);
      assert a[Partner(i)].from == y && a[Partner(i)].to == x;
    }
  }

  /** Residual level edges only disappear. */
  lemma {:induction false} ReachMono(a: Edges, b: Edges, d: seq<int>, x: nat, t: nat, k: nat)
    requires SameNetwork(a, b)
    requires forall i :: 0 <= i < |a| && LevelEdge(d, a[i]) ==> b[i].flow >= a[i].flow
    requires Reach(b, d, x, t, k)
    ensures Reach(a, d, x, t, k)
    decreases k
  {
    if k > 0 {
      var i :| 0 <= i < |b| && b[i].from == x && LevelEdge(d, b[i]) && b[i].Residual() > 0
        && Reach(b, d, b[i].to, t, k - 1);
      ReachMono(a, b, d, b[i].to, t, k - 1);
      assert LevelEdge(d, a[i]);
    }
  }

  lemma EffectDead(a: Edges, b: Edges, d: seq<int>, vis: seq<bool>, lvl: int, x: nat, t: nat, r: int, y: nat)
    requires Effect(a, b, d, vis, lvl, x, t, r) && Dead(a, d, y, t)
    ensures Dead(b, d, y, t)
  {
    forall k: nat ensures k !in Paths(b, d, y, t) {
      DeadNoReach(a, d, y, t, k);
      if Reach(b, d, y, t, k) { ReachMono(a, b, d, y, t, k); }
    }
  }

  /** Nothing more can be sent over edge `j`: it is no level edge, it is full, or its head is dead. */
  ghost predicate Spent(es: Edges, d: seq<int>, j: nat, t: nat)
    requires j < |es|
  {
    !LevelEdge(d, es[j]) || es[j].Residual() <= 0 || Dead(es, d, es[j].to, t)
  }

  lemma EffectSpent(a: Edges, b: Edges, d: seq<int>, vis: seq<bool>, lvl: int, x: nat, t: nat, r: int, j: nat)
    requires Effect(a, b, d, vis, lvl, x, t, r) && j < |a| && Spent(a, d, j, t)
    ensures Spent(b, d, j, t)
  {
    if Dead(a, d, a[j].to, t) {
      EffectDead(a, b, d, vis, lvl, x, t, r, a[j].to);
    }
  }

  /** After the push the edge is spent, if it was filled or if its head gave less than it was asked for. */
  lemma PushSpends(n: nat, b: Edges, d: seq<int>, i: nat, t: nat, f: nat)
    requires Network(n, b) && i < |b| && LevelEdge(d, b[i])
    requires f == b[i].Residual() || Dead(b, d, b[i].to, t)
    ensures Spent(Push(b, i, f), d, i, t)
  {
    var c := Push(b, i, f);
    PushAt(b, i, f, i);
    PartnerInverse(i, i);
    if Dead(b, d, b[i].to, t) {
      forall j | 0 <= j < |b|
        ensures c[j].from == b[j].from && c[j].to == b[j].to && c[j].cap == b[j].cap
        ensures LevelEdge(d, b[j]) ==> c[j].flow >= b[j].flow
      {
        PushAt(b, i, f, j);
        assert b[Partner(i)].from == b[i].to && b[Partner(i)].to == b[i].from;
      }
      forall k: nat ensures k !in Paths(c, d, b[i].to, t) {
        DeadNoReach(b, d, b[i].to, t, k);
        if Reach(c, d, b[i].to, t, k) { ReachMono(b, c, d, b[i].to, t, k); }
      }
    }
  }

  lemma AllSpentIsDead(es: Edges, d: seq<int>, x: nat, t: nat)
    requires x != t && forall j :: 0 <= j < |es| && es[j].from == x ==> Spent(es, d, j, t)
    ensures Dead(es, d, x, t)
  {
    forall k: nat ensures k !in Paths(es, d, x, t) {
      forall j | k > 0 && 0 <= j < |es| && es[j].from == x && LevelEdge(d, es[j]) && es[j].Residual() > 0
        ensures !Reach(es, d, es[j].to, t, k - 1)
      {
        assert Spent(es, d, j, t);
        DeadNoReach(es, d, es[j].to, t, k - 1);
      }
    }
  }

  // ---------------------------------------------------------------------------
  // From the search to a path
  // ---------------------------------------------------------------------------

  /** `i` is a residual edge into `v` from a visited vertex one level down. */
  ghost predicate Into(es: Edges, d: seq<int>, vis: seq<bool>, v: nat, i: nat)
    requires |d| == |vis|
  {
    i < |es| && es[i].to == v && es[i].Residual() > 0 && es[i].from < |vis| && vis[es[i].from] && LevelEdge(d, es[i])
  }

  /** Every visited vertex but the source was entered over a residual level edge, `par` of it. */
  ghost predicate Entered(es: Edges, d: seq<int>, vis: seq<bool>, s: nat, par: seq<nat>) {
    |d| == |vis| == |par| &&
    forall v {:trigger par[v]} :: 0 <= v < |vis| && vis[v] && v != s ==> Into(es, d, vis, v, par[v])
  }

  /** Following the edges back from a vertex that reaches the sink, the source reaches it too. */
  lemma {:induction false} EnteredReach(n: nat, es: Edges, d: seq<int>, vis: seq<bool>, s: nat, par: seq<nat>,
      v: nat, t: nat, k: nat)
    requires Levelled(n, d, vis) && Entered(es, d, vis, s, par) && v < n && vis[v]
    requires Reach(es, d, v, t, k)
    ensures !Dead(es, d, s, t)
    decreases d[v]
  {
    assert k in Paths(es, d, v, t);
    if v != s {
      var i := par[v];
      assert Into(es, d, vis, v, i);
      assert Reach(es, d, es[i].from, t, k + 1);
      EnteredReach(n, es, d, vis, s, par, es[i].from, t, k + 1);
    }
  }

  // ---------------------------------------------------------------------------
  // Levels are distances
  // ---------------------------------------------------------------------------

  /** A path of `k` residual edges from `s` to `v`. */
  ghost predicate Hops(es: Edges, s: nat, v: nat, k: nat)
    decreases k
  {
    if k == 0 then s == v
    else exists i :: 0 <= i < |es| && es[i].to == v && es[i].Residual() > 0 && Hops(es, s, es[i].from, k - 1)
  }

  ghost predicate IsDistance(es: Edges, s: nat, v: nat, k: int) {
    k >= 0 && Hops(es, s, v, k) && forall j: nat :: Hops(es, s, v, j) ==> k <= j
  }

  /** Visited are the vertices that can be reached, and their levels are the distances. */
  ghost predicate Distances(n: nat, es: Edges, s: nat, d: seq<int>, vis: seq<bool>) {
    |d| == |vis| == n && forall v: nat :: v < n ==>
      (vis[v] ==> IsDistance(es, s, v, d[v])) && (!vis[v] ==> forall k: nat :: !Hops(es, s, v, k))
  }

  /** No path is shorter than the level of its end. */
  lemma {:induction false} HopsAtLeast(n: nat, es: Edges, d: seq<int>, vis: seq<bool>, s: nat, v: nat, k: nat)
    requires Network(n, es) && Shallow(n, es, d, vis) && s < n && vis[s] && d[s] == 0 && v < n
    requires Hops(es, s, v, k)
    ensures vis[v] && d[v] <= k
    decreases k
  {
    if k > 0 {
      var i :| 0 <= i < |es| && es[i].to == v && es[i].Residual() > 0 && Hops(es, s, es[i].from, k - 1);
      HopsAtLeast(n, es, d, vis, s, es[i].from, k - 1);
    }
  }

  lemma {:induction false} EnteredHops(n: nat, es: Edges, d: seq<int>, vis: seq<bool>, s: nat, par: seq<nat>, v: nat)
    requires Levelled(n, d, vis) && Entered(es, d, vis, s, par) && s < n && d[s] == 0 && v < n && vis[v]
    ensures Hops(es, s, v, d[v])
    decreases d[v]
  {
    if v != s {
      var i := par[v];
      assert Into(es, d, vis, v, i);
      EnteredHops(n, es, d, vis, s, par, es[i].from);
    }
  }

  lemma LevelsAreDistances(n: nat, es: Edges, d: seq<int>, vis: seq<bool>, s: nat, par: seq<nat>)
    requires Network(n, es) && Levelled(n, d, vis) && Shallow(n, es, d, vis) && Entered(es, d, vis, s, par)
    requires s < n && vis[s] && d[s] == 0
    ensures Distances(n, es, s, d, vis)
  {
    forall v: nat, k: nat | v < n && Hops(es, s, v, k) ensures vis[v] && d[v] <= k {
      HopsAtLeast(n, es, d, vis, s, v, k);
    }
    forall v: nat | v < n && vis[v] ensures Hops(es, s, v, d[v]) {
      EnteredHops(n, es, d, vis, s, par, v);
    }
  }

  /** A phase leads no residual edge further than one level up. */
  lemma EffectShallow(n: nat, a: Edges, b: Edges, d: seq<int>, vis: seq<bool>, lvl: int, x: nat, t: nat, r: int)
    requires Network(n, a) && Feasible(a) && Feasible(b) && Shallow(n, a, d, vis)
    requires Effect(a, b, d, vis, lvl, x, t, r)
    ensures Network(n, b) && Shallow(n, b, d, vis)
  {
    SameIsNetwork(n, a, b);
    forall i | 0 <= i < |b| && vis[b[i].from] && b[i].Residual() > 0
      ensures vis[b[i].to] && d[b[i].to] <= d[b[i].from] + 1
    {
      if b[i].flow < a[i].flow {
        var j := Partner(i);
        assert b[j].flow == -b[i].flow && a[j].flow == -a[i].flow;
        assert LevelEdge(d, a[j]);
      }
    }
  }

  lemma LastHop(es: Edges, s: nat, v: nat, k: nat) returns (i: nat)
    requires k > 0 && Hops(es, s, v, k)
    ensures i < |es| && es[i].to == v && es[i].Residual() > 0 && Hops(es, s, es[i].from, k - 1)
  {
    i :| i < |es| && es[i].to == v && es[i].Residual() > 0 && Hops(es, s, es[i].from, k - 1);
  }

  lemma LevelHop(n: nat, es: Edges, d: seq<int>, vis: seq<bool>, i: nat, k: nat)
    requires Network(n, es) && Shallow(n, es, d, vis) && i < |es| && es[i].Residual() > 0
    requires vis[es[i].from] && d[es[i].from] <= k && d[es[i].to] == k + 1
    ensures LevelEdge(d, es[i]) && d[es[i].from] == k
  {
  }

  lemma FirstLevel(es: Edges, d: seq<int>, i: nat, t: nat, k: nat)
    requires i < |es| && LevelEdge(d, es[i]) && es[i].Residual() > 0 && Reach(es, d, es[i].to, t, k)
    ensures Reach(es, d, es[i].from, t, k + 1)
  {
  }

  /** A shortest path to `v` runs along levels. */
  lemma {:induction false} ShortestAlongLevels(n: nat, es: Edges, d: seq<int>, vis: seq<bool>, s: nat, v: nat,
      t: nat, k: nat)
    requires Network(n, es) && Shallow(n, es, d, vis) && s < n && vis[s] && d[s] == 0 && v < n
    requires d[v] >= 0 && Hops(es, s, v, d[v]) && Reach(es, d, v, t, k)
    ensures !Dead(es, d, s, t)
    decreases d[v]
  {
    if d[v] == 0 {
      assert k in Paths(es, d, v, t);
    } else {
      var i := LastHop(es, s, v, d[v]);
      HopsAtLeast(n, es, d, vis, s, es[i].from, d[v] - 1);
      LevelHop(n, es, d, vis, i, d[v] - 1);
      FirstLevel(es, d, i, t, k);
      ShortestAlongLevels(n, es, d, vis, s, es[i].from, t, k + 1);
    }
  }

  /** After a phase no path to the sink is shorter than before, and all are longer if no path along the
      levels is left. */
  lemma PhaseLengthens(n: nat, a: Edges, b: Edges, d: seq<int>, vis: seq<bool>, s: nat, t: nat, r: int, k: nat)
    requires Network(n, a) && Feasible(a) && Feasible(b) && Shallow(n, a, d, vis)
    requires s < n && t < n && vis[s] && d[s] == 0 && Effect(a, b, d, vis, 0, s, t, r) && Hops(b, s, t, k)
    ensures d[t] <= k && (Dead(b, d, s, t) ==> d[t] < k)
  {
    EffectShallow(n, a, b, d, vis, 0, s, t, r);
    HopsAtLeast(n, b, d, vis, s, t, k);
    if d[t] == k {
      assert Reach(b, d, t, t, 0);
      ShortestAlongLevels(n, b, d, vis, s, t, t, 0);
    }
  }
}
