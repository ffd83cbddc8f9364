/** Dinic's maximum-flow algorithm over edge lists threaded through an edge array. */
module Dinic {
  import opened Permutations
  import opened FlowNetwork
  import opened LevelGraph

  const INF: int := 0x3f3f3f

  // ---------------------------------------------------------------------------
  // Adjacency lists
  // ---------------------------------------------------------------------------

  /** The last edge before `k` that leaves `x`, or -1. */
  function Prev(es: Edges, k: nat, x: nat): (i: int)
    requires k <= |es|
    ensures -1 <= i < k && (i >= 0 ==> es[i].from == x)
  {
    if k == 0 then -1 else if es[k - 1].from == x then k - 1 else Prev(es, k - 1, x)
  }

  lemma {:induction false} PrevIsLast(es: Edges, k: nat, x: nat, j: nat)
    requires k <= |es| && Prev(es, k, x) < j < k
    ensures es[j].from != x
  {
    if j < k - 1 {
      PrevIsLast(es, k - 1, x, j);
    }
  }

  /** head[x] is the last edge out of x, and nxt[i] the one before edge i. */
  ghost predicate Lists(n: nat, es: Edges, head: seq<int>, nxt: seq<int>) {
    && |head| == n && |es| <= |nxt|
    && (forall x {:trigger head[x]} :: 0 <= x < n ==> head[x] == Prev(es, |es|, x))
    && forall i {:trigger nxt[i]} :: 0 <= i < |es| ==> nxt[i] == Prev(es, i, es[i].from)
  }

  lemma {:induction false} PrevSame(a: Edges, b: Edges, k: nat, x: nat)
    requires k <= |a| && k <= |b| && forall i :: 0 <= i < k ==> a[i].from == b[i].from
    ensures Prev(a, k, x) == Prev(b, k, x)
  {
    if k > 0 {
      PrevSame(a, b, k - 1, x);
    }
  }

  /** Lists do not depend on the flows. */
  lemma ListsSame(n: nat, a: Edges, b: Edges, head: seq<int>, nxt: seq<int>)
    requires Lists(n, a, head, nxt) && SameNetwork(a, b)
    ensures Lists(n, b, head, nxt)
  {
    forall x | 0 <= x < n ensures head[x] == Prev(b, |b|, x) { PrevSame(a, b, |a|, x); }
    forall i | 0 <= i < |b| ensures nxt[i] == Prev(b, i, b[i].from) { PrevSame(a, b, i, a[i].from); }
  }

  function Min(x: int, y: int): int {
    if x < y then x else y
  }

  class Solver {
    const n: nat
    var m: nat
    var s: nat
    var t: nat
    const edges: array<Edge>
    const head: array<int>
    const nxt: array<int>
    const vis: array<bool>
    const d: array<int>
    const cur: array<int>
    const queue: array<int>

    ghost predicate Arrays() {
      && edges.Length == nxt.Length
      && head.Length == vis.Length == d.Length == cur.Length == queue.Length == n
      && head != nxt && head != d && head != cur && head != queue
      && (nxt as object) != (vis as object)
      && nxt != d && nxt != cur && nxt != queue && d != cur && d != queue && cur != queue
    }

    /** The edges added so far. */
    ghost function Es(): Edges
      requires m <= edges.Length
      reads this, edges
    {
      edges[..m]
    }

    ghost predicate Built()
      reads this, edges, head, nxt
    {
      && Arrays() && m <= edges.Length
      && Network(n, Es()) && Lists(n, Es(), head[..], nxt[..])
    }

    /** init: no edges yet, room for `maxm` of them. */
    constructor (n: nat, maxm: nat)
      ensures this.n == n && m == 0 && edges.Length == maxm && Built() && Feasible(Es())
      ensures fresh(edges) && fresh(head) && fresh(nxt) && fresh(vis) && fresh(d) && fresh(cur) && fresh(queue)
    {
      this.n := n;
      m, s, t := 0, 0, 0;
      edges := new Edge[maxm](_ => Edge(0, 0, 0, 0));
      head := new int[n](_ => -1);
      nxt := new int[maxm];
      vis := new bool[n];
      d := new int[n];
      cur := new int[n];
      queue := new int[n];
    }

    /** edges[m] = e, which becomes the first edge of its list. */
    method AddHalf(e: Edge)
      requires Arrays() && m < edges.Length && e.from < n && Lists(n, Es(), head[..], nxt[..])
      modifies this`m, edges, head, nxt
      ensures m == old(m) + 1 && Es() == old(Es()) + [e] && Lists(n, Es(), head[..], nxt[..])
    {
      ghost var es, head0, nxt0 := Es(), head[..], nxt[..];
      edges[m] := e;
      nxt[m] := head[e.from];
      head[e.from] := m;
      m := m + 1;
      OneMore(n, es, e, head0, nxt0, head[..], nxt[..]);
      assert Es() == es + [e];
    }

    /** A new edge and its reverse, which starts without capacity; zero capacities are not stored. */
    method AddEdge(u: nat, v: nat, c: int)
      requires Built() && Feasible(Es()) && u < n && v < n && c >= 0 && m + 2 <= edges.Length
      modifies this`m, edges, head, nxt
      ensures Built() && Feasible(Es())
      ensures Es() == if c == 0 then old(Es()) else old(Es()) + [Edge(u, v, c, 0)] + [Edge(v, u, 0, 0)]
    {
      if c == 0 {
        return;
      }
      PairAdded(n, Es(), u, v, c);
      AddHalf(Edge(u, v, c, 0));
      AddHalf(Edge(v, u, 0, 0));
    }

    /** What the arrays hold during a search. */
    ghost predicate Shows(S: Search, qr: nat)
      requires m <= edges.Length
      reads this, edges, d, vis, queue
    {
      && S.n == n && S.es == Es() && S.s == s && S.qr == qr
      && S.d == d[..] && S.vis == vis[..] && S.queue == queue[..]
    }

    /** The body of BFS's inner loop: edge `i` out of `x` is followed to an unvisited vertex. */
    method Visit(x: nat, i: nat, qr: nat, ghost S: Search, ghost next: Search) returns (more: nat)
      requires Arrays() && x < n && i < m <= edges.Length && edges[i].to < n
      requires Shows(S, qr) && After(S, next, x, i)
      modifies vis, d, queue
      ensures Shows(next, more) && nxt[..] == old(nxt[..])
    {
      var e := edges[i];
      more := qr;
      if !vis[e.to] && e.cap > e.flow {
        vis[e.to] := true;
        d[e.to] := d[x] + 1;
        queue[more] := e.to;
        more := more + 1;
      }
    }

    /** The inner loop of BFS: visit what the residual edges of the vertex at place `k` lead to. */
    method Scan(k: nat, qr0: nat, ghost S0: Search) returns (qr: nat, ghost S: Search)
      requires Built() && Shows(S0, qr0) && Front(S0, k)
      modifies vis, d, queue
      ensures Shows(S, qr) && qr0 <= qr && Front(S, k)
      ensures Kept(S0.queue, S.queue, qr0) && More(S0.d, S0.vis, S.d, S.vis)
      ensures Scanned(S.es, S.d, S.vis, S.queue[k], -1)
    {
      ghost var es, nx := Es(), nxt[..];
      qr, S := qr0, S0;
      var x := queue[k];
      var i := head[x];
      ghost var z := ScanStart(S0, k, x);
      while i != -1
        invariant nxt[..] == nx && Shows(z.S, qr) && z.S.es == es && z.x == x && z.i == i
        invariant z.S0 == S0 && z.k == k
        decreases i
      {
        AtEdge(z);
        assert nxt[i] == nx[i] == Prev(es, i, x);
        i, qr, z := Follow(x, i, qr, z);
      }
      ScanDone(z);
      S := z.S;
    }

    /** A round of the inner loop: the edge is followed, and the next of the list taken. */
    method Follow(x: nat, i: nat, qr: nat, ghost z: Scanning) returns (next: int, more: nat, ghost z': Scanning)
      requires Arrays() && m <= edges.Length && Shows(z.S, qr) && z.x == x && z.i == i
      requires i < m && nxt[i] == Prev(z.S.es, i, x)
      modifies vis, d, queue
      ensures nxt[..] == old(nxt[..]) && next < i && Shows(z'.S, more) && z'.S.es == z.S.es
      ensures z'.x == x && z'.i == next && z'.S0 == z.S0 && z'.k == z.k
    {
      AtEdge(z);
      z' := VisitNext(z);
      more := Visit(x, i, qr, z.S, z'.S);
      next := nxt[i];
    }

    /** Its first loop: no vertex is visited yet. */
    method ClearMarks()
      requires Arrays()
      modifies vis
      ensures forall v :: 0 <= v < n ==> !vis[v]
    {
      for i := 0 to n
        invariant forall v :: 0 <= v < i ==> !vis[v]
      {
        vis[i] := false;
      }
    }

    /** BFS: levels of the vertices reached over residual edges; `par` are the edges they were reached by. */
    method Bfs() returns (reached: bool, ghost par: seq<nat>)
      requires Built() && s < n && t < n
      modifies vis, d, queue
      ensures Levelled(n, d[..], vis[..]) && Shallow(n, Es(), d[..], vis[..]) && vis[s] && d[s] == 0
      ensures Entered(Es(), d[..], vis[..], s, par)
      ensures Distances(n, Es(), s, d[..], vis[..]) && reached == vis[t]
    {
      ClearMarks();
      var qf, qr := 0, 0;
      queue[qr] := s;
      qr := qr + 1;
      d[s] := 0;
      vis[s] := true;
      ghost var b := ExpansionStart(n, Es(), s, d[..], vis[..], queue[..]);
      while qf != qr
        invariant Shows(b.S, qr) && b.qf == qf
        decreases n - qf
      {
        InQueue(b);
        ghost var S;
        qr, S := Scan(qf, qr, b.S);
        b := ExpansionNext(b, S);
        qf := qf + 1;
      }
      reached := vis[t];
      par := b.S.par;
      SearchDone(b);
    }

    /** What the arrays hold while a phase augments the flow. */
    ghost predicate Holds(P: Phase)
      requires m <= edges.Length
      reads this, edges, head, nxt, d, vis, cur
    {
      && P.n == n && P.es == Es() && P.d == d[..] && P.vis == vis[..] && P.t == t
      && P.head == head[..] == cur[..] && P.nxt == nxt[..]
    }

    /** Pushes `f` over edge `i` and back over its partner. */
    method PushEdge(i: nat, f: int, ghost es: Edges)
      requires i < m <= edges.Length && Es() == es && |es| % 2 == 0
      modifies edges
      ensures Es() == Push(es, i, f)
    {
      edges[i] := edges[i].(flow := edges[i].flow + f);
      ghost var es1 := es[i := es[i].(flow := es[i].flow + f)];
      assert Es() == es1;
      var j := Partner(i);
      edges[j] := edges[j].(flow := edges[j].flow - f);
      assert Es() == es1[j := es1[j].(flow := es1[j].flow - f)];
    }

    /** DFS: sends up to `a` from `x` to the sink over level edges; if it sends less, no more can be sent. */
    method Dfs(x: nat, a: int, ghost P: Phase) returns (flow: int, ghost T: Send)
      requires Arrays() && m <= edges.Length && Holds(P) && x < n && t < n && 0 <= a && (a > 0 ==> P.vis[x])
      modifies edges
      ensures T.P == P && T.x == x && T.r == flow && Holds(T.Q)
      ensures 0 <= flow <= a && (flow < a ==> Dead(T.Q.es, P.d, x, t))
      decreases if a > 0 then n - P.d[x] else 0, 1
    {
      if x == t || a == 0 {
        return a, SendAtOnce(P, x, a);
      }
      flow := 0;
      T := SendAtOnce(P, x, 0);
      SpentStart(P, x);
      var i := cur[x];
      var rest := a;
      while i != -1
        invariant -1 <= i < |P.es| && (i >= 0 ==> P.es[i].from == x)
        invariant T.P == P && T.x == x && T.r == flow && Holds(T.Q) && SpentBehind(T.Q, x, i)
        invariant 0 <= flow && 0 < rest && flow + rest == a
        decreases i
      {
        EdgeEnds(T, i);
        var f;
        f, T := DfsEdge(x, i, rest, T);
        flow := flow + f;
        rest := rest - f;
        if rest == 0 {
          return;
        }
        assert nxt[i] == P.nxt[i] == Prev(P.es, i, x);
        i := nxt[i];
      }
      AllSpentIsDead(T.Q.es, P.d, x, t);
    }

    /** The body of DFS's loop: what edge `i` out of `x` can still take of `rest` is sent over it. */
    method DfsEdge(x: nat, i: nat, rest: int, ghost T: Send) returns (f: int, ghost N: Send)
      requires Arrays() && m <= edges.Length && Holds(T.Q) && T.x == x && T.r >= 0 && t < n && rest > 0
      requires i < m && T.Q.es[i].from == x && T.Q.vis[x] && SpentBehind(T.Q, x, i)
      requires T.Q.es[i].Residual() > 0 ==> T.Q.vis[T.Q.es[i].to]
      modifies edges
      ensures N.P == T.P && N.x == x && N.r == T.r + f && Holds(N.Q) && 0 <= f <= rest
      ensures f < rest ==> SpentBehind(N.Q, x, Prev(T.Q.es, i, x))
      decreases n - T.Q.d[x], 0
    {
      var e := edges[i];
      if d[x] + 1 != d[e.to] {
        SpentNext(T.Q, T.Q, x, i, 0);
        return 0, T;
      }
      ghost var C;
      f, C := Dfs(e.to, Min(rest, e.cap - e.flow), T.Q);
      N := TakeEdge(T, C, i, rest);
      PushOver(i, f, C.Q, N.Q);
    }

    /** What the child sent is pushed over the edge to it. */
    method PushOver(i: nat, f: int, ghost C: Phase, ghost N: Phase)
      requires Arrays() && m <= edges.Length && Holds(C) && i < m && |C.es| % 2 == 0
      requires N == if f > 0 then C.(es := Push(C.es, i, f)) else C
      modifies edges
      ensures Holds(N)
    {
      if f > 0 {
        PushEdge(i, f, C.es);
      }
    }

    /** Every vertex's arc pointer goes back to the start of its list. */
    method RestartLists()
      requires Arrays()
      modifies cur
      ensures cur[..] == head[..]
    {
      ghost var hd := head[..];
      for i := 0 to n
        invariant head[..] == hd
        invariant forall k :: 0 <= k < i ==> cur[k] == hd[k]
      {
        cur[i] := head[i];
      }
    }

    /** One round of Maxflow after a search that reached the sink.  Afterwards every path to the sink is at
        least as long as its level, and longer unless INF was sent. */
    method SendPhase(ghost par: seq<nat>, ghost es0: Edges, ghost flow: int) returns (f: int)
      requires Built() && s < n && t < n && s != t && Improves(n, es0, Es(), s, t, flow)
      requires Levelled(n, d[..], vis[..]) && Shallow(n, Es(), d[..], vis[..]) && vis[s] && vis[t] && d[s] == 0
      requires Entered(Es(), d[..], vis[..], s, par)
      modifies edges, cur
      ensures Built() && Improves(n, es0, Es(), s, t, flow + f) && 0 < f <= INF
      ensures Out(old(Es()), s) < Out(Es(), s) <= SourceCapacity(es0, s)
      ensures PathsFrom(Es(), s, t, if f < INF then d[t] + 1 else d[t])
    {
      RestartLists();
      ghost var P: Phase := PhaseState(n, Es(), head[..], nxt[..], d[..], vis[..], t);
      ghost var T;
      f, T := Dfs(s, INF, P);
      PhaseImproves(T, es0, s, flow, par);
      PathsLonger(T, s);
    }

    /** Maxflow: a maximum flow from `s` to `t`; the vertices marked by the last search are a minimum cut.
        Each phase that sends less than INF makes the shortest path longer. */
    method Maxflow(s: nat, t: nat) returns (flow: int, ghost phases: nat)
      requires Built() && s < n && t < n && s != t && Feasible(Es()) && Conserved(n, Es(), s, t)
      modifies this`s, this`t, edges, vis, d, cur, queue
      ensures Built() && IsFlow(n, old(Es()), Es(), s, t) && flow == Out(Es(), s) - Out(old(Es()), s)
      ensures s in Marked(vis[..]) && t !in Marked(vis[..]) && CutCapacity(Es(), Marked(vis[..])) == Out(Es(), s)
      ensures forall g :: IsFlow(n, Es(), g, s, t) ==> Out(g, s) <= Out(Es(), s)
      ensures phases <= n - 1 + flow / INF
    {
      this.s, this.t := s, t;
      flow, phases := 0, 0;
      ghost var es0 := Es();
      ghost var blocking: nat, full: nat := 0, 0;
      while true
        invariant this.s == s && this.t == t && Built() && Improves(n, es0, Es(), s, t, flow)
        invariant phases == blocking + full && full * INF <= flow
        invariant blocking < n && PathsFrom(Es(), s, t, blocking + 1)
        decreases SourceCapacity(es0, s) - Out(Es(), s)
      {
        var reached;
        ghost var par;
        reached, par := Bfs();
        if !reached {
          break;
        }
        assert d[t] >= blocking + 1 by { assert IsDistance(Es(), s, t, d[t]); }
        var f := SendPhase(par, es0, flow);
        flow := flow + f;
        phases := phases + 1;
        if f < INF { blocking := blocking + 1; } else { full := full + 1; }
      }
      SearchFailed(n, Es(), vis[..], s, t);
    }
  }

  /** No residual path to the sink has fewer than `k` edges. */
  ghost predicate PathsFrom(es: Edges, s: nat, t: nat, k: int) {
    forall j: nat :: Hops(es, s, t, j) ==> k <= j
  }

  lemma PathsLonger(T: Send, s: nat)
    requires T.x == s && T.P.t < T.P.n && T.P.vis[s] && T.P.d[s] == 0
    ensures PathsFrom(T.Q.es, s, T.P.t, T.P.d[T.P.t])
    ensures Dead(T.Q.es, T.P.d, s, T.P.t) ==> PathsFrom(T.Q.es, s, T.P.t, T.P.d[T.P.t] + 1)
  {
    var P, Q := T.P, T.Q;
    forall j: nat | Hops(Q.es, s, P.t, j) ensures P.d[P.t] <= j && (Dead(Q.es, P.d, s, P.t) ==> P.d[P.t] < j) {
      PhaseLengthens(P.n, P.es, Q.es, P.d, P.vis, s, P.t, T.r, j);
    }
  }

  /** The residual edges out of `x` behind edge `i` lead to visited vertices, at most one level up. */
  ghost predicate Scanned(es: Edges, d: seq<int>, vis: seq<bool>, x: nat, i: int) {
    |d| == |vis| && x < |d| && vis[x] &&
    forall j :: i < j < |es| && j >= 0 && es[j].from == x && es[j].Residual() > 0 ==>
      es[j].to < |vis| && vis[es[j].to] && d[es[j].to] <= d[x] + 1
  }

  lemma ScanNext(es: Edges, d: seq<int>, vis: seq<bool>, d': seq<int>, vis': seq<bool>, x: nat, i: nat)
    requires i < |es| && Scanned(es, d, vis, x, i) && More(d, vis, d', vis')
    requires es[i].Residual() > 0 ==> es[i].to < |vis'| && vis'[es[i].to] && d'[es[i].to] <= d'[x] + 1
    ensures Scanned(es, d', vis', x, Prev(es, i, x))
  {
    forall j | Prev(es, i, x) < j < i && j >= 0 ensures es[j].from != x {
      PrevIsLast(es, i, x, j);
    }
  }

  /** Edge `i` is residual and leads to a vertex not yet visited. */
  predicate Opens(es: Edges, vis: seq<bool>, i: nat)
    requires i < |es|
  {
    es[i].to < |vis| && !vis[es[i].to] && es[i].cap > es[i].flow
  }

  /** More vertices are visited, and those that were keep their levels. */
  ghost predicate More(d: seq<int>, vis: seq<bool>, d': seq<int>, vis': seq<bool>) {
    |d| == |vis| == |d'| == |vis'| && forall v :: 0 <= v < |vis| && vis[v] ==> vis'[v] && d'[v] == d[v]
  }

  ghost predicate Kept(a: seq<int>, b: seq<int>, k: nat) {
    k <= |a| == |b| && forall j :: 0 <= j < k ==> b[j] == a[j]
  }

  /** The residual edges of the first `qf` vertices of the queue lead to visited vertices. */
  ghost predicate Expanded(es: Edges, d: seq<int>, vis: seq<bool>, queue: seq<int>, qf: nat) {
    qf <= |queue| && forall k :: 0 <= k < qf ==> queue[k] >= 0 && Scanned(es, d, vis, queue[k], -1)
  }

  lemma ScannedLater(es: Edges, d: seq<int>, vis: seq<bool>, d': seq<int>, vis': seq<bool>, x: nat, i: int)
    requires Scanned(es, d, vis, x, i) && More(d, vis, d', vis')
    ensures Scanned(es, d', vis', x, i)
  {
  }

  lemma ExpandedNext(es: Edges, d: seq<int>, vis: seq<bool>, queue: seq<int>, d': seq<int>, vis': seq<bool>,
      queue': seq<int>, qf: nat, qr: nat)
    requires Expanded(es, d, vis, queue, qf) && More(d, vis, d', vis') && qf < qr && Kept(queue, queue', qr)
    requires queue'[qf] >= 0 && Scanned(es, d', vis', queue'[qf], -1)
    ensures Expanded(es, d', vis', queue', qf + 1)
  {
    forall k | 0 <= k < qf + 1 ensures queue'[k] >= 0 && Scanned(es, d', vis', queue'[k], -1) {
      if k < qf { ScannedLater(es, d, vis, d', vis', queue[k], -1); }
    }
  }

  /** The vertex at place `k` is being expanded: levels go up along the queue, and the last is at most one
      above its own. */
  ghost predicate Front(S: Search, k: nat) {
    LevelsGoUp(S.d, S.queue, S.qr, k)
  }

  lemma FrontNext(d: seq<int>, queue: seq<int>, qr: nat, k: nat)
    requires LevelsGoUp(d, queue, qr, k) && k + 1 < qr
    ensures LevelsGoUp(d, queue, qr, k + 1)
  {
  }

  /** What following edge `i` out of `x` does to the search. */
  ghost predicate After(S: Search, next: Search, x: nat, i: nat) {
    && i < |S.es| && x < S.n && S.es[i].to < S.n
    && next.n == S.n && next.es == S.es && next.s == S.s
    && if Opens(S.es, S.vis, i)
       then && S.qr < S.n && next.qr == S.qr + 1 && next.queue == S.queue[S.qr := S.es[i].to]
            && next.d == S.d[S.es[i].to := S.d[x] + 1] && next.vis == S.vis[S.es[i].to := true]
       else && next.qr == S.qr && next.queue == S.queue && next.d == S.d && next.vis == S.vis
  }

  /** The inner loop of a search that was in state `S0`: vertex `x` at place `k` has been followed over its
      edges behind edge `i`. */
  datatype ScanState = ScanState(S0: Search, S: Search, k: nat, x: nat, i: int)

  ghost predicate InScan(z: ScanState) {
    && Front(z.S, z.k) && z.S.queue[z.k] == z.x && z.S.n == z.S0.n && z.S.es == z.S0.es && z.S0.qr <= z.S.qr
    && -1 <= z.i < |z.S.es| && (z.i >= 0 ==> z.S.es[z.i].from == z.x)
    && Kept(z.S0.queue, z.S.queue, z.S0.qr) && More(z.S0.d, z.S0.vis, z.S.d, z.S.vis)
    && Scanned(z.S.es, z.S.d, z.S.vis, z.x, z.i)
  }

  lemma NothingScanned(S: Search)
    requires S.es == [] && S.qr == 1 && S.queue[0] == 0
    ensures InScan(ScanState(S, S, 0, 0, -1))
  {
  }

  type Scanning = z: ScanState | InScan(z)
    ghost witness (NothingScanned(ONE_VERTEX); ScanState(ONE_VERTEX, ONE_VERTEX, 0, 0, -1))

  lemma ScanStart(S: Search, k: nat, x: nat) returns (z: Scanning)
    requires Front(S, k) && S.queue[k] == x
    ensures z.S0 == z.S == S && z.k == k && z.x == x && z.i == Prev(S.es, |S.es|, x)
  {
    forall j | Prev(S.es, |S.es|, x) < j < |S.es| && j >= 0 ensures S.es[j].from != x {
      PrevIsLast(S.es, |S.es|, x, j);
    }
    z := ScanState(S, S, k, x, Prev(S.es, |S.es|, x));
  }

  lemma AtEdge(z: Scanning)
    ensures z.x < z.S.n && -1 <= z.i < |z.S.es| && |z.S.d| == |z.S.vis| == |z.S.queue| == z.S.n
    ensures z.i >= 0 ==> z.S.es[z.i].from == z.x && z.S.es[z.i].to < z.S.n
  {
  }

  lemma MoreByOne(d: seq<int>, vis: seq<bool>, v: nat, level: int)
    requires |d| == |vis| && v < |d| && !vis[v]
    ensures More(d, vis, d[v := level], vis[v := true])
  {
  }

  lemma VisitFrom(S: Search, k: nat, i: nat) returns (next: Search)
    requires Front(S, k) && i < |S.es| && S.es[i].from == S.queue[k]
    ensures After(S, next, S.queue[k], i) && Front(next, k) && S.qr <= next.qr
    ensures Kept(S.queue, next.queue, S.qr) && More(S.d, S.vis, next.d, next.vis)
    ensures S.es[i].Residual() > 0 ==>
              S.es[i].to < S.n && next.vis[S.es[i].to] && next.d[S.es[i].to] <= next.d[S.queue[k]] + 1
  {
    if Opens(S.es, S.vis, i) {
      next := VisitNew(S, k, i);
    } else {
      next := S;
      if S.es[i].Residual() > 0 { QueuedLevel(S, k, S.es[i].to); }
    }
  }

  lemma VisitNew(S: Search, k: nat, i: nat) returns (next: Search)
    requires Front(S, k) && i < |S.es| && S.es[i].from == S.queue[k] && Opens(S.es, S.vis, i)
    ensures After(S, next, S.queue[k], i) && Front(next, k) && S.qr <= next.qr
    ensures Kept(S.queue, next.queue, S.qr) && More(S.d, S.vis, next.d, next.vis)
    ensures S.es[i].to < S.n && next.vis[S.es[i].to] && next.d[S.es[i].to] == next.d[S.queue[k]] + 1
  {
    next := Discover(S, k, i);
    MoreByOne(S.d, S.vis, S.es[i].to, S.d[S.queue[k]] + 1);
    DiscoverFront(S.d, S.vis, S.queue, S.qr, k, S.es[i].to, next.d, next.queue);
  }

  lemma SoFar(S0: Search, S: Search, next: Search)
    requires Kept(S0.queue, S.queue, S0.qr) && More(S0.d, S0.vis, S.d, S.vis) && S0.qr <= S.qr
    requires Kept(S.queue, next.queue, S.qr) && More(S.d, S.vis, next.d, next.vis)
    ensures Kept(S0.queue, next.queue, S0.qr) && More(S0.d, S0.vis, next.d, next.vis)
  {
  }

  lemma ScanKeeps(z: Scanning, i: nat, next: Search)
    requires i == z.i && Front(next, z.k) && z.S.qr <= next.qr && next.n == z.S.n && next.es == z.S.es
    requires Kept(z.S.queue, next.queue, z.S.qr) && More(z.S.d, z.S.vis, next.d, next.vis)
    requires var e := z.S.es[i];
             e.Residual() > 0 ==> e.to < |next.vis| && next.vis[e.to] && next.d[e.to] <= next.d[z.x] + 1
    ensures InScan(ScanState(z.S0, next, z.k, z.x, Prev(z.S.es, i, z.x)))
  {
    SoFar(z.S0, z.S, next);
    ScanNext(z.S.es, z.S.d, z.S.vis, next.d, next.vis, z.x, i);
  }

  /** One round of the inner loop. */
  lemma VisitNext(z: Scanning) returns (z': Scanning)
    requires z.i >= 0
    ensures z.x < z.S.n && z.i < |z.S.es| && After(z.S, z'.S, z.x, z.i)
    ensures z' == z.(S := z'.S, i := Prev(z.S.es, z.i, z.x))
  {
    var next := VisitFrom(z.S, z.k, z.i);
    ScanKeeps(z, z.i, next);
    z' := ScanState(z.S0, next, z.k, z.x, Prev(z.S.es, z.i, z.x));
  }

  lemma ScanDone(z: Scanning)
    requires z.i == -1
    ensures z.S0.qr <= z.S.qr && Front(z.S, z.k) && z.S.queue[z.k] == z.x
    ensures Kept(z.S0.queue, z.S.queue, z.S0.qr) && More(z.S0.d, z.S0.vis, z.S.d, z.S.vis)
    ensures Scanned(z.S.es, z.S.d, z.S.vis, z.x, -1)
  {
  }

  ghost predicate LevelsGoUp(d: seq<int>, queue: seq<int>, qr: nat, k: nat) {
    && k < qr <= |queue| && (forall j :: 0 <= j < qr ==> 0 <= queue[j] < |d|)
    && (forall i, j :: 0 <= i <= j < qr ==> d[queue[i]] <= d[queue[j]])
    && d[queue[qr - 1]] <= d[queue[k]] + 1
  }

  /** A vertex found from place `k` goes to the end of the queue, one level above it. */
  lemma DiscoverFront(d: seq<int>, vis: seq<bool>, queue: seq<int>, qr: nat, k: nat, v: nat,
      d': seq<int>, queue': seq<int>)
    requires LevelsGoUp(d, queue, qr, k) && qr < |queue| && |vis| == |d| && v < |d| && !vis[v]
    requires forall j :: 0 <= j < qr ==> vis[queue[j]]
    requires d' == d[v := d[queue[k]] + 1] && queue' == queue[qr := v]
    ensures LevelsGoUp(d', queue', qr + 1, k)
  {
    forall j | 0 <= j < qr ensures d'[queue'[j]] == d[queue[j]] {
    }
  }

  lemma QueuedLevel(S: Search, k: nat, v: nat)
    requires Front(S, k) && v < S.n && S.vis[v]
    ensures S.d[v] <= S.d[S.queue[k]] + 1
  {
    assert Queued(S.queue, S.qr, v);
    var j :| 0 <= j < S.qr && S.queue[j] == v;
    assert S.d[S.queue[j]] <= S.d[S.queue[S.qr - 1]];
  }

  lemma OneMore(n: nat, es: Edges, e: Edge, head: seq<int>, nxt: seq<int>, head': seq<int>, nxt': seq<int>)
    requires Lists(n, es, head, nxt) && |es| < |nxt| && e.from < n
    requires head' == head[e.from := |es|] && nxt' == nxt[|es| := head[e.from]]
    ensures Lists(n, es + [e], head', nxt')
  {
    var es' := es + [e];
    forall x | 0 <= x < n ensures head'[x] == Prev(es', |es'|, x) { PrevSame(es, es', |es|, x); }
    forall i | 0 <= i < |es'| ensures nxt'[i] == Prev(es', i, es'[i].from) { PrevSame(es, es', i, es'[i].from); }
  }

  lemma PairAdded(n: nat, es: Edges, u: nat, v: nat, c: int)
    requires Network(n, es) && Feasible(es) && u < n && v < n && c >= 0
    ensures Network(n, es + [Edge(u, v, c, 0)] + [Edge(v, u, 0, 0)])
    ensures Feasible(es + [Edge(u, v, c, 0)] + [Edge(v, u, 0, 0)])
  {
    var es' := es + [Edge(u, v, c, 0)] + [Edge(v, u, 0, 0)];
    forall i | 0 <= i < |es| ensures Partner(i) < |es| && es'[Partner(i)] == es[Partner(i)] && es'[i] == es[i] { }
  }

  // ---------------------------------------------------------------------------
  // The breadth-first search
  // ---------------------------------------------------------------------------

  ghost predicate Queued(queue: seq<int>, qr: nat, v: nat)
    requires qr <= |queue|
  {
    exists k :: 0 <= k < qr && queue[k] == v
  }

  /** A breadth-first search from `s` under way: levels, marks, the queue, and for each vertex found
      the edge it was found by. */
  datatype SearchState =
    SearchState(n: nat, es: Edges, s: nat, d: seq<int>, vis: seq<bool>, queue: seq<int>, qr: nat, par: seq<nat>)

  /** The queue holds the visited vertices, each once, and a vertex's level is at most its place in it. */
  ghost predicate Searched(S: SearchState) {
    && Network(S.n, S.es)
    && |S.d| == |S.vis| == |S.queue| == |S.par| == S.n && S.qr <= S.n && S.s < S.n && S.vis[S.s] && S.d[S.s] == 0
    && (forall i, j :: 0 <= i < j < S.qr ==> S.queue[i] != S.queue[j])
    && (forall k :: 0 <= k < S.qr ==> 0 <= S.queue[k] < S.n && S.vis[S.queue[k]] && 0 <= S.d[S.queue[k]] <= k)
    && (forall v :: 0 <= v < S.n && S.vis[v] ==> Queued(S.queue, S.qr, v))
    && Entered(S.es, S.d, S.vis, S.s, S.par)
  }

  lemma SearchedSomewhere()
    ensures Searched(SearchState(1, [], 0, [0], [true], [0], 1, [0]))
  {
    assert [0][0] == 0 && Queued([0], 1, 0);
  }

  type Search = S: SearchState | Searched(S)
    ghost witness (SearchedSomewhere(); SearchState(1, [], 0, [0], [true], [0], 1, [0]))

  ghost function SearchStart(n: nat, es: Edges, s: nat, d: seq<int>, vis: seq<bool>, queue: seq<int>): (S: Search)
    requires Network(n, es) && |d| == |vis| == |queue| == n && s < n && d[s] == 0 && queue[0] == s
    requires forall v :: 0 <= v < n ==> (vis[v] <==> v == s)
    ensures (S.n, S.es, S.s, S.d, S.vis, S.queue, S.qr) == (n, es, s, d, vis, queue, 1)
  {
    assert Queued(queue, 1, s);
    SearchState(n, es, s, d, vis, queue, 1, seq(n, _ => 0))
  }

  ghost const ONE_VERTEX: Search := SearchStart(1, [], 0, [0], [true], [0])

  /** A residual edge from the vertex at place `k` to an unvisited one extends the search. */
  ghost function Discover(S: Search, k: nat, i: nat): (next: Search)
    requires k < S.qr && i < |S.es| && S.es[i].from == S.queue[k] && Opens(S.es, S.vis, i)
    ensures S.qr < S.n
    ensures next == S.(d := S.d[S.es[i].to := S.d[S.queue[k]] + 1], vis := S.vis[S.es[i].to := true],
                       queue := S.queue[S.qr := S.es[i].to], qr := S.qr + 1, par := S.par[S.es[i].to := i])
  {
    var v := S.es[i].to;
    DiscoverKeeps(S.n, S.es, S.d, S.vis, S.queue, S.qr, S.s, S.par, k, i);
    SearchState(S.n, S.es, S.s, S.d[v := S.d[S.queue[k]] + 1], S.vis[v := true], S.queue[S.qr := v], S.qr + 1,
      S.par[v := i])
  }

  lemma DiscoverKeeps(n: nat, es: Edges, d: seq<int>, vis: seq<bool>, queue: seq<int>, qr: nat, s: nat, par: seq<nat>,
                      k: nat, i: nat)
    requires Searched(SearchState(n, es, s, d, vis, queue, qr, par))
    requires k < qr && i < |es| && es[i].from == queue[k] && es[i].Residual() > 0 && !vis[es[i].to]
    ensures qr < n
    ensures var v := es[i].to;
            Searched(SearchState(n, es, s, d[v := d[queue[k]] + 1], vis[v := true], queue[qr := v], qr + 1,
              par[v := i]))
  {
    var v := es[i].to;
    QueueGrows(n, vis, queue, qr, v);
    EnteredGrows(n, es, d, vis, s, par, i);
  }

  /** An unvisited vertex fits in the queue, which then lists it too. */
  lemma QueueGrows(n: nat, vis: seq<bool>, queue: seq<int>, qr: nat, v: nat)
    requires |vis| == |queue| == n && qr <= n && v < n && !vis[v]
    requires forall i, j :: 0 <= i < j < qr ==> queue[i] != queue[j]
    requires forall k :: 0 <= k < qr ==> 0 <= queue[k] < n && vis[queue[k]]
    requires forall w :: 0 <= w < n && vis[w] ==> Queued(queue, qr, w)
    ensures qr < n
    ensures forall w :: 0 <= w < n && (vis[w] || w == v) ==> Queued(queue[qr := v], qr + 1, w)
  {
    DistinctBelow(queue[..qr] + [v], n);
    var queue' := queue[qr := v];
    forall w | 0 <= w < n && (vis[w] || w == v) ensures Queued(queue', qr + 1, w) {
      if w == v {
        assert queue'[qr] == w;
      } else {
        assert Queued(queue, qr, w);
        var j :| 0 <= j < qr && queue[j] == w;
        assert queue'[j] == w;
      }
    }
  }

  lemma EnteredGrows(n: nat, es: Edges, d: seq<int>, vis: seq<bool>, s: nat, par: seq<nat>, i: nat)
    requires Network(n, es) && |d| == |vis| == |par| == n && Entered(es, d, vis, s, par)
    requires i < |es| && vis[es[i].from] && es[i].Residual() > 0 && !vis[es[i].to]
    ensures var v := es[i].to;
            Entered(es, d[v := d[es[i].from] + 1], vis[v := true], s, par[v := i])
  {
    var v := es[i].to;
    var d', vis', par' := d[v := d[es[i].from] + 1], vis[v := true], par[v := i];
    forall w | 0 <= w < n && vis'[w] && w != s ensures Into(es, d', vis', w, par'[w]) {
      if w == v {
        assert LevelEdge(d', es[i]);
      } else {
        assert Into(es, d, vis, w, par[w]);
      }
    }
  }

  /** The outer loop: the first `qf` vertices of the queue are expanded. */
  datatype ExpansionState = ExpansionState(S: Search, qf: nat)

  ghost predicate InExpansion(b: ExpansionState) {
    && b.qf <= b.S.qr && Expanded(b.S.es, b.S.d, b.S.vis, b.S.queue, b.qf)
    && (b.qf < b.S.qr ==> Front(b.S, b.qf))
  }

  ghost function MakeExpansion(S: Search, qf: nat): (b: Expansion)
    requires qf <= S.qr && Expanded(S.es, S.d, S.vis, S.queue, qf) && (qf < S.qr ==> Front(S, qf))
    ensures b == ExpansionState(S, qf)
  {
    ExpansionState(S, qf)
  }

  lemma NothingExpanded(S: Search)
    requires S.qr == 1
    ensures InExpansion(ExpansionState(S, 0))
  {
  }

  type Expansion = b: ExpansionState | InExpansion(b)
    ghost witness (NothingExpanded(ONE_VERTEX); ExpansionState(ONE_VERTEX, 0))

  lemma ExpansionStart(n: nat, es: Edges, s: nat, d: seq<int>, vis: seq<bool>, queue: seq<int>) returns (b: Expansion)
    requires Network(n, es) && |d| == |vis| == |queue| == n && s < n && d[s] == 0 && queue[0] == s
    requires forall v :: 0 <= v < n ==> (vis[v] <==> v == s)
    ensures (b.S.n, b.S.es, b.S.s, b.S.d, b.S.vis, b.S.queue, b.S.qr, b.qf) == (n, es, s, d, vis, queue, 1, 0)
  {
    var S := SearchStart(n, es, s, d, vis, queue);
    NothingExpanded(S);
    b := ExpansionState(S, 0);
  }

  lemma InQueue(b: Expansion)
    ensures b.qf <= b.S.qr <= b.S.n && (b.qf < b.S.qr ==> Front(b.S, b.qf))
  {
  }

  lemma ExpansionNext(b: Expansion, S: Search) returns (b': Expansion)
    requires b.qf < b.S.qr <= S.qr && S.es == b.S.es && Front(S, b.qf)
    requires Kept(b.S.queue, S.queue, b.S.qr) && More(b.S.d, b.S.vis, S.d, S.vis)
    requires Scanned(S.es, S.d, S.vis, S.queue[b.qf], -1)
    ensures b' == ExpansionState(S, b.qf + 1)
  {
    ExpandedNext(S.es, b.S.d, b.S.vis, b.S.queue, S.d, S.vis, S.queue, b.qf, b.S.qr);
    if b.qf + 1 < S.qr { FrontNext(S.d, S.queue, S.qr, b.qf); }
    b' := MakeExpansion(S, b.qf + 1);
  }

  lemma SearchDone(b: Expansion)
    requires b.qf == b.S.qr
    ensures var S := b.S;
            && Levelled(S.n, S.d, S.vis) && Shallow(S.n, S.es, S.d, S.vis) && S.vis[S.s] && S.d[S.s] == 0
            && Distances(S.n, S.es, S.s, S.d, S.vis) && Entered(S.es, S.d, S.vis, S.s, S.par)
  {
    var S := b.S;
    forall v | 0 <= v < S.n && S.vis[v]
      ensures 0 <= S.d[v] < S.n && Scanned(S.es, S.d, S.vis, v, -1)
    {
      assert Queued(S.queue, S.qr, v);
      var k :| 0 <= k < S.qr && S.queue[k] == v;
    }
    LevelsAreDistances(S.n, S.es, S.d, S.vis, S.s, S.par);
  }

  // ---------------------------------------------------------------------------
  // A blocking phase
  // ---------------------------------------------------------------------------

  /** A feasible flow and the levels of the search that found no residual edge out of the marked vertices. */
  datatype PhaseState =
    PhaseState(n: nat, es: Edges, head: seq<int>, nxt: seq<int>, d: seq<int>, vis: seq<bool>, t: nat)

  ghost predicate InPhase(P: PhaseState) {
    && Network(P.n, P.es) && Lists(P.n, P.es, P.head, P.nxt) && Feasible(P.es)
    && Levelled(P.n, P.d, P.vis) && Shallow(P.n, P.es, P.d, P.vis)
  }

  type Phase = P: PhaseState | InPhase(P) ghost witness PhaseState(0, [], [], [], [], [], 0)

  /** From `P` to `Q` a flow of `r` was sent from `x` to the sink. */
  ghost predicate Sent(P: Phase, Q: Phase, x: nat, r: int) {
    x < P.n && Q == P.(es := Q.es) && Effect(P.es, Q.es, P.d, P.vis, P.d[x], x, P.t, r)
  }

  lemma SomePhase()
    ensures InPhase(PhaseState(1, [], [-1], [], [0], [true], 0))
  {
  }

  ghost const NO_EDGES: Phase := (SomePhase(); PhaseState(1, [], [-1], [], [0], [true], 0))

  datatype SendState = SendState(P: Phase, Q: Phase, x: nat, r: int)

  type Send = T: SendState | Sent(T.P, T.Q, T.x, T.r) ghost witness SendState(NO_EDGES, NO_EDGES, 0, 0)

  /** Nothing sent, or sent at the sink itself. */
  ghost function SendAtOnce(P: Phase, x: nat, a: nat): (T: Send)
    requires x < P.n && (x == P.t || a == 0)
    ensures T.P == T.Q == P && T.x == x && T.r == a
  {
    SendState(P, P, x, a)
  }

  /** Nothing more can be sent over the edges out of `x` behind edge `i`. */
  ghost predicate SpentBehind(P: Phase, x: nat, i: int) {
    forall j :: i < j < |P.es| && j >= 0 && P.es[j].from == x ==> Spent(P.es, P.d, j, P.t)
  }

  lemma SpentStart(P: Phase, x: nat)
    requires x < P.n
    ensures SpentBehind(P, x, P.head[x])
  {
    forall j | P.head[x] < j < |P.es| && j >= 0 ensures P.es[j].from != x {
      PrevIsLast(P.es, |P.es|, x, j);
    }
  }

  /** The current edge still leaves `x`, and its head is marked if anything can be sent. */
  lemma EdgeEnds(T: Send, i: nat)
    requires i < |T.P.es| && T.P.es[i].from == T.x && T.P.vis[T.x]
    ensures i < |T.Q.es| && T.Q.es[i].from == T.x && T.Q.es[i].to < T.P.n && T.Q.es[i].Residual() >= 0
    ensures T.Q.es[i].Residual() > 0 ==> T.P.vis[T.Q.es[i].to]
    ensures T.P.head == T.Q.head && Prev(T.P.es, i, T.x) == Prev(T.Q.es, i, T.x)
  {
    PrevSame(T.P.es, T.Q.es, i, T.x);
  }

  /** The child's flow followed by the push. */
  lemma Augment(P: Phase, C: Phase, i: nat, f: nat) returns (Q: Phase)
    requires i < |P.es| && LevelEdge(P.d, P.es[i]) && 0 < f <= P.es[i].Residual()
    requires P.vis[P.es[i].from] && P.vis[P.es[i].to] && Sent(P, C, P.es[i].to, f)
    ensures i < |C.es| && C.es[i] == P.es[i] && Q == C.(es := Push(C.es, i, f)) && Sent(P, Q, P.es[i].from, f)
  {
    EffectPush(P.n, P.es, C.es, P.d, P.vis, i, P.t, f);
    var es := Push(C.es, i, f);
    PushFeasible(P.n, C.es, i, f);
    ListsSame(P.n, C.es, es, P.head, P.nxt);
    EffectShallow(P.n, P.es, es, P.d, P.vis, P.d[P.es[i].from], P.es[i].from, P.t, f);
    Q := PhaseState(P.n, es, P.head, P.nxt, P.d, P.vis, P.t);
  }

  lemma SpentNext(P: Phase, Q: Phase, x: nat, i: nat, r: int)
    requires Sent(P, Q, x, r) && i < |P.es| && P.es[i].from == x && SpentBehind(P, x, i) && Spent(Q.es, Q.d, i, Q.t)
    ensures SpentBehind(Q, x, Prev(P.es, i, x))
  {
    forall j | Prev(P.es, i, x) < j < i && j >= 0 ensures Q.es[j].from != x {
      PrevIsLast(P.es, i, x, j);
    }
    forall j | i < j < |P.es| && P.es[j].from == x ensures Spent(Q.es, Q.d, j, Q.t) {
      EffectSpent(P.es, Q.es, P.d, P.vis, P.d[x], x, P.t, r, j);
    }
  }

  /** What was sent before and what is sent now. */
  lemma SendMore(T: Send, Q: Phase, f: nat) returns (N: Send)
    requires T.r >= 0 && Sent(T.Q, Q, T.x, f)
    ensures N == SendState(T.P, Q, T.x, T.r + f)
  {
    EffectTrans(T.P.es, T.Q.es, Q.es, Q.d, Q.vis, Q.d[T.x], T.x, Q.t, T.r, f);
    N := SendState(T.P, Q, T.x, T.r + f);
  }

  /** The body of DFS's loop for a level edge, after the child's answer: push what the child sent.
      An edge that was filled, or whose head gave less than asked for, is spent. */
  lemma TakeEdge(T: Send, C: Send, i: nat, rest: nat) returns (N: Send)
    requires C.P == T.Q && i < |T.Q.es| && T.Q.es[i].from == T.x && C.x == T.Q.es[i].to && T.r >= 0
    requires LevelEdge(T.Q.d, T.Q.es[i]) && T.Q.vis[T.x] && SpentBehind(T.Q, T.x, i)
    requires 0 <= C.r <= Min(rest, T.Q.es[i].Residual()) && (C.r > 0 ==> T.Q.vis[C.x])
    requires C.r < Min(rest, T.Q.es[i].Residual()) ==> Dead(C.Q.es, T.Q.d, C.x, T.Q.t)
    ensures N.P == T.P && N.x == T.x && N.r == T.r + C.r && i < |C.Q.es| && |C.Q.es| % 2 == 0
    ensures N.Q == if C.r > 0 then C.Q.(es := Push(C.Q.es, i, C.r)) else C.Q
    ensures C.r < rest ==> SpentBehind(N.Q, T.x, Prev(T.Q.es, i, T.x))
  {
    if C.r == 0 {
      N := T;
      if rest > 0 {
        SpentNext(T.Q, T.Q, T.x, i, 0);
      }
    } else {
      var Q := Augment(T.Q, C.Q, i, C.r);
      N := SendMore(T, Q, C.r);
      if C.r < rest {
        PushSpends(Q.n, C.Q.es, Q.d, i, Q.t, C.r);
        SpentNext(T.Q, Q, T.x, i, C.r);
      }
    }
  }

  // ---------------------------------------------------------------------------
  // The phases together
  // ---------------------------------------------------------------------------

  function Marked(vis: seq<bool>): set<nat> {
    set v: nat | v < |vis| && vis[v]
  }

  /** `es` is a flow in the network of `es0`, worth `flow` more than that of `es0`. */
  ghost predicate Improves(n: nat, es0: Edges, es: Edges, s: nat, t: nat, flow: int) {
    IsFlow(n, es0, es, s, t) && flow == Out(es, s) - Out(es0, s)
  }

  /** A search that reached the sink is followed by a phase that sends something. */
  lemma PhaseImproves(T: Send, es0: Edges, s: nat, flow: int, par: seq<nat>)
    requires T.x == s && s != T.P.t && T.P.t < T.P.n && T.P.vis[T.P.t] && 0 <= T.r
    requires Entered(T.P.es, T.P.d, T.P.vis, s, par) && Improves(T.P.n, es0, T.P.es, s, T.P.t, flow)
    requires T.r == 0 ==> Dead(T.Q.es, T.P.d, s, T.P.t)
    ensures T.r > 0 && Improves(T.P.n, es0, T.Q.es, s, T.P.t, flow + T.r)
    ensures Out(T.P.es, s) < Out(T.Q.es, s) <= SourceCapacity(es0, s)
  {
    var P, Q := T.P, T.Q;
    assert Reach(P.es, P.d, P.t, P.t, 0);
    EnteredReach(P.n, P.es, P.d, P.vis, s, par, P.t, P.t, 0);
    OutBelowSource(Q.es, s);
    SameSource(es0, Q.es, s);
  }

  /** When the search misses the sink, the marked vertices are a full cut. */
  lemma SearchFailed(n: nat, es: Edges, vis: seq<bool>, s: nat, t: nat)
    requires Network(n, es) && Feasible(es) && Conserved(n, es, s, t) && Closed(n, es, vis)
    requires s < n && t < n && vis[s] && !vis[t]
    ensures CutCapacity(es, Marked(vis)) == Out(es, s)
    ensures forall g :: IsFlow(n, es, g, s, t) ==> Out(g, s) <= Out(es, s)
  {
    CutBound(n, es, s, t, Marked(vis));
    forall g | IsFlow(n, es, g, s, t) ensures Out(g, s) <= Out(es, s) {
      FullCutIsMaximum(n, es, s, t, Marked(vis), g);
    }
  }

  /** Edges as AddEdge makes them carry the empty flow. */
  lemma {:induction false} NoFlowYet(n: nat, es: Edges, s: nat, t: nat)
    requires forall i :: 0 <= i < |es| ==> es[i].flow == 0
    ensures Conserved(n, es, s, t) && Out(es, s) == 0
  {
    forall v: nat ensures Out(es, v) == 0 { NoFlowOut(es, v); }
  }

  lemma {:induction false} NoFlowOut(es: Edges, v: nat)
    requires forall i :: 0 <= i < |es| ==> es[i].flow == 0
    ensures Out(es, v) == 0
  {
    if es != [] {
      NoFlowOut(es[..|es| - 1], v);
    }
  }
}
