/** Flow networks with paired edges: conservation, cuts, and pushing flow along an edge. */
module FlowNetwork {

  datatype Edge = Edge(from: nat, to: nat, cap: int, flow: int) {
    function Residual(): int { cap - flow }
  }

  type Edges = seq<Edge>

  /** i ^ 1 */
  function Partner(i: nat): nat {
    if i % 2 == 0 then i + 1 else i - 1
  }

  lemma PartnerInverse(i: nat, j: nat)
    ensures Partner(Partner(i)) == i && Partner(i) != i
    ensures Partner(j) == i <==> j == Partner(i)
  {
  }

  /** Edges come in pairs that are each other's reverse. */
  ghost predicate Network(n: nat, es: Edges) {
    && |es| % 2 == 0
    && (forall i :: 0 <= i < |es| ==> es[i].from < n && es[i].to < n && es[i].cap >= 0)
    && forall i {:trigger Partner(i)} :: 0 <= i < |es| ==>
         es[Partner(i)].from == es[i].to && es[Partner(i)].to == es[i].from
  }

  /** Within capacity, and paired edges carry opposite flows. */
  ghost predicate Feasible(es: Edges) {
    && |es| % 2 == 0
    && (forall i :: 0 <= i < |es| ==> es[i].flow <= es[i].cap)
    && forall i {:trigger Partner(i)} :: 0 <= i < |es| ==> es[Partner(i)].flow == -es[i].flow
  }

  /** Net flow out of a vertex. */
  function Out(es: Edges, v: nat): int {
    if es == [] then 0
    else Out(es[..|es| - 1], v) + if es[|es| - 1].from == v then es[|es| - 1].flow else 0
  }

  /** Every vertex but the source and the sink is balanced. */
  ghost predicate Conserved(n: nat, es: Edges, s: nat, t: nat) {
    forall v :: 0 <= v < n && v != s && v != t ==> Out(es, v) == 0
  }

  ghost predicate SameNetwork(a: Edges, b: Edges) {
    && |a| == |b|
    && forall i :: 0 <= i < |a| ==> a[i].from == b[i].from && a[i].to == b[i].to && a[i].cap == b[i].cap
  }

  /** A flow from `s` to `t` in the network of `es`. */
  ghost predicate IsFlow(n: nat, es: Edges, g: Edges, s: nat, t: nat) {
    SameNetwork(es, g) && Feasible(g) && Conserved(n, g, s, t)
  }

  // ---------------------------------------------------------------------------
  // Cuts
  // ---------------------------------------------------------------------------

  predicate Crosses(e: Edge, side: set<nat>) {
    e.from in side && e.to !in side
  }

  function CutFlow(es: Edges, side: set<nat>): int {
    if es == [] then 0
    else CutFlow(es[..|es| - 1], side) + if Crosses(es[|es| - 1], side) then es[|es| - 1].flow else 0
  }

  /** The capacity of the cut between `side` and the other vertices. */
  function CutCapacity(es: Edges, side: set<nat>): int {
    if es == [] then 0
    else CutCapacity(es[..|es| - 1], side) + if Crosses(es[|es| - 1], side) then es[|es| - 1].cap else 0
  }

  /** Flow on the edges that start in `side` at a vertex below `k`. */
  function SideFlow(es: Edges, side: set<nat>, k: nat): int {
    if es == [] then 0
    else SideFlow(es[..|es| - 1], side, k)
         + if es[|es| - 1].from in side && es[|es| - 1].from < k then es[|es| - 1].flow else 0
  }

  lemma {:induction false} SideFlowStep(es: Edges, side: set<nat>, k: nat)
    ensures SideFlow(es, side, k + 1) == SideFlow(es, side, k) + if k in side then Out(es, k) else 0
    ensures SideFlow(es, side, 0) == 0
  {
    if es != [] {
      SideFlowStep(es[..|es| - 1], side, k);
    }
  }

  /** Summed over the vertices of the side, only the source contributes. */
  lemma {:induction false} SideFlowIsOut(n: nat, es: Edges, s: nat, t: nat, side: set<nat>, k: nat)
    requires Conserved(n, es, s, t) && s in side && t !in side && k <= n
    ensures SideFlow(es, side, k) == if s < k then Out(es, s) else 0
  {
    SideFlowStep(es, side, if k == 0 then 0 else k - 1);
    if k > 0 {
      SideFlowIsOut(n, es, s, t, side, k - 1);
    }
  }

  lemma FrontFeasible(n: nat, es: Edges)
    requires Network(n, es) && Feasible(es) && |es| >= 2
    ensures Network(n, es[..|es| - 2]) && Feasible(es[..|es| - 2])
  {
    var r := es[..|es| - 2];
    forall i | 0 <= i < |r|
      ensures Partner(i) < |r| && r[Partner(i)] == es[Partner(i)]
    {
    }
  }

  /** Edges inside the side cancel in pairs; what remains is the flow across the cut. */
  lemma {:induction false} SideFlowIsCutFlow(n: nat, es: Edges, side: set<nat>)
    requires Network(n, es) && Feasible(es)
    ensures SideFlow(es, side, n) == CutFlow(es, side)
    decreases |es|
  {
    if es != [] {
      var a, b := es[|es| - 2], es[|es| - 1];
      assert Partner(|es| - 2) == |es| - 1;
      var front, mid := es[..|es| - 2], es[..|es| - 1];
      assert mid[..|mid| - 1] == front && mid[|mid| - 1] == a;
      FrontFeasible(n, es);
      SideFlowIsCutFlow(n, front, side);
    }
  }

  lemma {:induction false} CutFlowBelowCapacity(es: Edges, side: set<nat>)
    requires forall i :: 0 <= i < |es| ==> es[i].flow <= es[i].cap
    ensures CutFlow(es, side) <= CutCapacity(es, side)
    ensures CutFlow(es, side) == CutCapacity(es, side) <==>
              forall i :: 0 <= i < |es| && Crosses(es[i], side) ==> es[i].flow == es[i].cap
  {
    if es != [] {
      CutFlowBelowCapacity(es[..|es| - 1], side);
    }
  }

  /** Weak duality: no flow exceeds the capacity of a cut, and it reaches it exactly when every
      edge across the cut is full. */
  lemma CutBound(n: nat, es: Edges, s: nat, t: nat, side: set<nat>)
    requires Network(n, es) && Feasible(es) && Conserved(n, es, s, t)
    requires s < n && s in side && t !in side
    ensures Out(es, s) <= CutCapacity(es, side)
    ensures Out(es, s) == CutCapacity(es, side) <==>
              forall i :: 0 <= i < |es| && Crosses(es[i], side) ==> es[i].flow == es[i].cap
  {
    SideFlowIsOut(n, es, s, t, side, n);
    SideFlowIsCutFlow(n, es, side);
    CutFlowBelowCapacity(es, side);
  }

  lemma {:induction false} SameCapacity(a: Edges, b: Edges, side: set<nat>)
    requires SameNetwork(a, b)
    ensures CutCapacity(a, side) == CutCapacity(b, side)
  {
    if a != [] {
      SameCapacity(a[..|a| - 1], b[..|b| - 1], side);
    }
  }

  lemma SameIsNetwork(n: nat, a: Edges, b: Edges)
    requires Network(n, a) && SameNetwork(a, b)
    ensures Network(n, b)
  {
  }

  /** A flow that fills a cut is maximum, and the cut is minimum. */
  lemma FullCutIsMaximum(n: nat, es: Edges, s: nat, t: nat, side: set<nat>, g: Edges)
    requires Network(n, es) && Feasible(es) && Conserved(n, es, s, t)
    requires s < n && s in side && t !in side
    requires forall i :: 0 <= i < |es| && Crosses(es[i], side) ==> es[i].flow == es[i].cap
    requires IsFlow(n, es, g, s, t)
    ensures Out(g, s) <= Out(es, s) == CutCapacity(es, side)
  {
    CutBound(n, es, s, t, side);
    SameIsNetwork(n, es, g);
    CutBound(n, g, s, t, side);
    SameCapacity(es, g, side);
  }

  /** The source cannot send more than its edges carry. */
  function SourceCapacity(es: Edges, s: nat): int {
    if es == [] then 0
    else SourceCapacity(es[..|es| - 1], s) + if es[|es| - 1].from == s then es[|es| - 1].cap else 0
  }

  lemma {:induction false} OutBelowSource(es: Edges, s: nat)
    requires forall i :: 0 <= i < |es| ==> es[i].flow <= es[i].cap
    ensures Out(es, s) <= SourceCapacity(es, s)
  {
    if es != [] {
      OutBelowSource(es[..|es| - 1], s);
    }
  }

  lemma {:induction false} SameSource(a: Edges, b: Edges, s: nat)
    requires SameNetwork(a, b)
    ensures SourceCapacity(a, s) == SourceCapacity(b, s)
  {
    if a != [] {
      SameSource(a[..|a| - 1], b[..|b| - 1], s);
    }
  }

  // ---------------------------------------------------------------------------
  // Pushing
  // ---------------------------------------------------------------------------

  /** e.flow += f and edges[i^1].flow -= f */
  function Push(es: Edges, i: nat, f: int): (r: Edges)
    requires i < |es| && |es| % 2 == 0
    ensures |r| == |es|
  {
    var es1 := es[i := es[i].(flow := es[i].flow + f)];
    es1[Partner(i) := es1[Partner(i)].(flow := es1[Partner(i)].flow - f)]
  }

  lemma {:induction false} OutOfUpdate(es: Edges, i: nat, e: Edge, v: nat)
    requires i < |es| && e.from == es[i].from
    ensures Out(es[i := e], v) == Out(es, v) + if e.from == v then e.flow - es[i].flow else 0
  {
    var r := es[i := e];
    if i < |es| - 1 {
      assert r[..|r| - 1] == es[..|es| - 1][i := e];
      OutOfUpdate(es[..|es| - 1], i, e, v);
    } else {
      assert r[..|r| - 1] == es[..|es| - 1];
    }
  }

  lemma PushOut(n: nat, es: Edges, i: nat, f: int, v: nat)
    requires Network(n, es) && i < |es|
    ensures Out(Push(es, i, f), v) ==
              Out(es, v) + (if es[i].from == v then f else 0) - (if es[i].to == v then f else 0)
  {
    var es1 := es[i := es[i].(flow := es[i].flow + f)];
    OutOfUpdate(es, i, es1[i], v);
    OutOfUpdate(es1, Partner(i), es1[Partner(i)].(flow := es1[Partner(i)].flow - f), v);
  }

  /** What pushing writes: the edge, its partner, and nothing else. */
  lemma PushAt(es: Edges, i: nat, f: int, j: nat)
    requires |es| % 2 == 0 && i < |es| && j < |es|
    ensures var r := Push(es, i, f);
            && r[j].from == es[j].from && r[j].to == es[j].to && r[j].cap == es[j].cap
            && r[j].flow == es[j].flow + if j == i then f else if j == Partner(i) then -f else 0
  {
  }

  lemma PushFeasible(n: nat, es: Edges, i: nat, f: int)
    requires Network(n, es) && Feasible(es) && i < |es| && 0 <= f <= es[i].Residual()
    ensures SameNetwork(es, Push(es, i, f)) && Network(n, Push(es, i, f)) && Feasible(Push(es, i, f))
  {
    var r := Push(es, i, f);
    forall j | 0 <= j < |es|
      ensures r[j].from == es[j].from && r[j].to == es[j].to && r[j].cap == es[j].cap && r[j].flow <= r[j].cap
    {
      PushAt(es, i, f, j);
    }
    forall j | 0 <= j < |es| ensures r[Partner(j)].flow == -r[j].flow {
      PushOpposite(es, i, f, j);
    }
    SameIsNetwork(n, es, r);
  }

  lemma PushOpposite(es: Edges, i: nat, f: int, j: nat)
    requires Feasible(es) && i < |es| && j < |es|
    ensures Push(es, i, f)[Partner(j)].flow == -Push(es, i, f)[j].flow
  {
    PushAt(es, i, f, j);
    PushAt(es, i, f, Partner(j));
    PartnerInverse(i, j);
  }
}
