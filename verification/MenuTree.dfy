/** menu_finalize on the linked menu nodes, and the walk over them that writes the configuration. */
module MenuTree {
  import opened MenuForest
  import opened MenuPlacement

  /** The next, list and parent pointers of all nodes; -1 is NULL. */
  datatype Heap = Heap(next: seq<int>, list: seq<int>, parent: seq<int>)

  function Head(f: Forest, tail: int): int {
    match f
    case Nil => tail
    case Node(id, _, _) => id
  }

  function LastId(f: Forest): nat
    requires f.Node?
  {
    if f.rest == Nil then f.id else LastId(f.rest)
  }

  /** The pointers show the list `f` below node `p`, up to a node `tail` that follows it. */
  ghost predicate Shows(h: Heap, f: Forest, p: int, tail: int) {
    match f
    case Nil => true
    case Node(id, c, r) =>
      && id < |h.next| && id < |h.list| && id < |h.parent|
      && h.parent[id] == p && h.list[id] == Head(c, -1) && h.next[id] == Head(r, tail)
      && Shows(h, c, id, -1) && Shows(h, r, p, tail)
  }

  /** Only the pointers of the nodes `s` differ. */
  ghost predicate Within(h: Heap, g: Heap, s: set<nat>) {
    && |g.next| == |h.next| && |g.list| == |h.list| && |g.parent| == |h.parent|
    && (forall i: nat :: i < |h.next| && i !in s ==> g.next[i] == h.next[i])
    && (forall i: nat :: i < |h.list| && i !in s ==> g.list[i] == h.list[i])
    && (forall i: nat :: i < |h.parent| && i !in s ==> g.parent[i] == h.parent[i])
  }

  lemma {:induction false} ShowsElsewhere(h: Heap, g: Heap, s: set<nat>, f: Forest, p: int, tail: int)
    requires Shows(h, f, p, tail) && Within(h, g, s) && Ids(f) !! s
    ensures Shows(g, f, p, tail)
  {
    match f
    case Nil =>
    case Node(id, c, r) =>
      assert id in Ids(f);
      ShowsElsewhere(h, g, s, c, id, -1);
      ShowsElsewhere(h, g, s, r, p, tail);
  }

  /** Parent pointers show parents. */
  lemma {:induction false} ParentShown(h: Heap, f: Forest, p: nat, tail: int, x: nat, q: nat)
    requires Shows(h, f, p, tail) && IsParent(f, p, x, q)
    ensures x < |h.parent| && h.parent[x] == q
  {
    if x == f.id && q == p {
    } else if IsParent(f.children, f.id, x, q) {
      ParentShown(h, f.children, f.id, -1, x, q);
    } else {
      ParentShown(h, f.rest, p, tail, x, q);
    }
  }

  /** A node whose children were rearranged among themselves. */
  lemma ShowsNode(h: Heap, g: Heap, f: Forest, c: Forest, p: int)
    requires f.Node? && Unique(f) && Shows(h, f, p, -1) && Within(h, g, Ids(f.children))
    requires Shows(g, c, f.id, -1) && Head(c, -1) == Head(f.children, -1)
    ensures Shows(g, Node(f.id, c, f.rest), p, -1)
  {
    ShowsElsewhere(h, g, Ids(f.children), f.rest, p, -1);
  }

  lemma {:induction false} ShowsAppend(h: Heap, a: Forest, b: Forest, p: int, tail: int)
    ensures Shows(h, Append(a, b), p, tail) <==> Shows(h, a, p, Head(b, tail)) && Shows(h, b, p, tail)
  {
    if a.Node? { ShowsAppend(h, a.rest, b, p, tail); }
  }

  lemma {:induction false} LastIdIn(f: Forest)
    requires f.Node?
    ensures LastId(f) in Ids(f)
  {
    if f.rest.Node? { LastIdIn(f.rest); }
  }

  /** Writing the next pointer of the last node moves the tail. */
  lemma {:induction false} MoveTail(h: Heap, f: Forest, p: int, tail: int, tail': int)
    requires f.Node? && Unique(f) && Shows(h, f, p, tail) && LastId(f) < |h.next|
    ensures h.next[LastId(f)] == tail
    ensures Shows(h.(next := h.next[LastId(f) := tail']), f, p, tail')
  {
    var g := h.(next := h.next[LastId(f) := tail']);
    LastIdIn(f);
    if f.rest == Nil {
      ShowsElsewhere(h, g, {f.id}, f.children, f.id, -1);
    } else {
      LastIdIn(f.rest);
      MoveTail(h, f.rest, p, tail, tail');
      ShowsElsewhere(h, g, {LastId(f)}, f.children, f.id, -1);
    }
  }

  lemma WithinTwice(h: Heap, g: Heap, k: Heap, s: set<nat>, t: set<nat>, u: set<nat>)
    requires Within(h, g, s) && Within(g, k, t) && s <= u && t <= u
    ensures Within(h, k, u)
  {
  }

  // ---------------------------------------------------------------------------
  // Steps of the three loops
  // ---------------------------------------------------------------------------

  /** A list being worked through: the part done, below `p`, and the rest, still below `q`. */
  datatype WorkState = WorkState(h: Heap, done: Forest, cur: Forest, p: int, q: int)

  ghost predicate Halfway(x: WorkState) {
    && Shows(x.h, x.done, x.p, Head(x.cur, -1)) && Shows(x.h, x.cur, x.q, -1)
    && Unique(x.done) && Unique(x.cur) && Ids(x.done) !! Ids(x.cur)
  }

  type Work = x: WorkState | Halfway(x) ghost witness WorkState(Heap([], [], []), Nil, Nil, 0, 0)

  /** The whole list as it will be. */
  ghost function All(x: Work): set<nat> {
    Ids(x.done) + Ids(x.cur)
  }

  ghost function StartWork(h: Heap, f: Forest, p: int, q: int): (x: Work)
    requires Unique(f) && Shows(h, f, q, -1)
    ensures x == WorkState(h, Nil, f, p, q) && All(x) == Ids(f)
  {
    WorkState(h, Nil, f, p, q)
  }

  /** The first node of the rest joins the part done. */
  lemma Advance(x: Work) returns (y: Work)
    requires x.cur.Node? && x.p == x.q
    ensures y == x.(done := Append(x.done, First(x.cur)), cur := x.cur.rest) && All(y) == All(x)
  {
    SplitFirst(x.cur);
    ShowsAppend(x.h, x.done, First(x.cur), x.p, Head(x.cur.rest, -1));
    y := WorkState(x.h, Append(x.done, First(x.cur)), x.cur.rest, x.p, x.q);
  }

  /** The rest was changed within its own nodes. */
  lemma RestChanged(x: Work, g: Heap, cur: Forest) returns (y: Work)
    requires Within(x.h, g, Ids(x.cur)) && Shows(g, cur, x.q, -1)
    requires Ids(cur) == Ids(x.cur) && Unique(cur) && Head(cur, -1) == Head(x.cur, -1)
    ensures y == x.(h := g, cur := cur) && All(y) == All(x)
  {
    ShowsElsewhere(x.h, g, Ids(x.cur), x.done, x.p, Head(x.cur, -1));
    y := WorkState(g, x.done, cur, x.p, x.q);
  }

  /** The first node of the rest is moved below `p`. */
  lemma Reparented(x: Work) returns (y: Work)
    requires x.cur.Node? && x.cur.id < |x.h.parent|
    ensures y.h == x.h.(parent := x.h.parent[x.cur.id := x.p])
    ensures y == x.(h := y.h, done := Append(x.done, First(x.cur)), cur := x.cur.rest) && All(y) == All(x)
    ensures Within(x.h, y.h, All(x))
  {
    var id := x.cur.id;
    var g := x.h.(parent := x.h.parent[id := x.p]);
    SplitFirst(x.cur);
    ShowsElsewhere(x.h, g, {id}, x.done, x.p, id);
    ShowsElsewhere(x.h, g, {id}, x.cur.children, id, -1);
    ShowsElsewhere(x.h, g, {id}, x.cur.rest, x.q, -1);
    ShowsAppend(g, x.done, First(x.cur), x.p, Head(x.cur.rest, -1));
    y := WorkState(g, Append(x.done, First(x.cur)), x.cur.rest, x.p, x.q);
  }

  lemma {:induction false} LastShown(h: Heap, f: Forest, p: int, tail: int)
    requires f.Node? && Shows(h, f, p, tail)
    ensures LastId(f) < |h.next| && h.next[LastId(f)] == tail
  {
    if f.rest.Node? { LastShown(h, f.rest, p, tail); }
  }

  /** The pointers after a node's children were put behind it. */
  lemma Spliced(h: Heap, f: Forest, p: int)
    requires f.Node? && f.children.Node? && Unique(f)
    requires f.id < |h.next| && f.id < |h.list| && f.id < |h.parent| && h.parent[f.id] == p
    requires Shows(h, f.children, p, -1) && Shows(h, f.rest, p, -1) && LastId(f.children) < |h.next|
    ensures var next := h.next[LastId(f.children) := Head(f.rest, -1)][f.id := f.children.id];
            var g := Heap(next, h.list[f.id := -1], h.parent);
            Shows(g, Node(f.id, Nil, Append(f.children, f.rest)), p, -1) && Within(h, g, Ids(f))
  {
    var last := LastId(f.children);
    var h1 := h.(next := h.next[last := Head(f.rest, -1)]);
    var g := Heap(h1.next[f.id := f.children.id], h.list[f.id := -1], h.parent);
    LastIdIn(f.children);
    MoveTail(h, f.children, p, -1, Head(f.rest, -1));
    ShowsElsewhere(h, h1, {last}, f.rest, p, -1);
    ShowsElsewhere(h1, g, {f.id}, f.children, p, Head(f.rest, -1));
    ShowsElsewhere(h1, g, {f.id}, f.rest, p, -1);
    ShowsAppend(g, f.children, f.rest, p, -1);
  }

  /** The pointers after the nodes `taken` became the children of `m`. */
  lemma Taken(h: Heap, m: nat, taken: Forest, rest: Forest, q: int)
    requires taken.Node? && Unique(Node(m, taken, rest))
    requires m < |h.next| && m < |h.list| && m < |h.parent| && h.parent[m] == q
    requires Shows(h, taken, m, Head(rest, -1)) && Shows(h, rest, q, -1)
    ensures LastId(taken) < |h.next|
    ensures var g := Heap(h.next[m := Head(rest, -1)][LastId(taken) := -1], h.list[m := taken.id], h.parent);
            Shows(g, Node(m, taken, rest), q, -1) && Within(h, g, {m} + Ids(taken))
  {
    LastShown(h, taken, m, Head(rest, -1));
    var h1 := h.(next := h.next[LastId(taken) := -1]);
    var g := Heap(h.next[m := Head(rest, -1)][LastId(taken) := -1], h.list[m := taken.id], h.parent);
    LastIdIn(taken);
    MoveTail(h, taken, m, Head(rest, -1), -1);
    ShowsElsewhere(h, h1, {LastId(taken)}, rest, q, -1);
    ShowsElsewhere(h1, g, {m}, taken, m, -1);
    ShowsElsewhere(h1, g, {m}, rest, q, -1);
  }

  lemma {:induction false} LastOfAppend(a: Forest, b: Forest)
    requires b.Node?
    ensures Append(a, b).Node? && LastId(Append(a, b)) == LastId(b)
  {
    if a.Node? { LastOfAppend(a.rest, b); }
  }

  class Menus {
    const n: nat
    const next: array<int>
    const list: array<int>
    const parent: array<int>
    const facts: Facts

    ghost predicate Valid() {
      && next.Length == list.Length == parent.Length == n
      && next != list && next != parent && list != parent
    }

    ghost function View(): Heap
      reads next, list, parent
    {
      Heap(next[..], list[..], parent[..])
    }

    constructor (n: nat, facts: Facts)
      ensures this.n == n && this.facts == facts && Valid() && fresh(next) && fresh(list) && fresh(parent)
    {
      this.n, this.facts := n, facts;
      next := new int[n](_ => -1);
      list := new int[n](_ => -1);
      parent := new int[n](_ => -1);
    }

    /** The loop that gives the children of a flattened node their new parent; returns the last of them. */
    method Reparent(first: nat, p: nat, ghost f: Forest, ghost q: int) returns (last: nat)
      requires Valid() && f.Node? && f.id == first && Unique(f) && Shows(View(), f, q, -1)
      modifies parent
      ensures Shows(View(), f, p, -1) && last == LastId(f) && last < n && next[last] == -1
      ensures Within(old(View()), View(), Ids(f)) && next[..] == old(next[..]) && list[..] == old(list[..])
    {
      last := first;
      ghost var h0 := View();
      ghost var x := StartWork(h0, f, p, q);
      while true
        invariant x.h == View() && x.p == p && x.q == q && All(x) == Ids(f)
        invariant x.cur.Node? && x.cur.id == last < n && LastId(x.cur) == LastId(f) && Append(x.done, x.cur) == f
        invariant Within(h0, View(), Ids(f)) && next[..] == h0.next && list[..] == h0.list
        decreases Size(x.cur)
      {
        SplitFirst(x.cur);
        AppendAssociative(x.done, First(x.cur), x.cur.rest);
        x := Reparented(x);
        parent[last] := p;
        assert View() == x.h;
        if next[last] == -1 {
          break;
        }
        last := next[last];
      }
      AppendNil(x.done);
    }

    /** Flattening one node: its children move behind it. */
    method Splice(menu: nat, p: nat, ghost f: Forest)
      requires Valid() && f.Node? && f.children.Node? && f.id == menu && Unique(f) && Shows(View(), f, p, -1)
      modifies next, list, parent
      ensures Shows(View(), Node(menu, Nil, Append(f.children, f.rest)), p, -1)
      ensures Within(old(View()), View(), Ids(f))
    {
      ghost var h0 := View();
      var last := Reparent(list[menu], p, f.children, menu);
      ghost var h := View();
      ShowsElsewhere(h0, h, Ids(f.children), f.rest, p, -1);
      Spliced(h, f, p);
      next[last] := next[menu];
      next[menu] := list[menu];
      list[menu] := -1;
      assert View() == Heap(h.next[last := Head(f.rest, -1)][menu := f.children.id], h.list[menu := -1], h.parent);
      WithinTwice(h0, h, View(), Ids(f.children), Ids(f), Ids(f));
    }

    /** The second loop of menu_finalize, over the children `f` of `m`. */
    method FlattenList(m: nat, ghost f: Forest)
      requires Valid() && m < n && m !in Ids(f) && Unique(f) && list[m] == Head(f, -1) && Shows(View(), f, m, -1)
      modifies next, list, parent
      ensures Shows(View(), Flatten(facts, f), m, -1) && Within(old(View()), View(), Ids(f))
    {
      ghost var h0 := View();
      var menu := list[m];
      ghost var x := StartWork(h0, f, m, m);
      while menu != -1
        invariant x.h == View() && x.p == x.q == m && All(x) == Ids(f) && menu == Head(x.cur, -1)
        invariant Append(x.done, Flatten(facts, x.cur)) == Flatten(facts, f) && Within(h0, View(), Ids(f))
        decreases Size(x.cur)
      {
        ghost var y := FlattenOne(menu, m, x);
        WithinTwice(h0, x.h, View(), Ids(f), All(x), Ids(f));
        x := y;
        menu := next[menu];
      }
      AppendNil(x.done);
    }

    /** Its body. */
    method FlattenOne(menu: nat, p: nat, ghost x: Work) returns (ghost y: Work)
      requires Valid() && x.h == View() && x.p == x.q == p && x.cur.Node? && x.cur.id == menu
      modifies next, list, parent
      ensures y.h == View() && y.p == y.q == p && All(y) == All(x) && Size(y.cur) < Size(x.cur)
      ensures Append(y.done, Flatten(facts, y.cur)) == Append(x.done, Flatten(facts, x.cur))
      ensures menu < n && next[menu] == Head(y.cur, -1) && Within(old(View()), View(), All(x))
    {
      ghost var cur := x.cur;
      y := x;
      if list[menu] != -1 && !facts.prompted(menu) {
        Splice(menu, p, cur);
        y := RestChanged(x, View(), Node(cur.id, Nil, Append(cur.children, cur.rest)));
      }
      AppendAssociative(y.done, First(y.cur), Flatten(facts, y.cur.rest));
      FlattenFirst(facts, cur, y.cur);
      y := Advance(y);
    }

    /** The recursion over the children `f` of `m`. */
    method FinalizeChildren(m: nat, ghost f: Forest)
      requires Valid() && m < n && m !in Ids(f) && Unique(f) && list[m] == Head(f, -1) && Shows(View(), f, m, -1)
      modifies next, list, parent
      ensures Shows(View(), FinalizeAll(facts, f), m, -1) && Within(old(View()), View(), Ids(f))
      decreases Size(f), 3
    {
      ghost var h0 := View();
      var menu := list[m];
      ghost var x := StartWork(h0, f, m, m);
      while menu != -1
        invariant x.h == View() && x.p == x.q == m && All(x) == Ids(f) && menu == Head(x.cur, -1)
        invariant Size(x.cur) <= Size(f)
        invariant Append(x.done, FinalizeAll(facts, x.cur)) == FinalizeAll(facts, f) && Within(h0, View(), Ids(f))
        decreases Size(x.cur)
      {
        ghost var h, cur := View(), x.cur;
        Finalize(menu, cur, m);
        x := RestChanged(x, View(), FinalizeFirst(facts, cur));
        WithinTwice(h0, h, View(), Ids(f), Ids(cur), Ids(f));
        AppendAssociative(x.done, First(x.cur), FinalizeAll(facts, x.cur.rest));
        x := Advance(x);
        menu := next[menu];
      }
      AppendNil(x.done);
    }

    /** The loop over the nodes that follow symbol node `m`: those that depend on it move below it. */
    method AbsorbFollowing(m: nat, ghost f: Forest, ghost q: int) returns (last: int, ghost x: Work)
      requires Valid() && m < n && m !in Ids(f) && Unique(f) && next[m] == Head(f, -1) && Shows(View(), f, q, -1)
      modifies next, list, parent
      ensures x == WorkState(View(), Absorb(facts, m, f).0, Absorb(facts, m, f).1, m, q)
      ensures last == if x.done == Nil then -1 else LastId(x.done)
      ensures Within(old(View()), View(), Ids(f))
      decreases Size(f), 4
    {
      ghost var h0 := View();
      last := -1;
      var menu := next[m];
      x := StartWork(h0, f, m, q);
      while menu != -1
        invariant x.h == View() && x.p == m && x.q == q && All(x) == Ids(f) && menu == Head(x.cur, -1)
        invariant Size(x.cur) <= Size(f) && Within(h0, View(), Ids(f))
        invariant Absorb(facts, m, f) == (Append(x.done, Absorb(facts, m, x.cur).0), Absorb(facts, m, x.cur).1)
        invariant last == if x.done == Nil then -1 else LastId(x.done)
        decreases Size(x.cur)
      {
        if !facts.joins(m, menu) {
          break;
        }
        ghost var y := AbsorbOne(m, menu, x);
        WithinTwice(h0, x.h, View(), Ids(f), All(x), Ids(f));
        AppendAssociative(x.done, First(FinalizeFirst(facts, x.cur)), Absorb(facts, m, y.cur).0);
        LastOfAppend(x.done, First(FinalizeFirst(facts, x.cur)));
        x := y;
        last := menu;
        menu := next[menu];
      }
      AppendNil(x.done);
    }

    /** One of them: finalized, then moved. */
    method AbsorbOne(m: nat, menu: nat, ghost x: Work) returns (ghost y: Work)
      requires Valid() && x.h == View() && x.p == m && x.cur.Node? && x.cur.id == menu
      modifies next, list, parent
      ensures y == WorkState(View(), Append(x.done, First(FinalizeFirst(facts, x.cur))),
                             FinalizeFirst(facts, x.cur).rest, m, x.q)
      ensures All(y) == All(x) && menu < n && next[menu] == Head(y.cur, -1)
      ensures Within(old(View()), View(), All(x))
      decreases Size(x.cur), 3
    {
      Finalize(menu, x.cur, x.q);
      y := RestChanged(x, View(), FinalizeFirst(facts, x.cur));
      ghost var h := View();
      y := Reparented(y);
      parent[menu] := m;
      assert View() == y.h;
      WithinTwice(x.h, h, View(), Ids(x.cur), All(x), All(x));
    }

    /** The submenu of symbol node `m`: the following nodes that depend on it. */
    method TakeSubmenu(m: nat, ghost f: Forest, ghost q: int) returns (ghost g: Forest)
      requires Valid() && f.Node? && f.children == Nil && f.id == m && Unique(f) && Shows(View(), f, q, -1)
      modifies next, list, parent
      ensures g == Node(m, Absorb(facts, m, f.rest).0, Absorb(facts, m, f.rest).1)
      ensures Shows(View(), g, q, -1) && Within(old(View()), View(), Ids(f))
      decreases Size(f), 0
    {
      ghost var h0 := View();
      var last;
      ghost var x;
      last, x := AbsorbFollowing(m, f.rest, q);
      g := Node(m, x.done, x.cur);
      if last != -1 {
        ghost var h := View();
        LastShown(h, x.done, m, Head(x.cur, -1));
        Taken(h, m, x.done, x.cur, q);
        list[m] := next[m];
        next[m] := next[last];
        next[last] := -1;
        assert View() == Heap(h.next[m := Head(x.cur, -1)][last := -1], h.list[m := x.done.id], h.parent);
        WithinTwice(h0, h, View(), Ids(f.rest), {m} + Ids(x.done), Ids(f));
      }
    }

    /** The first part of menu_finalize: the children are finalized, or the submenu of a symbol is taken. */
    method Restructure(m: nat, ghost f: Forest, ghost q: int) returns (ghost g: Forest)
      requires Valid() && f.Node? && f.id == m && Unique(f) && Shows(View(), f, q, -1)
      modifies next, list, parent
      ensures g == if f.children.Node? then Node(f.id, FinalizeAll(facts, f.children), f.rest)
                   else if facts.isSymbol(f.id) then
                     Node(f.id, Absorb(facts, f.id, f.rest).0, Absorb(facts, f.id, f.rest).1)
                   else f
      ensures Shows(View(), g, q, -1) && Within(old(View()), View(), Ids(f)) && Unique(g) && Ids(g) == Ids(f)
      decreases Size(f), 1
    {
      ghost var h0 := View();
      g := f;
      if list[m] != -1 {
        FinalizeChildren(m, f.children);
        g := Node(m, FinalizeAll(facts, f.children), f.rest);
        ShowsNode(h0, View(), f, g.children, q);
      } else if facts.isSymbol(m) {
        g := TakeSubmenu(m, f, q);
      }
    }

    /** menu_finalize: the restructured list stands where the old one stood. */
    method Finalize(m: nat, ghost f: Forest, ghost q: int)
      requires Valid() && f.Node? && f.id == m && Unique(f) && Shows(View(), f, q, -1)
      modifies next, list, parent
      ensures Shows(View(), FinalizeFirst(facts, f), q, -1) && Within(old(View()), View(), Ids(f))
      decreases Size(f), 2
    {
      ghost var h0 := View();
      ghost var g := Restructure(m, f, q);
      FinalizeFirstIs(facts, f, g);
      ghost var h := View();
      FlattenList(m, g.children);
      ShowsNode(h, View(), g, Flatten(facts, g.children), q);
      WithinTwice(h0, h, View(), Ids(f), Ids(g.children), Ids(f));
    }

    /** menu_finalize on the root. */
    method FinalizeRoot(root: nat, ghost f: Forest) returns (ghost g: Forest)
      requires Valid() && f.Node? && f.id == root && f.rest == Nil && Unique(f) && Shows(View(), f, -1, -1)
      modifies next, list, parent
      ensures g.Node? && g.id == root && g.rest == Nil && Unique(g) && Shows(View(), g, -1, -1)
      ensures Preorder(g) == Preorder(f) && Settled(facts, g.children)
      ensures forall x: nat, q: nat :: IsPlaced(facts, [], f.children, root, x, q) ==> x < n && parent[x] == q
    {
      FinalizedRoot(facts, f);
      Finalize(root, f, -1);
      g := FinalizeFirst(facts, f);
      forall x: nat, q: nat | IsPlaced(facts, [], f.children, root, x, q) ensures x < n && parent[x] == q {
        RootPlaced(facts, f, x, q);
        ParentShown(View(), g.children, root, -1, x, q);
      }
    }

    /** The walk of conf_write: it follows list and next, and climbs by parent; it ends, and it visits the
        nodes below the root once each, in the order of the file. */
    method Walk(root: nat, ghost f: Forest) returns (visited: seq<nat>)
      requires Valid() && f.Node? && f.id == root && f.rest == Nil && Shows(View(), f, -1, -1)
      ensures visited == Preorder(f.children)
    {
      visited := [];
      var menu := list[root];
      ghost var cur, up := f.children, [f];
      assert up[..0] == [];
      while menu != -1
        invariant Context(View(), cur, up) && menu == Head(cur, -1) && (cur == Nil ==> Pending(up) == [])
        invariant visited + (Preorder(cur) + Pending(up)) == Preorder(f.children)
        decreases |Preorder(cur) + Pending(up)|
      {
        ghost var before, todo := visited, Preorder(cur) + Pending(up);
        visited := visited + [menu];
        if list[menu] != -1 {
          Descend(View(), cur, up);
          cur, up := cur.children, up + [cur];
          menu := list[menu];
        } else if next[menu] != -1 {
          Sidestep(cur, up);
          cur := cur.rest;
          menu := next[menu];
        } else {
          Sidestep(cur, up);
          menu, cur, up := Climb(menu, cur, up);
        }
        assert todo == [visited[|before|]] + (Preorder(cur) + Pending(up));
        MoveFirst(before, visited[|before|], Preorder(cur) + Pending(up));
      }
    }

    /** Up to the first ancestor with a following node. */
    method Climb(from: nat, ghost cur0: Forest, ghost up0: seq<Forest>)
      returns (menu: int, ghost cur: Forest, ghost up: seq<Forest>)
      requires Valid() && cur0.Node? && cur0.id == from && cur0.rest == Nil && Context(View(), cur0, up0)
      ensures Context(View(), cur, up) && menu == Head(cur, -1) && (cur == Nil ==> Pending(up) == [])
      ensures Preorder(cur) + Pending(up) == Pending(up0)
    {
      menu, cur, up := from, cur0, up0;
      while true
        invariant cur.Node? && cur.id == menu && cur.rest == Nil && Context(View(), cur, up)
        invariant Pending(up) == Pending(up0)
        decreases |up|
      {
        menu := parent[menu];
        if menu == -1 {
          cur := Nil;
          break;
        }
        ghost var above := up[|up| - 1];
        if next[menu] != -1 {
          menu := next[menu];
          cur, up := above.rest, up[..|up| - 1];
          break;
        }
        cur, up := above, up[..|up| - 1];
      }
    }
  }

  /** Where the walk stands: `cur` is the list from the current node on, below the last of `up`, and so on
      up to the root. */
  ghost predicate Context(h: Heap, cur: Forest, up: seq<Forest>)
    decreases |up|
  {
    if up == [] then (cur.Node? ==> cur.rest == Nil) && Shows(h, cur, -1, -1)
    else
      var above := up[|up| - 1];
      above.Node? && Shows(h, cur, above.id, -1) && Context(h, above, up[..|up| - 1])
  }

  /** The nodes behind the ancestors, innermost first. */
  ghost function Pending(up: seq<Forest>): seq<nat> {
    if up == [] || !up[|up| - 1].Node? then [] else Preorder(up[|up| - 1].rest) + Pending(up[..|up| - 1])
  }

  lemma Descend(h: Heap, cur: Forest, up: seq<Forest>)
    requires cur.Node? && Context(h, cur, up)
    ensures Context(h, cur.children, up + [cur])
    ensures Preorder(cur) + Pending(up) == [cur.id] + (Preorder(cur.children) + Pending(up + [cur]))
  {
    assert (up + [cur])[..|up|] == up;
  }

  lemma Sidestep(cur: Forest, up: seq<Forest>)
    requires cur.Node? && cur.children == Nil
    ensures Preorder(cur) + Pending(up) == [cur.id] + (Preorder(cur.rest) + Pending(up))
  {
  }

  lemma MoveFirst(a: seq<nat>, x: nat, b: seq<nat>)
    ensures a + ([x] + b) == (a + [x]) + b
  {
  }
}
