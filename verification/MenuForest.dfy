/** The menu tree as a forest, and the restructuring that menu_finalize does to it. */
module MenuForest {

  /** A list of sibling menu nodes: the first node with its children, and the rest of the list. */
  datatype Forest = Nil | Node(id: nat, children: Forest, rest: Forest)

  function Size(f: Forest): nat {
    match f
    case Nil => 0
    case Node(_, c, r) => 1 + Size(c) + Size(r)
  }

  function Preorder(f: Forest): seq<nat> {
    match f
    case Nil => []
    case Node(id, c, r) => [id] + Preorder(c) + Preorder(r)
  }

  function Ids(f: Forest): set<nat> {
    match f
    case Nil => {}
    case Node(id, c, r) => {id} + Ids(c) + Ids(r)
  }

  /** No node occurs twice. */
  predicate Unique(f: Forest) {
    match f
    case Nil => true
    case Node(id, c, r) =>
      id !in Ids(c) && id !in Ids(r) && Ids(c) !! Ids(r) && Unique(c) && Unique(r)
  }

  function Append(a: Forest, b: Forest): (r: Forest)
    ensures Size(r) == Size(a) + Size(b) && Ids(r) == Ids(a) + Ids(b)
    ensures Preorder(r) == Preorder(a) + Preorder(b)
    ensures Unique(a) && Unique(b) && Ids(a) !! Ids(b) ==> Unique(r)
  {
    match a
    case Nil => b
    case Node(id, c, rest) => Node(id, c, Append(rest, b))
  }

  lemma {:induction false} AppendNil(a: Forest)
    ensures Append(a, Nil) == a
  {
    if a.Node? { AppendNil(a.rest); }
  }

  lemma {:induction false} AppendAssociative(a: Forest, b: Forest, c: Forest)
    ensures Append(Append(a, b), c) == Append(a, Append(b, c))
  {
    if a.Node? { AppendAssociative(a.rest, b, c); }
  }

  /** The first node of a list, alone. */
  function First(f: Forest): Forest
    requires f.Node?
  {
    Node(f.id, f.children, Nil)
  }

  lemma SplitFirst(f: Forest)
    requires f.Node? && Unique(f)
    ensures Unique(First(f)) && Unique(f.rest) && Ids(First(f)) !! Ids(f.rest)
    ensures Ids(f) == Ids(First(f)) + Ids(f.rest) && Append(First(f), f.rest) == f
  {
    assert Append(Nil, f.rest) == f.rest;
  }

  // ---------------------------------------------------------------------------
  // Restructuring
  // ---------------------------------------------------------------------------

  /** What the restructuring asks of the nodes: which have a symbol, which have a prompt text, and whether
      a node depends on a symbol so that it goes into its submenu. */
  datatype Facts = Facts(isSymbol: nat -> bool, prompted: nat -> bool, joins: (nat, nat) -> bool)

  /** Two forests of the same nodes in the same order. */
  ghost predicate SameNodes(f: Forest, g: Forest) {
    Preorder(g) == Preorder(f) && Size(g) == Size(f) && Ids(g) == Ids(f) && (Unique(f) ==> Unique(g))
  }

  /** Promptless nodes give their children to the list they stand in, right behind them. */
  function Flatten(w: Facts, f: Forest): (g: Forest)
    ensures SameNodes(f, g) && (f.Node? ==> g.Node? && g.id == f.id)
    decreases Size(f)
  {
    match f
    case Nil => Nil
    case Node(id, c, r) =>
      if c.Node? && !w.prompted(id) then Node(id, Nil, Flatten(w, Append(c, r)))
      else Node(id, c, Flatten(w, r))
  }

  lemma FlattenFirst(w: Facts, f: Forest, g: Forest)
    requires f.Node?
    requires g == if f.children.Node? && !w.prompted(f.id) then Node(f.id, Nil, Append(f.children, f.rest)) else f
    ensures Flatten(w, f) == Append(First(g), Flatten(w, g.rest))
  {
    assert Append(Nil, Flatten(w, g.rest)) == Flatten(w, g.rest);
  }

  /** menu_finalize on the first node of a list; it may take nodes that follow it. */
  function FinalizeFirst(w: Facts, f: Forest): (g: Forest)
    requires f.Node?
    ensures g.Node? && g.id == f.id && SameNodes(f, g)
    decreases Size(f), 0
  {
    if f.children.Node? then
      Node(f.id, Flatten(w, FinalizeAll(w, f.children)), f.rest)
    else if w.isSymbol(f.id) then
      var (taken, rest) := Absorb(w, f.id, f.rest);
      Node(f.id, Flatten(w, taken), rest)
    else f
  }

  /** Every node of a list in turn. */
  function FinalizeAll(w: Facts, f: Forest): (g: Forest)
    ensures SameNodes(f, g) && (f.Node? ==> g.Node? && g.id == f.id)
    decreases Size(f), 1
  {
    if f == Nil then Nil
    else
      var first := FinalizeFirst(w, f);
      Node(first.id, first.children, FinalizeAll(w, first.rest))
  }

  /** The following nodes that depend on symbol `p`, each finalized, and the list behind them. */
  function Absorb(w: Facts, p: nat, f: Forest): (r: (Forest, Forest))
    ensures SameNodes(f, Append(r.0, r.1))
    ensures Size(r.0) + Size(r.1) == Size(f) && Ids(r.0) + Ids(r.1) == Ids(f)
    ensures Preorder(f) == Preorder(r.0) + Preorder(r.1)
    ensures Unique(f) ==> Unique(r.0) && Unique(r.1) && Ids(r.0) !! Ids(r.1)
    decreases Size(f), 1
  {
    if f == Nil || !w.joins(p, f.id) then (Nil, f)
    else
      var first := FinalizeFirst(w, f);
      var (taken, rest) := Absorb(w, p, first.rest);
      (Node(first.id, first.children, taken), rest)
  }

  lemma FinalizeFirstIs(w: Facts, f: Forest, g: Forest)
    requires f.Node?
    requires g == if f.children.Node? then Node(f.id, FinalizeAll(w, f.children), f.rest)
                  else if w.isSymbol(f.id) then Node(f.id, Absorb(w, f.id, f.rest).0, Absorb(w, f.id, f.rest).1)
                  else f
    ensures FinalizeFirst(w, f) == Node(g.id, Flatten(w, g.children), g.rest)
  {
  }

  // ---------------------------------------------------------------------------
  // What the restructuring achieves
  // ---------------------------------------------------------------------------

  /** At every depth, only nodes with a prompt have children. */
  predicate Settled(w: Facts, f: Forest) {
    match f
    case Nil => true
    case Node(id, c, r) => (c.Node? ==> w.prompted(id)) && Settled(w, c) && Settled(w, r)
  }

  /** The same below the nodes of the list. */
  predicate SettledBelow(w: Facts, f: Forest) {
    match f
    case Nil => true
    case Node(_, c, r) => Settled(w, c) && SettledBelow(w, r)
  }

  lemma {:induction false} AppendSettledBelow(w: Facts, a: Forest, b: Forest)
    requires Settled(w, a) && SettledBelow(w, b)
    ensures SettledBelow(w, Append(a, b))
  {
    if a.Node? { AppendSettledBelow(w, a.rest, b); }
  }

  lemma {:induction false} FlattenSettles(w: Facts, f: Forest)
    requires SettledBelow(w, f)
    ensures Settled(w, Flatten(w, f))
    decreases Size(f)
  {
    if f.Node? {
      if f.children.Node? && !w.prompted(f.id) {
        AppendSettledBelow(w, f.children, f.rest);
        FlattenSettles(w, Append(f.children, f.rest));
      } else {
        FlattenSettles(w, f.rest);
      }
    }
  }

  /** Below a finalized node only nodes with a prompt have children. */
  lemma {:induction false} FinalizeSettles(w: Facts, f: Forest)
    requires f.Node?
    ensures Settled(w, FinalizeFirst(w, f).children)
    decreases Size(f), 0
  {
    if f.children.Node? {
      FinalizeAllSettles(w, f.children);
      FlattenSettles(w, FinalizeAll(w, f.children));
    } else if w.isSymbol(f.id) {
      AbsorbSettles(w, f.id, f.rest);
      FlattenSettles(w, Absorb(w, f.id, f.rest).0);
    }
  }

  lemma {:induction false} FinalizeAllSettles(w: Facts, f: Forest)
    ensures SettledBelow(w, FinalizeAll(w, f))
    decreases Size(f), 1
  {
    if f.Node? {
      FinalizeSettles(w, f);
      FinalizeAllSettles(w, FinalizeFirst(w, f).rest);
    }
  }

  lemma {:induction false} AbsorbSettles(w: Facts, p: nat, f: Forest)
    ensures SettledBelow(w, Absorb(w, p, f).0)
    decreases Size(f), 1
  {
    if f.Node? && w.joins(p, f.id) {
      FinalizeSettles(w, f);
      AbsorbSettles(w, p, FinalizeFirst(w, f).rest);
    }
  }

  /** Finalizing the root leaves the nodes in the order of the file, with children only below prompts. */
  lemma FinalizedRoot(w: Facts, root: Forest)
    requires root.Node? && root.rest == Nil && Unique(root)
    ensures var g := FinalizeFirst(w, root);
            && g.id == root.id && g.rest == Nil && Unique(g) && Preorder(g) == Preorder(root)
            && Settled(w, g.children)
  {
    FinalizeSettles(w, root);
  }
}
