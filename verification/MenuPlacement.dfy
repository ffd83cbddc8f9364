/**
 Where every node of the menu tree ends up, told by going through the file once: which symbols are open for
 the next node, whom it joins, and the nearest prompt above.
 */
module MenuPlacement {
  import opened MenuForest

  /** In the list `f` below `p`, the parent of `x` is `q`. */
  predicate IsParent(f: Forest, p: nat, x: nat, q: nat) {
    f.Node? &&
    ((x == f.id && q == p) || IsParent(f.children, f.id, x, q) || IsParent(f.rest, p, x, q))
  }

  /** The open symbols, innermost last, up to the innermost one that the node joins. */
  function StillOpen(w: Facts, open: seq<nat>, x: nat): (r: seq<nat>)
    ensures r <= open
  {
    if open == [] || w.joins(open[|open| - 1], x) then open
    else StillOpen(w, open[..|open| - 1], x)
  }

  /** The innermost of the symbols that has a prompt, or else `h`. */
  function Home(w: Facts, open: seq<nat>, h: nat): nat {
    if open == [] then h
    else if w.prompted(open[|open| - 1]) then open[|open| - 1]
    else Home(w, open[..|open| - 1], h)
  }

  /** A node that opens for those that follow it: a symbol without children. */
  predicate Opens(w: Facts, f: Forest)
    requires f.Node?
  {
    f.children == Nil && w.isSymbol(f.id)
  }

  /** The restructured tree has `x` directly below `q`, told from the original list `f` with symbols `open`,
      inside a node whose own place for children is `h`.  A node closes the symbols it does not join, down to
      one that it does; it goes below the nearest prompt from there up. Its own children go below it, or if
      it has no prompt where it goes. */
  predicate IsPlaced(w: Facts, open: seq<nat>, f: Forest, h: nat, x: nat, q: nat)
    decreases Size(f)
  {
    f.Node? &&
    var joined := StillOpen(w, open, f.id);
    var home := Home(w, joined, h);
    || (x == f.id && q == home)
    || IsPlaced(w, [], f.children, if w.prompted(f.id) then f.id else home, x, q)
    || IsPlaced(w, if Opens(w, f) then joined + [f.id] else joined, f.rest, h, x, q)
  }

  // ---------------------------------------------------------------------------
  // Flattening
  // ---------------------------------------------------------------------------

  /** In the list `f` inside `h`, the nearest prompt above `x` is `q`. */
  predicate IsHome(w: Facts, f: Forest, h: nat, x: nat, q: nat) {
    f.Node? &&
    (|| (x == f.id && q == h)
     || IsHome(w, f.children, if w.prompted(f.id) then f.id else h, x, q)
     || IsHome(w, f.rest, h, x, q))
  }

  lemma {:induction false} AppendHome(w: Facts, a: Forest, b: Forest, h: nat, x: nat, q: nat)
    ensures IsHome(w, Append(a, b), h, x, q) <==> IsHome(w, a, h, x, q) || IsHome(w, b, h, x, q)
  {
    if a.Node? { AppendHome(w, a.rest, b, h, x, q); }
  }

  lemma {:induction false} FlattenKeepsHome(w: Facts, f: Forest, h: nat, x: nat, q: nat)
    ensures IsHome(w, Flatten(w, f), h, x, q) <==> IsHome(w, f, h, x, q)
    decreases Size(f)
  {
    if f.Node? {
      if f.children.Node? && !w.prompted(f.id) {
        AppendHome(w, f.children, f.rest, h, x, q);
        FlattenKeepsHome(w, Append(f.children, f.rest), h, x, q);
      } else {
        FlattenKeepsHome(w, f.rest, h, x, q);
      }
    }
  }

  /** Where only nodes with prompts have children, the nearest prompt is the parent. */
  lemma {:induction false} SettledHome(w: Facts, f: Forest, h: nat, x: nat, q: nat)
    requires Settled(w, f)
    ensures IsHome(w, f, h, x, q) <==> IsParent(f, h, x, q)
  {
    if f.Node? {
      SettledHome(w, f.rest, h, x, q);
      if f.children.Node? { SettledHome(w, f.children, f.id, x, q); }
    }
  }

  // ---------------------------------------------------------------------------
  // Taking nodes into submenus
  // ---------------------------------------------------------------------------

  /** Every node of the list itself joins `p`. */
  predicate AllJoin(w: Facts, p: nat, f: Forest) {
    f.Node? ==> w.joins(p, f.id) && AllJoin(w, p, f.rest)
  }

  /** A symbol takes the nodes that join it up to the first that does not. */
  lemma {:induction false} AbsorbTakes(w: Facts, p: nat, f: Forest)
    ensures AllJoin(w, p, Absorb(w, p, f).0)
    ensures Absorb(w, p, f).1.Node? ==> !w.joins(p, Absorb(w, p, f).1.id)
    decreases Size(f)
  {
    if f.Node? && w.joins(p, f.id) { AbsorbTakes(w, p, FinalizeFirst(w, f).rest); }
  }

  lemma JoinedStays(w: Facts, open: seq<nat>, p: nat, x: nat)
    ensures StillOpen(w, open + [p], x) == if w.joins(p, x) then open + [p] else StillOpen(w, open, x)
    ensures forall h :: Home(w, open + [p], h) == if w.prompted(p) then p else Home(w, open, h)
  {
    assert (open + [p])[..|open|] == open;
  }

  /** A symbol that the next node does not join is as good as closed. */
  lemma ClosedPlaced(w: Facts, open: seq<nat>, p: nat, f: Forest, h: nat, x: nat, q: nat)
    requires f.Node? ==> !w.joins(p, f.id)
    ensures IsPlaced(w, open + [p], f, h, x, q) <==> IsPlaced(w, open, f, h, x, q)
  {
    if f.Node? { JoinedStays(w, open, p, f.id); }
  }

  /** One node with what it takes, and what it leaves to the symbols open around it. */
  lemma {:induction false} FirstPlaced(w: Facts, open: seq<nat>, f: Forest, hc: nat, h: nat, x: nat, q: nat)
    requires f.Node? && hc == if w.prompted(f.id) then f.id else Home(w, open, h)
    ensures var g := FinalizeFirst(w, f);
            IsPlaced(w, [], f.children, hc, x, q)
            || IsPlaced(w, if Opens(w, f) then open + [f.id] else open, f.rest, h, x, q) <==>
            IsHome(w, g.children, hc, x, q) || IsPlaced(w, open, g.rest, h, x, q)
    decreases Size(f), 0
  {
    if f.children.Node? {
      AllPlaced(w, f.children, hc, x, q);
      FlattenKeepsHome(w, FinalizeAll(w, f.children), hc, x, q);
    } else if w.isSymbol(f.id) {
      var (taken, rest) := Absorb(w, f.id, f.rest);
      AbsorbPlaced(w, open, f.id, f.rest, hc, h, x, q);
      AbsorbTakes(w, f.id, f.rest);
      ClosedPlaced(w, open, f.id, rest, h, x, q);
      FlattenKeepsHome(w, taken, hc, x, q);
    }
  }

  lemma {:induction false} AllPlaced(w: Facts, f: Forest, h: nat, x: nat, q: nat)
    ensures IsPlaced(w, [], f, h, x, q) <==> IsHome(w, FinalizeAll(w, f), h, x, q)
    decreases Size(f), 1
  {
    if f.Node? {
      FirstPlaced(w, [], f, if w.prompted(f.id) then f.id else h, h, x, q);
      AllPlaced(w, FinalizeFirst(w, f).rest, h, x, q);
    }
  }

  lemma {:induction false} AbsorbPlaced(w: Facts, open: seq<nat>, p: nat, f: Forest, hp: nat, h: nat, x: nat, q: nat)
    requires hp == if w.prompted(p) then p else Home(w, open, h)
    ensures IsPlaced(w, open + [p], f, h, x, q) <==>
              IsHome(w, Absorb(w, p, f).0, hp, x, q) || IsPlaced(w, open + [p], Absorb(w, p, f).1, h, x, q)
    decreases Size(f), 1
  {
    if f.Node? && w.joins(p, f.id) {
      JoinedStays(w, open, p, f.id);
      FirstPlaced(w, open + [p], f, if w.prompted(f.id) then f.id else hp, h, x, q);
      AbsorbPlaced(w, open, p, FinalizeFirst(w, f).rest, hp, h, x, q);
    }
  }

  /** Finalizing the root puts every node where the file, gone through once, says it goes. */
  lemma RootPlaced(w: Facts, root: Forest, x: nat, q: nat)
    requires root.Node? && root.rest == Nil
    ensures IsParent(FinalizeFirst(w, root).children, root.id, x, q) <==>
              IsPlaced(w, [], root.children, root.id, x, q)
  {
    if root.children.Node? {
      AllPlaced(w, root.children, root.id, x, q);
      FlattenKeepsHome(w, FinalizeAll(w, root.children), root.id, x, q);
    }
    FinalizeSettles(w, root);
    SettledHome(w, FinalizeFirst(w, root).children, root.id, x, q);
  }
}
