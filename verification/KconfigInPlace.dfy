/**
 The simplifier as it runs: trees rewritten through slots, and the global counter of joins.
 A slot is a tree together with the path to the operand it points at, so two slots of one tree
 alias exactly when one path leads through the other.
 */
module KconfigInPlace {
  import opened Options
  import opened KconfigExpr
  import opened KconfigEq
  import opened KconfigJoin
  import opened KconfigDups
  import opened KconfigTransform

  class Tree {
    var e: Expr

    constructor (e: Expr)
      ensures this.e == e
    {
      this.e := e;
    }
  }

  /** The operand of a node on one side; a negation has only a left one. */
  function Child(n: Expr, d: Side): Expr
    requires n.Bin? || (n.Not? && d == L)
  {
    if n.Not? then n.arg else if d == L then n.l else n.r
  }

  function WithChild(n: Expr, d: Side, x: Expr): Expr
    requires n.Bin? || (n.Not? && d == L)
  {
    if n.Not? then Not(x) else if d == L then n.(l := x) else n.(r := x)
  }

  /** The slot of an operand. */
  lemma ChildSlot(e: Expr, p: Path, d: Side)
    requires HasPath(e, p) && (Get(e, p).Bin? || (Get(e, p).Not? && d == L))
    ensures HasPath(e, p + [d]) && Get(e, p + [d]) == Child(Get(e, p), d)
  {
    assert [d][1..] == [];
    PathConcat(e, p, [d]);
  }

  /** Once the slot `p` of the tree `e` holds `n`, writing an operand of it writes `p`. */
  lemma WriteChild(e: Expr, p: Path, n: Expr, d: Side, x: Expr)
    requires HasPath(e, p) && (n.Bin? || (n.Not? && d == L))
    ensures HasPath(Put(e, p, n), p) && Get(Put(e, p, n), p) == n
    ensures HasPath(Put(e, p, n), p + [d]) && Get(Put(e, p, n), p + [d]) == Child(n, d)
    ensures Put(Put(e, p, n), p + [d], x) == Put(e, p, WithChild(n, d, x))
    ensures HasPath(Put(e, p, WithChild(n, d, x)), p)
    ensures Get(Put(e, p, WithChild(n, d, x)), p) == WithChild(n, d, x)
  {
    assert [d][1..] == [];
    PutTwice(e, p, n, WithChild(n, d, x));
    PutTwice(e, p, WithChild(n, d, x), n);
    ChildSlot(Put(e, p, n), p, d);
    PutConcat(Put(e, p, n), p, [d], x);
  }

  lemma SlotOnSpine(ty: Conn, t: Expr, root: Path, p: Path)
    requires HasPath(t, root) && OnSpine(ty, Get(t, root), p)
    ensures HasPath(t, root + p) && HasPath(Get(t, root), p)
    ensures Get(t, root + p) == Get(Get(t, root), p)
    ensures Get(t, root + p).Is(ty) <==> Below(ShapeOf(ty, Get(t, root)), p).Node?
  {
    SpineGet(ty, Get(t, root), p);
    PathConcat(t, root, p);
  }

  class Simplifier {
    /** trans_count */
    var transCount: nat

    constructor ()
      ensures transCount == 0
    {
      transCount := 0;
    }

    /** expr_eliminate_yn */
    method ExprEliminateYn(t: Tree, p: Path)
      requires HasPath(t.e, p)
      modifies t
      ensures t.e == Put(old(t.e), p, EliminateYn(Get(old(t.e), p)))
      decreases Size(Get(t.e, p))
    {
      ghost var e0 := t.e;
      var n := Get(t.e, p);
      PutTwice(e0, p, n, n);
      if n.Bin? {
        ghost var n1 := n.(l := EliminateYn(n.l));
        WriteChild(e0, p, n, L, n1.l);
        ExprEliminateYn(t, p + [L]);
        WriteChild(e0, p, n1, R, EliminateYn(n.r));
        ExprEliminateYn(t, p + [R]);
        ghost var n2 := n1.(r := EliminateYn(n.r));
        ChildSlot(t.e, p, L);
        ChildSlot(t.e, p, R);
        PutTwice(e0, p, n2, FoldConst(n.conn, n2.l, n2.r));
        var l, r := Get(t.e, p + [L]), Get(t.e, p + [R]);
        if l == Sym(SymNo) {
          t.e := Put(t.e, p, if n.conn == And then Sym(SymNo) else r);
        } else if l == Sym(SymYes) {
          t.e := Put(t.e, p, if n.conn == And then r else Sym(SymYes));
        } else if r == Sym(SymNo) {
          t.e := Put(t.e, p, if n.conn == And then Sym(SymNo) else l);
        } else if r == Sym(SymYes) {
          t.e := Put(t.e, p, if n.conn == And then l else Sym(SymYes));
        }
      }
    }

    /** __expr_eliminate_eq */
    method EliminateEqSlots(ty: Conn, t1: Tree, p1: Path, t2: Tree, p2: Path)
      requires t1 != t2 && HasPath(t1.e, p1) && HasPath(t2.e, p2)
      modifies t1, t2, this
      ensures var r := EliminatePairs(ty, Get(old(t1.e), p1), Get(old(t2.e), p2));
              && t1.e == Put(old(t1.e), p1, r.0)
              && t2.e == Put(old(t2.e), p2, r.1)
              && transCount == old(transCount) + r.2
      decreases Size(Get(t1.e, p1)) + Size(Get(t2.e, p2)),
                if Get(t1.e, p1).Is(ty) || Get(t2.e, p2).Is(ty) then 0 else 3, 1
    {
      var a, b := Get(t1.e, p1), Get(t2.e, p2);
      ghost var e1, e2 := t1.e, t2.e;
      PutTwice(e1, p1, a, a);
      PutTwice(e2, p2, b, b);
      if a.Is(ty) {
        ghost var (l, b1, m) := EliminatePairs(ty, a.l, b);
        ghost var (r, b2, n) := EliminatePairs(ty, a.r, b1);
        WriteChild(e1, p1, a, L, l);
        EliminateEqSlots(ty, t1, p1 + [L], t2, p2);
        WriteChild(e1, p1, a.(l := l), R, r);
        PutTwice(e2, p2, b1, b2);
        EliminateEqSlots(ty, t1, p1 + [R], t2, p2);
        return;
      }
      if b.Is(ty) {
        ghost var (a1, l, m) := EliminatePairs(ty, a, b.l);
        ghost var (a2, r, n) := EliminatePairs(ty, a1, b.r);
        WriteChild(e2, p2, b, L, l);
        EliminateEqSlots(ty, t1, p1, t2, p2 + [L]);
        WriteChild(e2, p2, b.(l := l), R, r);
        PutTwice(e1, p1, a1, a2);
        EliminateEqSlots(ty, t1, p1, t2, p2 + [R]);
        return;
      }
      EliminateLeafPair(ty, t1, p1, t2, p2);
    }

    /** __expr_eliminate_eq once both slots hold operands. */
    method EliminateLeafPair(ty: Conn, t1: Tree, p1: Path, t2: Tree, p2: Path)
      requires t1 != t2 && HasPath(t1.e, p1) && HasPath(t2.e, p2)
      requires !Get(t1.e, p1).Is(ty) && !Get(t2.e, p2).Is(ty)
      modifies t1, t2, this
      ensures var r := EliminatePairs(ty, Get(old(t1.e), p1), Get(old(t2.e), p2));
              && t1.e == Put(old(t1.e), p1, r.0)
              && t2.e == Put(old(t2.e), p2, r.1)
              && transCount == old(transCount) + r.2
      decreases Size(Get(t1.e, p1)) + Size(Get(t2.e, p2)), 3, 0
    {
      var a, b := Get(t1.e, p1), Get(t2.e, p2);
      PutTwice(t1.e, p1, a, a);
      PutTwice(t2.e, p2, b, b);
      if a.Sym? && b.Sym? && a.sym == b.sym && (a.sym == SymYes || a.sym == SymNo) {
        return;
      }
      var equal := ExprEqual(a, b);
      if !equal {
        return;
      }
      transCount := transCount + 1;
      t1.e := Put(t1.e, p1, Neutral(ty));
      t2.e := Put(t2.e, p2, Neutral(ty));
    }

    /** expr_eliminate_eq on the root slots of two trees. */
    method ExprEliminateEq(t1: Tree, t2: Tree)
      requires t1 != t2
      modifies t1, t2, this
      ensures (t1.e, t2.e) == EliminateEq(old(t1.e), old(t2.e))
      ensures transCount == old(transCount) + EliminatePasses(old(t1.e), old(t2.e)).2
      decreases Size(t1.e) + Size(t2.e), 1
    {
      if t1.e.Bin? {
        EliminateEqSlots(t1.e.conn, t1, [], t2, []);
      }
      if t2.e.Bin? && !t1.e.Is(t2.e.conn) {
        EliminateEqSlots(t2.e.conn, t1, [], t2, []);
      }
      ExprEliminateYn(t1, []);
      ExprEliminateYn(t2, []);
    }

    /** expr_eq: operands are eliminated from copies, and the counter is put back. */
    method ExprEqual(a: Expr, b: Expr) returns (res: bool)
      modifies this
      ensures res == ExprEq(a, b)
      ensures transCount == old(transCount)
      decreases Size(a) + Size(b), 2
    {
      match a
      case Rel(op, x, y) => res := b.Rel? && b.op == op && x == b.lhs && y == b.rhs;
      case Sym(s) => res := b.Sym? && s == b.sym;
      case Not(x) =>
        if b.Not? {
          res := ExprEqual(x, b.arg);
        } else {
          res := false;
        }
      case Bin(ty, _, _) =>
        if !b.Is(ty) {
          return false;
        }
        var t1 := new Tree(a);
        var t2 := new Tree(b);
        var oldCount := transCount;
        ExprEliminateEq(t1, t2);
        res := t1.e.Sym? && t2.e.Sym? && t1.e.sym == t2.e.sym;
        transCount := oldCount;
    }

    /** expr_eliminate_dups1: `p` and `q` are slots of the same tree, below the node at `root`. */
    method EliminateDupsSlots(ty: Conn, t: Tree, ghost root: Path, p: Path, q: Path, ghost p0: Path, ghost q0: Path)
      requires HasPath(t.e, root) && p == root + p0 && q == root + q0
      requires OnSpine(ty, Get(t.e, root), p0) && OnSpine(ty, Get(t.e, root), q0)
      modifies t, this
      ensures var r := Sweep(ty, Get(old(t.e), root), p0, q0);
              && t.e == Put(old(t.e), root, r.0)
              && transCount == old(transCount) + r.1
      decreases Size(Get(t.e, root)),
                Nodes(Below(ShapeOf(ty, Get(t.e, root)), p0)) + Nodes(Below(ShapeOf(ty, Get(t.e, root)), q0)), 1
    {
      ghost var t0 := t.e;
      ghost var e := Get(t0, root);
      ghost var s := ShapeOf(ty, e);
      PutTwice(t0, root, e, e);
      SlotOnSpine(ty, t0, root, p0);
      SlotOnSpine(ty, t0, root, q0);
      if Get(t.e, p).Is(ty) {
        ShapeExtend(s, p0, L); ShapeExtend(s, p0, R);
        assert p + [L] == root + (p0 + [L]) && p + [R] == root + (p0 + [R]);
        ghost var (e1, m) := Sweep(ty, e, p0 + [L], q0);
        ghost var (e2, n) := Sweep(ty, e1, p0 + [R], q0);
        PutTwice(t0, root, e1, e2);
        EliminateDupsSlots(ty, t, root, p + [L], q, p0 + [L], q0);
        EliminateDupsSlots(ty, t, root, p + [R], q, p0 + [R], q0);
        return;
      }
      if Get(t.e, q).Is(ty) {
        ShapeExtend(s, q0, L); ShapeExtend(s, q0, R);
        assert q + [L] == root + (q0 + [L]) && q + [R] == root + (q0 + [R]);
        ghost var (e1, m) := Sweep(ty, e, p0, q0 + [L]);
        ghost var (e2, n) := Sweep(ty, e1, p0, q0 + [R]);
        PutTwice(t0, root, e1, e2);
        EliminateDupsSlots(ty, t, root, p, q + [L], p0, q0 + [L]);
        EliminateDupsSlots(ty, t, root, p, q + [R], p0, q0 + [R]);
        return;
      }
      if p == q {
        assert p0 == p[|root|..] && q0 == q[|root|..];
        return;
      }
      SweepOperands(ty, t, root, p, q, p0, q0);
    }

    /** expr_eliminate_dups1 once both slots hold operands, and different ones. */
    method SweepOperands(ty: Conn, t: Tree, ghost root: Path, p: Path, q: Path, ghost p0: Path, ghost q0: Path)
      requires HasPath(t.e, root) && p == root + p0 && q == root + q0 && p0 != q0
      requires OperandAt(ty, Get(t.e, root), p0) && OperandAt(ty, Get(t.e, root), q0)
      modifies t, this
      ensures var r := Sweep(ty, Get(old(t.e), root), p0, q0);
              && t.e == Put(old(t.e), root, r.0)
              && transCount == old(transCount) + r.1
      decreases Size(Get(t.e, root)), 0, 0
    {
      ghost var t0 := t.e;
      ghost var e := Get(t0, root);
      SlotOnSpine(ty, t0, root, p0);
      SpineGet(ty, e, p0);
      SpineGet(ty, e, q0);
      ghost var a := Get(e, p0);
      ghost var (a', m) := if a.Bin? then Sweep(a.conn, a, [], []) else (a, 0);
      SpinePut(ty, e, p0, a');
      SpinePutOther(ty, e, p0, q0, a');
      PutConcat(t0, root, p0, a');
      PutTwice(t0, p, a, a);
      var first := Get(t.e, p);
      if first.Bin? {
        assert p == p + [];
        EliminateDupsSlots(first.conn, t, p, p, p, [], []);
      }
      ghost var e' := Put(e, p0, a');
      PutTwice(t0, root, e', e');
      JoinSlots(ty, t, root, p, q, p0, q0, m);
      PutTwice(t0, root, e', JoinPair(ty, e', p0, q0, m).0);
    }

    /** The last step of expr_eliminate_dups1, for a pair of different operands. */
    method JoinSlots(ty: Conn, t: Tree, ghost root: Path, p: Path, q: Path, ghost p0: Path, ghost q0: Path,
        ghost n: nat)
      requires HasPath(t.e, root) && p == root + p0 && q == root + q0 && p0 != q0
      requires OperandAt(ty, Get(t.e, root), p0) && OperandAt(ty, Get(t.e, root), q0)
      modifies t, this
      ensures var r := JoinPair(ty, Get(old(t.e), root), p0, q0, n);
              && t.e == Put(old(t.e), root, r.0)
              && transCount == old(transCount) + r.1 - n
    {
      ghost var t0 := t.e;
      ghost var e := Get(t0, root);
      PutTwice(t0, root, e, e);
      SlotOnSpine(ty, t0, root, p0);
      SlotOnSpine(ty, t0, root, q0);
      SpineGet(ty, e, p0);
      SpineGet(ty, e, q0);
      var tmp := Join(ty, Get(t.e, p), Get(t.e, q));
      if tmp.Some? {
        ghost var x := Neutral(ty);
        JoinSound(ty, Get(e, p0), Get(e, q0));
        SpinePut(ty, e, p0, x);
        SpinePutOther(ty, e, p0, q0, x);
        PutConcat(t0, root, p0, x);
        PutTwice(t0, root, Put(e, p0, x), e);
        t.e := Put(t.e, p, Neutral(ty));
        PutConcat(t.e, root, q0, tmp.value);
        PutTwice(t0, root, Put(e, p0, x), Put(Put(e, p0, x), q0, tmp.value));
        t.e := Put(t.e, q, tmp.value);
        transCount := transCount + 1;
      }
    }

    /** expr_eliminate_dups: the result has the original's value, nothing in it can be joined, and
        the counter is put back. */
    method ExprEliminateDups(t: Tree)
      modifies t, this
      ensures t.e == EliminateDups(old(t.e))
      ensures Irreducible(t.e) && Tidy(t.e)
      ensures Plain(old(t.e)) ==> Equivalent(t.e, old(t.e))
      ensures transCount == old(transCount)
    {
      EliminateDupsIrreducible(t.e);
      EliminateDupsTidy(t.e);
      if Plain(t.e) {
        forall v | Fits(v) ensures Value(EliminateDups(t.e), v) == Value(t.e, v) { EliminateDupsSound(t.e, v); }
      }
      var oldCount := transCount;
      while true
        invariant EliminateDups(t.e) == EliminateDups(old(t.e))
        decreases Size(t.e)
      {
        transCount := 0;
        PassShrinks(t.e);
        if t.e.Bin? {
          EliminateDupsSlots(t.e.conn, t, [], [], [], [], []);
        }
        if transCount == 0 {
          break;
        }
        ExprEliminateYn(t, []);
      }
      transCount := oldCount;
    }

    /** expr_transform */
    method ExprTransform(t: Tree, p: Path)
      requires HasPath(t.e, p)
      modifies t
      ensures t.e == Put(old(t.e), p, Transform(Get(old(t.e), p)))
      decreases Weight(Get(t.e, p))
    {
      ghost var e0 := t.e;
      var n := Get(t.e, p);
      PutTwice(e0, p, n, n);
      match n
      case Sym(_) =>
      case Rel(op, a, b) =>
        if a.IsBoolean() && op == Equal {
          if b == SymNo { t.e := Put(t.e, p, Not(Sym(a))); }
          else if b == SymMod { t.e := Put(t.e, p, Sym(SymNo)); }
          else if b == SymYes { t.e := Put(t.e, p, Sym(a)); }
        } else if a.IsBoolean() && op == Unequal {
          if b == SymNo { t.e := Put(t.e, p, Sym(a)); }
          else if b == SymMod { t.e := Put(t.e, p, Sym(SymYes)); }
          else if b == SymYes { t.e := Put(t.e, p, Not(Sym(a))); }
        }
      case Bin(ty, l, r) =>
        WriteChild(e0, p, n, L, Transform(l));
        ExprTransform(t, p + [L]);
        WriteChild(e0, p, n.(l := Transform(l)), R, Transform(r));
        ExprTransform(t, p + [R]);
      case Not(x) =>
        WriteChild(e0, p, n, L, Transform(x));
        ExprTransform(t, p + [L]);
        ChildSlot(t.e, p, L);
        TransformNegation(t, p, e0);
    }

    /** The second half of expr_transform on a negation, whose operand is transformed already. */
    method TransformNegation(t: Tree, p: Path, ghost e0: Expr)
      requires HasPath(e0, p) && Get(e0, p).Not?
      requires t.e == Put(e0, p, Not(Transform(Get(e0, p).arg)))
      requires HasPath(t.e, p) && Get(t.e, p) == Not(Transform(Get(e0, p).arg))
      requires HasPath(t.e, p + [L]) && Get(t.e, p + [L]) == Transform(Get(e0, p).arg)
      modifies t
      ensures t.e == Put(e0, p, Transform(Get(e0, p)))
      decreases Weight(Get(e0, p)), 0
    {
      ghost var n := Get(t.e, p);
      ghost var final := Transform(Get(e0, p));
      PutTwice(e0, p, n, final);
      var y := Get(t.e, p + [L]);
      match y {
        case Not(z) =>
          PutTwice(e0, p, n, z);
          PutTwice(e0, p, z, final);
          t.e := Put(t.e, p, z);
          ExprTransform(t, p);
        case Rel(op, a, b) =>
          t.e := Put(t.e, p, Rel(NegateOp(op), a, b));
        case Bin(ty, l, r) =>
          ghost var pushed := Bin(Dual(ty), Not(l), Not(r));
          PushingIsLighter(ty, l, r);
          PutTwice(e0, p, n, pushed);
          PutTwice(e0, p, pushed, final);
          t.e := Put(t.e, p, Bin(Dual(ty), Not(l), Not(r)));
          ExprTransform(t, p);
        case Sym(s) =>
          if s == SymYes { t.e := Put(t.e, p, Sym(SymNo)); }
          else if s == SymMod { t.e := Put(t.e, p, Sym(SymMod)); }
          else if s == SymNo { t.e := Put(t.e, p, Sym(SymYes)); }
      }
    }

    /** expr_trans_bool */
    method ExprTransBool(t: Tree, p: Path)
      requires HasPath(t.e, p)
      modifies t
      ensures t.e == Put(old(t.e), p, TransBool(Get(old(t.e), p)))
      decreases Get(t.e, p)
    {
      ghost var e0 := t.e;
      var n := Get(t.e, p);
      PutTwice(e0, p, n, n);
      match n
      case Bin(_, l, r) =>
        WriteChild(e0, p, n, L, TransBool(l));
        ExprTransBool(t, p + [L]);
        WriteChild(e0, p, n.(l := TransBool(l)), R, TransBool(r));
        ExprTransBool(t, p + [R]);
      case Not(x) =>
        WriteChild(e0, p, n, L, TransBool(x));
        ExprTransBool(t, p + [L]);
      case Rel(op, a, b) =>
        if op == Unequal && a.IsTristate() && b == SymNo {
          t.e := Put(t.e, p, Sym(a));
        }
      case Sym(_) =>
    }
  }
}
