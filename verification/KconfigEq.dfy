/**
 Equality up to reordering, and removal of the operands two expressions share.
 The three functions are mutually recursive: equal operands are found by eliminating
 operands of operands.
 */
module KconfigEq {
  import opened KconfigExpr

  // ---------------------------------------------------------------------------
  // expr_eliminate_yn
  // ---------------------------------------------------------------------------

  /** The operand-level step of expr_eliminate_yn, for operands already simplified. */
  function FoldConst(ty: Conn, l: Expr, r: Expr): Expr {
    match ty
    case And =>
      if l == Sym(SymNo) then Sym(SymNo)
      else if l == Sym(SymYes) then r
      else if r == Sym(SymNo) then Sym(SymNo)
      else if r == Sym(SymYes) then l
      else Bin(And, l, r)
    case Or =>
      if l == Sym(SymNo) then r
      else if l == Sym(SymYes) then Sym(SymYes)
      else if r == Sym(SymNo) then l
      else if r == Sym(SymYes) then Sym(SymYes)
      else Bin(Or, l, r)
  }

  function EliminateYn(e: Expr): (r: Expr)
    ensures Size(r) <= Size(e)
  {
    match e
    case Bin(ty, l, r) => FoldConst(ty, EliminateYn(l), EliminateYn(r))
    case _ => e
  }

  lemma {:induction false} EliminateYnKeepsValue(e: Expr, v: Valuation)
    ensures Value(EliminateYn(e), v) == Value(e, v)
  {
    match e
    case Bin(ty, l, r) =>
      EliminateYnKeepsValue(l, v);
      EliminateYnKeepsValue(r, v);
    case _ =>
  }

  /** No operand of an AND or OR, down to the first node of another kind, is y or n. */
  predicate YnFree(e: Expr) {
    e.Bin? ==> YnFree(e.l) && YnFree(e.r)
               && e.l !in {Sym(SymYes), Sym(SymNo)} && e.r !in {Sym(SymYes), Sym(SymNo)}
  }

  lemma {:induction false} EliminateYnIsComplete(e: Expr)
    ensures YnFree(EliminateYn(e))
  {
    if e.Bin? {
      EliminateYnIsComplete(e.l);
      EliminateYnIsComplete(e.r);
    }
  }

  lemma {:induction false} EliminateYnFixpoint(e: Expr)
    ensures EliminateYn(e) == e <==> YnFree(e)
  {
    if e.Bin? {
      EliminateYnFixpoint(e.l);
      EliminateYnFixpoint(e.r);
      EliminateYnIsComplete(e);
    }
  }

  // ---------------------------------------------------------------------------
  // expr_eq, __expr_eliminate_eq, expr_eliminate_eq
  // ---------------------------------------------------------------------------

  predicate ExprEq(a: Expr, b: Expr)
    decreases Size(a) + Size(b), 2
  {
    match a
    case Rel(op, x, y) => b.Rel? && b.op == op && x == b.lhs && y == b.rhs
    case Sym(s) => b.Sym? && s == b.sym
    case Not(x) => b.Not? && ExprEq(x, b.arg)
    case Bin(ty, _, _) =>
      b.Is(ty) &&
      var (x, y) := EliminateEq(a, b);
      x.Sym? && y.Sym? && x.sym == y.sym
  }

  /** __expr_eliminate_eq, with the number of pairs it eliminates: both slots are descended to
      their operands of kind `ty`, left to right, and what the earlier pairs wrote is what the
      later pairs see. */
  function EliminatePairs(ty: Conn, a: Expr, b: Expr): (r: (Expr, Expr, nat))
    ensures Size(r.0) <= Size(a) && Size(r.1) <= Size(b)
    ensures a.Is(ty) ==> r.0.Is(ty)
    ensures b.Is(ty) ==> r.1.Is(ty)
    decreases Size(a) + Size(b), if a.Is(ty) || b.Is(ty) then 0 else 3
  {
    if a.Is(ty) then
      var (l, b1, m) := EliminatePairs(ty, a.l, b);
      var (r, b2, n) := EliminatePairs(ty, a.r, b1);
      (Bin(ty, l, r), b2, m + n)
    else if b.Is(ty) then
      var (a1, l, m) := EliminatePairs(ty, a, b.l);
      var (a2, r, n) := EliminatePairs(ty, a1, b.r);
      (a2, Bin(ty, l, r), m + n)
    else if a == b && (a == Sym(SymYes) || a == Sym(SymNo)) then (a, b, 0)
    else if !ExprEq(a, b) then (a, b, 0)
    else (Neutral(ty), Neutral(ty), 1)
  }

  /** The two passes of expr_eliminate_eq before the constants are folded. */
  function EliminatePasses(a: Expr, b: Expr): (r: (Expr, Expr, nat))
    ensures Size(r.0) <= Size(a) && Size(r.1) <= Size(b)
    decreases Size(a) + Size(b), 1, 0
  {
    var (x, y, m) := if a.Bin? then EliminatePairs(a.conn, a, b) else (a, b, 0);
    if y.Bin? && !x.Is(y.conn) then
      var (x', y', n) := EliminatePairs(y.conn, x, y);
      (x', y', m + n)
    else (x, y, m)
  }

  function EliminateEq(a: Expr, b: Expr): (r: (Expr, Expr))
    ensures Size(r.0) <= Size(a) && Size(r.1) <= Size(b)
    decreases Size(a) + Size(b), 1, 1
  {
    var (x, y, _) := EliminatePasses(a, b);
    (EliminateYn(x), EliminateYn(y))
  }

  // ---------------------------------------------------------------------------
  // Soundness
  // ---------------------------------------------------------------------------

  /** A true answer of expr_eq means equal value under every valuation. */
  lemma {:induction false} ExprEqSound(a: Expr, b: Expr, v: Valuation)
    requires ExprEq(a, b)
    ensures Value(a, v) == Value(b, v)
    decreases Size(a) + Size(b), 2
  {
    match a
    case Not(x) => ExprEqSound(x, b.arg, v);
    case Bin(ty, _, _) =>
      var ty', c := EliminateEqCommon(a, b, v);
    case _ =>
  }

  lemma CombineRegroup(ty: Conn, a: Tristate, b: Tristate, c: Tristate, d: Tristate)
    ensures Combine(ty, Combine(ty, a, b), Combine(ty, c, d)) == Combine(ty, Combine(ty, a, c), Combine(ty, b, d))
    ensures Combine(ty, a, Combine(ty, c, d)) == Combine(ty, Combine(ty, a, c), d)
  {
  }

  /** What one sweep removes from both sides is one and the same operand value `c`. */
  lemma {:induction false} EliminatePairsCommon(ty: Conn, a: Expr, b: Expr, v: Valuation) returns (c: Tristate)
    ensures Value(a, v) == Combine(ty, c, Value(EliminatePairs(ty, a, b).0, v))
    ensures Value(b, v) == Combine(ty, c, Value(EliminatePairs(ty, a, b).1, v))
    decreases Size(a) + Size(b), if a.Is(ty) || b.Is(ty) then 0 else 3
  {
    if a.Is(ty) {
      var (l, b1, _) := EliminatePairs(ty, a.l, b);
      var (r, b2, _) := EliminatePairs(ty, a.r, b1);
      var c1 := EliminatePairsCommon(ty, a.l, b, v);
      var c2 := EliminatePairsCommon(ty, a.r, b1, v);
      c := Combine(ty, c1, c2);
      CombineRegroup(ty, c1, Value(l, v), c2, Value(r, v));
      CombineRegroup(ty, c1, 2, c2, Value(b2, v));
    } else if b.Is(ty) {
      var (a1, l, _) := EliminatePairs(ty, a, b.l);
      var (a2, r, _) := EliminatePairs(ty, a1, b.r);
      var c1 := EliminatePairsCommon(ty, a, b.l, v);
      var c2 := EliminatePairsCommon(ty, a1, b.r, v);
      c := Combine(ty, c1, c2);
      CombineRegroup(ty, c1, Value(l, v), c2, Value(r, v));
      CombineRegroup(ty, c1, 2, c2, Value(a2, v));
    } else if EliminatePairs(ty, a, b).2 == 0 {
      c := Value(Neutral(ty), v);
    } else {
      ExprEqSound(a, b, v);
      c := Value(a, v);
    }
  }

  /** A sweep that eliminates nothing changes nothing; one that meets an undivided second
      expression and eliminates something leaves only the neutral element of it. */
  lemma {:induction false} EliminatePairsCount(ty: Conn, a: Expr, b: Expr)
    ensures var r := EliminatePairs(ty, a, b);
            && (r.2 == 0 ==> r.0 == a && r.1 == b)
            && (!b.Is(ty) && r.2 > 0 ==> r.1 == Neutral(ty))
    decreases Size(a) + Size(b)
  {
    if a.Is(ty) {
      var (l, b1, _) := EliminatePairs(ty, a.l, b);
      EliminatePairsCount(ty, a.l, b);
      EliminatePairsCount(ty, a.r, b1);
    } else if b.Is(ty) {
      var (a1, l, _) := EliminatePairs(ty, a, b.l);
      EliminatePairsCount(ty, a, b.l);
      EliminatePairsCount(ty, a1, b.r);
    }
  }

  /** Of the two passes at most one changes anything, so a single connective and a single operand
      value explain the change on both sides. */
  lemma {:induction false} EliminateEqCommon(a: Expr, b: Expr, v: Valuation) returns (ty: Conn, c: Tristate)
    ensures Value(a, v) == Combine(ty, c, Value(EliminateEq(a, b).0, v))
    ensures Value(b, v) == Combine(ty, c, Value(EliminateEq(a, b).1, v))
    decreases Size(a) + Size(b), 1
  {
    var (x, y, _) := EliminatePasses(a, b);
    EliminateYnKeepsValue(x, v);
    EliminateYnKeepsValue(y, v);
    ty, c := And, 2;
    if a.Bin? {
      EliminatePairsCount(a.conn, a, b);
      var (x1, y1, m) := EliminatePairs(a.conn, a, b);
      if m > 0 || !y1.Bin? || x1.Is(y1.conn) {
        ty := a.conn;
        c := EliminatePairsCommon(ty, a, b, v);
        return;
      }
    }
    if b.Bin? && !a.Is(b.conn) {
      ty := b.conn;
      c := EliminatePairsCommon(ty, a, b, v);
    }
  }

  /** The superset test of automatic submenus: whenever the second expression is reduced to y,
      the first one implies it; and when both reduce to the same expression they are equivalent. */
  lemma EliminateEqImplies(a: Expr, b: Expr, v: Valuation)
    ensures EliminateEq(a, b).1 == Sym(SymYes) ==> Value(a, v) <= Value(b, v)
    ensures EliminateEq(a, b).0 == Sym(SymYes) ==> Value(b, v) <= Value(a, v)
    ensures EliminateEq(a, b).0 == EliminateEq(a, b).1 ==> Value(a, v) == Value(b, v)
  {
    var ty, c := EliminateEqCommon(a, b, v);
  }
}
