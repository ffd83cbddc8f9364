/**
 What expr_eq and expr_eliminate_eq find: every expression equals itself, and after elimination
 no two operands of the two sides are equal.
 */
module KconfigEqComplete {
  import opened KconfigExpr
  import opened KconfigEq
  import opened KconfigDups

  predicate YesOrNo(e: Expr) {
    e == Sym(SymYes) || e == Sym(SymNo)
  }

  // ---------------------------------------------------------------------------
  // Nothing in common is left
  // ---------------------------------------------------------------------------

  /** No operand of `a` equals an operand of `b`, other than y and n themselves. */
  predicate NothingShared(ty: Conn, a: Expr, b: Expr)
    decreases Size(a) + Size(b)
  {
    if a.Is(ty) then NothingShared(ty, a.l, b) && NothingShared(ty, a.r, b)
    else if b.Is(ty) then NothingShared(ty, a, b.l) && NothingShared(ty, a, b.r)
    else (a == b && YesOrNo(a)) || !ExprEq(a, b)
  }

  /** `b` is `a` with some operands replaced by the neutral element. */
  predicate Masks(ty: Conn, a: Expr, b: Expr) {
    if a.Is(ty) then b.Is(ty) && Masks(ty, a.l, b.l) && Masks(ty, a.r, b.r)
    else a == b || b == Neutral(ty)
  }

  lemma {:induction false} MasksRefl(ty: Conn, a: Expr)
    ensures Masks(ty, a, a)
  {
    if a.Is(ty) { MasksRefl(ty, a.l); MasksRefl(ty, a.r); }
  }

  lemma {:induction false} MasksTrans(ty: Conn, a: Expr, b: Expr, c: Expr)
    requires Masks(ty, a, b) && Masks(ty, b, c)
    ensures Masks(ty, a, c)
  {
    if a.Is(ty) { MasksTrans(ty, a.l, b.l, c.l); MasksTrans(ty, a.r, b.r, c.r); }
  }

  lemma {:induction false} EliminatePairsMasks(ty: Conn, a: Expr, b: Expr)
    ensures Masks(ty, a, EliminatePairs(ty, a, b).0)
    ensures Masks(ty, b, EliminatePairs(ty, a, b).1)
    decreases Size(a) + Size(b)
  {
    if a.Is(ty) {
      var b1 := EliminatePairs(ty, a.l, b).1;
      EliminatePairsMasks(ty, a.l, b);
      EliminatePairsMasks(ty, a.r, b1);
      MasksTrans(ty, b, b1, EliminatePairs(ty, a.r, b1).1);
    } else if b.Is(ty) {
      var a1 := EliminatePairs(ty, a, b.l).0;
      EliminatePairsMasks(ty, a, b.l);
      EliminatePairsMasks(ty, a1, b.r);
      MasksTrans(ty, a, a1, EliminatePairs(ty, a1, b.r).0);
    } else {
      MasksRefl(ty, a);
      MasksRefl(ty, b);
    }
  }

  lemma {:induction false} MaskedSharesNothing(ty: Conn, a: Expr, b: Expr, a': Expr, b': Expr)
    requires NothingShared(ty, a, b) && Masks(ty, a, a') && Masks(ty, b, b')
    ensures NothingShared(ty, a', b')
    decreases Size(a) + Size(b)
  {
    if a.Is(ty) {
      MaskedSharesNothing(ty, a.l, b, a'.l, b');
      MaskedSharesNothing(ty, a.r, b, a'.r, b');
    } else if b.Is(ty) {
      if a'.Is(ty) { assert false; }
      MaskedSharesNothing(ty, a, b.l, a', b'.l);
      MaskedSharesNothing(ty, a, b.r, a', b'.r);
    }
  }

  /** A sweep eliminates every pair there is to eliminate. */
  lemma {:induction false} EliminatePairsComplete(ty: Conn, a: Expr, b: Expr)
    ensures NothingShared(ty, EliminatePairs(ty, a, b).0, EliminatePairs(ty, a, b).1)
    decreases Size(a) + Size(b)
  {
    if a.Is(ty) {
      var (l, b1, _) := EliminatePairs(ty, a.l, b);
      var (r, b2, _) := EliminatePairs(ty, a.r, b1);
      EliminatePairsComplete(ty, a.l, b);
      EliminatePairsComplete(ty, a.r, b1);
      EliminatePairsMasks(ty, a.r, b1);
      MasksRefl(ty, l);
      MaskedSharesNothing(ty, l, b1, l, b2);
    } else if b.Is(ty) {
      var (a1, l, _) := EliminatePairs(ty, a, b.l);
      var (a2, r, _) := EliminatePairs(ty, a1, b.r);
      EliminatePairsComplete(ty, a, b.l);
      EliminatePairsComplete(ty, a1, b.r);
      EliminatePairsMasks(ty, a, b.l);
      EliminatePairsMasks(ty, a1, b.r);
      MasksRefl(ty, l);
      MaskedSharesNothing(ty, a1, l, a2, l);
      assert !a2.Is(ty);
    }
  }

  // ---------------------------------------------------------------------------
  // Every expression equals itself
  // ---------------------------------------------------------------------------

  /** All operands but y and n replaced by the neutral element. */
  function MaskAll(ty: Conn, e: Expr): Expr {
    if e.Is(ty) then Bin(ty, MaskAll(ty, e.l), MaskAll(ty, e.r))
    else if YesOrNo(e) then e
    else Neutral(ty)
  }

  predicate AllYesOrNo(ty: Conn, e: Expr) {
    if e.Is(ty) then AllYesOrNo(ty, e.l) && AllYesOrNo(ty, e.r) else YesOrNo(e)
  }

  lemma {:induction false} MaskAllIsConst(ty: Conn, e: Expr)
    ensures AllYesOrNo(ty, MaskAll(ty, e))
    ensures MaskAll(ty, e).Is(ty) <==> e.Is(ty)
  {
    if e.Is(ty) { MaskAllIsConst(ty, e.l); MaskAllIsConst(ty, e.r); }
  }

  /** The operands of `e` to the left of the slot `p` are all y or n. */
  predicate DoneBefore(ty: Conn, e: Expr, p: Path)
    requires OnSpine(ty, e, p)
  {
    p == [] ||
    if p[0] == L then DoneBefore(ty, e.l, p[1..])
    else AllYesOrNo(ty, e.l) && DoneBefore(ty, e.r, p[1..])
  }

  lemma {:induction false} ConstMeetsNothing(ty: Conn, a: Expr, b: Expr)
    requires YesOrNo(a)
    ensures EliminatePairs(ty, a, b) == (a, b, 0)
    decreases b
  {
    if b.Is(ty) { ConstMeetsNothing(ty, a, b.l); ConstMeetsNothing(ty, a, b.r); }
  }

  lemma {:induction false} OperandMeetsConsts(ty: Conn, a: Expr, b: Expr)
    requires !a.Is(ty) && AllYesOrNo(ty, b)
    ensures EliminatePairs(ty, a, b) == (a, b, 0)
    decreases b
  {
    if b.Is(ty) { OperandMeetsConsts(ty, a, b.l); OperandMeetsConsts(ty, a, b.r); }
  }

  /** An operand is eliminated together with its own copy. */
  lemma {:induction false} OperandMeetsItself(ty: Conn, b: Expr, p: Path)
    requires OperandAt(ty, b, p) && DoneBefore(ty, b, p) && HasPath(b, p)
    requires ExprEq(Get(b, p), Get(b, p))
    ensures var x := Get(b, p);
            var r := EliminatePairs(ty, x, b);
            r.0 == MaskAll(ty, x) && r.1 == Put(b, p, MaskAll(ty, x))
    decreases b
  {
    var x := Get(b, p);
    SpineGet(ty, b, p);
    if p != [] {
      if p[0] == L {
        OperandMeetsItself(ty, b.l, p[1..]);
        MaskAllIsConst(ty, x);
        ConstMeetsNothing(ty, MaskAll(ty, x), b.r);
      } else {
        OperandMeetsConsts(ty, x, b.l);
        OperandMeetsItself(ty, b.r, p[1..]);
      }
    }
  }

  lemma {:induction false} DoneAfterLeft(ty: Conn, b: Expr, p: Path, x: Expr)
    requires OnSpine(ty, b, p) && HasPath(b, p) && DoneBefore(ty, b, p)
    requires Get(b, p).Is(ty) && AllYesOrNo(ty, x)
    ensures var b1 := Put(b, p, Get(b, p).(l := x));
            OnSpine(ty, b1, p + [R]) && DoneBefore(ty, b1, p + [R])
  {
    var b1 := Put(b, p, Get(b, p).(l := x));
    if p == [] {
      assert p + [R] == [R] && [R][1..] == [];
    } else {
      assert (p + [R])[1..] == p[1..] + [R];
      DoneAfterLeft(ty, if p[0] == L then b.l else b.r, p[1..], x);
    }
  }

  lemma {:induction false} DoneDown(ty: Conn, b: Expr, p: Path)
    requires OnSpine(ty, b, p) && HasPath(b, p) && DoneBefore(ty, b, p) && Get(b, p).Is(ty)
    ensures OnSpine(ty, b, p + [L]) && DoneBefore(ty, b, p + [L])
    ensures OnSpine(ty, b, p + [R])
  {
    if p == [] {
      assert p + [L] == [L] && [L][1..] == [] && p + [R] == [R] && [R][1..] == [];
    } else {
      assert (p + [L])[1..] == p[1..] + [L] && (p + [R])[1..] == p[1..] + [R];
      DoneDown(ty, if p[0] == L then b.l else b.r, p[1..]);
    }
  }

  /** The subtree at `p` is eliminated together with its own copy inside `b`. */
  lemma {:induction false} SubtreeMeetsItself(ty: Conn, b: Expr, p: Path)
    requires OnSpine(ty, b, p) && HasPath(b, p) && DoneBefore(ty, b, p)
    ensures var x := Get(b, p);
            var r := EliminatePairs(ty, x, b);
            r.0 == MaskAll(ty, x) && r.1 == Put(b, p, MaskAll(ty, x))
    decreases Size(Get(b, p)), 2
  {
    var x := Get(b, p);
    SpineGet(ty, b, p);
    if x.Is(ty) {
      DoneDown(ty, b, p);
      assert [L][1..] == [] && [R][1..] == [];
      PathConcat(b, p, [L]);
      SubtreeMeetsItself(ty, b, p + [L]);
      var l := MaskAll(ty, x.l);
      var x1 := x.(l := l);
      PutConcat(b, p, [L], l);
      var b1 := Put(b, p, x1);
      MaskAllIsConst(ty, x.l);
      DoneAfterLeft(ty, b, p, l);
      PutTwice(b, p, x1, MaskAll(ty, x));
      PathConcat(b1, p, [R]);
      SubtreeMeetsItself(ty, b1, p + [R]);
      PutConcat(b1, p, [R], MaskAll(ty, x.r));
    } else {
      ExprEqRefl(x);
      OperandMeetsItself(ty, b, p);
    }
  }

  lemma {:induction false} ConstsFold(ty: Conn, e: Expr)
    requires AllYesOrNo(ty, e)
    ensures YesOrNo(EliminateYn(e))
  {
    if e.Is(ty) { ConstsFold(ty, e.l); ConstsFold(ty, e.r); }
  }

  lemma {:induction false} ExprEqRefl(e: Expr)
    ensures ExprEq(e, e)
    decreases Size(e), 1
  {
    match e
    case Not(x) => ExprEqRefl(x);
    case Bin(ty, l, r) => ExprEqReflBin(ty, l, r);
    case _ =>
  }

  lemma {:induction false} ExprEqReflBin(ty: Conn, l: Expr, r: Expr)
    ensures ExprEq(Bin(ty, l, r), Bin(ty, l, r))
    decreases Size(Bin(ty, l, r)), 0
  {
    var e := Bin(ty, l, r);
    MaskAllIsConst(ty, e);
    ConstsFold(ty, MaskAll(ty, e));
    // The whole tree against itself, one operand after the other.
    var b1 := Bin(ty, MaskAll(ty, l), r);
    DoneDown(ty, e, []);
    assert [] + [L] == [L] && [] + [R] == [R] && [L][1..] == [] && [R][1..] == [];
    assert Get(e, [L]) == l && Get(b1, [R]) == r;
    SubtreeMeetsItself(ty, e, [L]);
    MaskAllIsConst(ty, l);
    DoneAfterLeft(ty, e, [], MaskAll(ty, l));
    SubtreeMeetsItself(ty, b1, [R]);
    assert EliminatePairs(ty, e, e).0 == MaskAll(ty, e) && EliminatePairs(ty, e, e).1 == MaskAll(ty, e);
  }

  /** The comment above expr_eq promises equality whenever every operand of one side equals some
      operand of the other.  A repeated operand is not recognised. */
  lemma RepeatedOperandIsUnequal()
    ensures var a, b := Sym(Config("A", Tri)), Sym(Config("B", Tri));
            && !ExprEq(Bin(And, a, Bin(And, a, b)), Bin(And, a, b))
            && Equivalent(Bin(And, a, Bin(And, a, b)), Bin(And, a, b))
  {
    var a, b := Sym(Config("A", Tri)), Sym(Config("B", Tri));
    assert a != b by { assert "A"[0] != "B"[0]; }
    var y := Sym(SymYes);
    var ab := Bin(And, a, b);
    assert EliminatePairs(And, a, ab) == (y, Bin(And, y, b), 1) by {
      assert EliminatePairs(And, a, a) == (y, y, 1);
      assert EliminatePairs(And, y, b) == (y, b, 0);
    }
    var yb := Bin(And, y, b);
    assert EliminatePairs(And, a, yb) == (a, yb, 0) by {
      assert EliminatePairs(And, a, y) == (a, y, 0);
      assert EliminatePairs(And, a, b) == (a, b, 0);
    }
    assert EliminatePairs(And, b, yb) == (y, Bin(And, y, y), 1) by {
      assert EliminatePairs(And, b, y) == (b, y, 0);
      assert EliminatePairs(And, b, b) == (y, y, 1);
    }
    assert EliminatePairs(And, ab, yb) == (Bin(And, a, y), Bin(And, y, y), 1);
    var e := Bin(And, a, ab);
    assert EliminatePairs(And, e, ab) == (Bin(And, y, Bin(And, a, y)), Bin(And, y, y), 2);
    assert EliminateYn(Bin(And, a, y)) == a;
  }
}
