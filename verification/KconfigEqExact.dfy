/**
 Exactly which expressions expr_eq finds equal: those whose lists of operands agree with multiplicity,
 recursively. Constants y and n among the operands are excluded, since they are folded after the sweep.
 */
module KconfigEqExact {
  import opened KconfigExpr
  import opened KconfigEq
  import opened KconfigEqComplete
  import opened KconfigTransform

  /** An expression up to grouping and order of operands. */
  datatype Canon =
    | Atom(e: Expr)
    | Negation(c: Canon)
    | List(ty: Conn, operands: multiset<Canon>)

  ghost function CanonOf(e: Expr): Canon
    decreases e, 0
  {
    match e
    case Sym(_) => Atom(e)
    case Rel(_, _, _) => Atom(e)
    case Not(x) => Negation(CanonOf(x))
    case Bin(ty, l, r) => List(ty, Operands(ty, l) + Operands(ty, r))
  }

  /** The operands of a list of kind `ty`, other than y and n, up to grouping and order. */
  ghost function Operands(ty: Conn, e: Expr): multiset<Canon>
    decreases e, 1
  {
    if e.Is(ty) then Operands(ty, e.l) + Operands(ty, e.r)
    else if YesOrNo(e) then multiset{}
    else multiset{CanonOf(e)}
  }

  /** No operand of an AND or OR, at any depth, is y or n. */
  predicate NoConstOperands(e: Expr) {
    match e
    case Bin(_, l, r) => NoConstOperands(l) && NoConstOperands(r) && !YesOrNo(l) && !YesOrNo(r)
    case Not(x) => NoConstOperands(x)
    case _ => true
  }

  /** A list some of whose operands may have been replaced by the neutral element. */
  predicate Swept(ty: Conn, e: Expr) {
    if e.Is(ty) then Swept(ty, e.l) && Swept(ty, e.r)
    else e == Neutral(ty) || (!YesOrNo(e) && NoConstOperands(e))
  }

  lemma {:induction false} OperandsSwept(ty: Conn, e: Expr)
    requires NoConstOperands(e) && !YesOrNo(e)
    ensures Swept(ty, e)
  {
    if e.Is(ty) { OperandsSwept(ty, e.l); OperandsSwept(ty, e.r); }
  }

  lemma {:induction false} NoConstIsYnFree(e: Expr)
    requires NoConstOperands(e)
    ensures EliminateYn(e) == e
  {
    if e.Bin? { NoConstIsYnFree(e.l); NoConstIsYnFree(e.r); }
  }

  /** Transformed and folded expressions have no constant operands. */
  lemma {:induction false} FoldedHasNoConst(e: Expr)
    requires Normal(e) && YnFree(e)
    ensures NoConstOperands(e)
  {
    if e.Bin? { FoldedHasNoConst(e.l); FoldedHasNoConst(e.r); }
  }

  // ---------------------------------------------------------------------------
  // The sweep is multiset difference
  // ---------------------------------------------------------------------------

  /** Taking out two parts one after the other takes out both. */
  lemma DifferenceTwice(x: multiset<Canon>, y: multiset<Canon>, b: multiset<Canon>)
    ensures (x - b) + (y - (b - x)) == (x + y) - b
    ensures (b - x) - y == b - (x + y)
  {
  }

  /** `x` and `y` are what is left of `a` and `b`. */
  ghost predicate LeftOver(ty: Conn, a: Expr, b: Expr, x: Expr, y: Expr) {
    && Swept(ty, x) && Swept(ty, y)
    && Operands(ty, x) == Operands(ty, a) - Operands(ty, b)
    && Operands(ty, y) == Operands(ty, b) - Operands(ty, a)
  }

  lemma LeftOverOfLists(ty: Conn, a: Expr, b: Expr, l: Expr, b1: Expr, r: Expr, b2: Expr)
    requires a.Is(ty) && LeftOver(ty, a.l, b, l, b1) && LeftOver(ty, a.r, b1, r, b2)
    ensures LeftOver(ty, a, b, Bin(ty, l, r), b2) && LeftOver(ty, b, a, b2, Bin(ty, l, r))
  {
    DifferenceTwice(Operands(ty, a.l), Operands(ty, a.r), Operands(ty, b));
  }

  /** The sweep leaves each side the operands it has beyond the other's. */
  lemma {:induction false} SweepIsDifference(ty: Conn, a: Expr, b: Expr)
    requires Swept(ty, a) && Swept(ty, b)
    ensures LeftOver(ty, a, b, EliminatePairs(ty, a, b).0, EliminatePairs(ty, a, b).1)
    decreases Size(a) + Size(b), if a.Is(ty) || b.Is(ty) then 0 else 4
  {
    if a.Is(ty) {
      var (l, b1, _) := EliminatePairs(ty, a.l, b);
      var (r, b2, _) := EliminatePairs(ty, a.r, b1);
      SweepIsDifference(ty, a.l, b);
      SweepIsDifference(ty, a.r, b1);
      LeftOverOfLists(ty, a, b, l, b1, r, b2);
    } else if b.Is(ty) {
      var (a1, l, _) := EliminatePairs(ty, a, b.l);
      var (a2, r, _) := EliminatePairs(ty, a1, b.r);
      SweepIsDifference(ty, a, b.l);
      SweepIsDifference(ty, a1, b.r);
      LeftOverOfLists(ty, b, a, l, a1, r, a2);
    } else {
      LeavesAreDifference(ty, a, b);
    }
  }

  /** Two operands, neither of them a list of kind `ty`. */
  lemma {:induction false} LeavesAreDifference(ty: Conn, a: Expr, b: Expr)
    requires Swept(ty, a) && Swept(ty, b) && !a.Is(ty) && !b.Is(ty)
    ensures LeftOver(ty, a, b, EliminatePairs(ty, a, b).0, EliminatePairs(ty, a, b).1)
    decreases Size(a) + Size(b), 3
  {
    var pair := !YesOrNo(a) && !YesOrNo(b);
    LeafPair(ty, a, b);
    if pair {
      ExprEqExact(a, b);
    }
    var (x, y, _) := EliminatePairs(ty, a, b);
    LeftOverOfLeaves(ty, a, b, x, y, pair && ExprEq(a, b));
  }

  lemma LeftOverOfLeaves(ty: Conn, a: Expr, b: Expr, x: Expr, y: Expr, same: bool)
    requires Swept(ty, a) && Swept(ty, b) && !a.Is(ty) && !b.Is(ty)
    requires (x, y) == if same then (Neutral(ty), Neutral(ty)) else (a, b)
    requires same <==> !YesOrNo(a) && !YesOrNo(b) && CanonOf(a) == CanonOf(b)
    ensures LeftOver(ty, a, b, x, y)
  {
    OperandAlone(ty, a);
    OperandAlone(ty, b);
    OperandAlone(ty, Neutral(ty));
    var p, q := Operands(ty, a), Operands(ty, b);
    if !same {
      assert p - q == p && q - p == q;
    }
  }

  lemma OperandAlone(ty: Conn, e: Expr)
    requires !e.Is(ty)
    ensures Operands(ty, e) == if YesOrNo(e) then multiset{} else multiset{CanonOf(e)}
  {
  }

  lemma LeafPair(ty: Conn, a: Expr, b: Expr)
    requires !a.Is(ty) && !b.Is(ty)
    ensures var r := EliminatePairs(ty, a, b);
            (r.0, r.1) == if !YesOrNo(a) && !YesOrNo(b) && ExprEq(a, b) then (Neutral(ty), Neutral(ty)) else (a, b)
  {
    if YesOrNo(a) || YesOrNo(b) { YesOrNoEqual(a, b); }
  }

  /** A constant is equal to itself only. */
  lemma YesOrNoEqual(a: Expr, b: Expr)
    requires YesOrNo(a) || YesOrNo(b)
    ensures ExprEq(a, b) <==> a == b
  {
  }

  /** Folding a swept list keeps its operands; none is left exactly when it folds to the neutral element. */
  lemma {:induction false} FoldSwept(ty: Conn, e: Expr)
    requires Swept(ty, e)
    ensures Swept(ty, EliminateYn(e)) && Operands(ty, EliminateYn(e)) == Operands(ty, e)
    ensures Operands(ty, e) == multiset{} <==> EliminateYn(e) == Neutral(ty)
  {
    if e.Is(ty) {
      FoldSwept(ty, e.l);
      FoldSwept(ty, e.r);
      FoldTwo(ty, EliminateYn(e.l), EliminateYn(e.r));
    } else if !YesOrNo(e) {
      NoConstIsYnFree(e);
    }
  }

  lemma FoldTwo(ty: Conn, l: Expr, r: Expr)
    requires Swept(ty, l) && Swept(ty, r)
    requires (Operands(ty, l) == multiset{} <==> l == Neutral(ty))
             && (Operands(ty, r) == multiset{} <==> r == Neutral(ty))
    ensures var f := FoldConst(ty, l, r);
            && Swept(ty, f) && Operands(ty, f) == Operands(ty, l) + Operands(ty, r)
            && (Operands(ty, f) == multiset{} <==> f == Neutral(ty))
  {
    if l == Neutral(ty) {
      assert FoldConst(ty, l, r) == r;
    } else if r == Neutral(ty) {
      assert FoldConst(ty, l, r) == l;
    } else {
      SweptIsNoOtherConst(ty, l);
      SweptIsNoOtherConst(ty, r);
      assert FoldConst(ty, l, r) == Bin(ty, l, r);
    }
  }

  lemma SweptIsNoOtherConst(ty: Conn, e: Expr)
    requires Swept(ty, e) && e != Neutral(ty)
    ensures !YesOrNo(e)
  {
  }

  /** expr_eq is true exactly when the operands agree with multiplicity, recursively. */
  lemma {:induction false} ExprEqExact(a: Expr, b: Expr)
    requires NoConstOperands(a) && NoConstOperands(b)
    ensures ExprEq(a, b) <==> CanonOf(a) == CanonOf(b)
    decreases Size(a) + Size(b), 2
  {
    match a
    case Not(x) => if b.Not? { ExprEqExact(x, b.arg); }
    case Bin(ty, l, r) => if b.Is(ty) { ListsExact(ty, a, b); }
    case _ =>
  }

  lemma {:induction false} ListsExact(ty: Conn, a: Expr, b: Expr)
    requires NoConstOperands(a) && NoConstOperands(b) && a.Is(ty) && b.Is(ty)
    ensures ExprEq(a, b) <==> Operands(ty, a) == Operands(ty, b)
    decreases Size(a) + Size(b), 1
  {
    OperandsSwept(ty, a);
    OperandsSwept(ty, b);
    SweepIsDifference(ty, a, b);
    var (x, y, _) := EliminatePairs(ty, a, b);
    ListEqual(ty, a, b, x, y);
    FoldedAgree(ty, x, y);
    NothingLeft(Operands(ty, a), Operands(ty, b));
  }

  /** For two lists of the same kind only the first pass applies. */
  lemma ListEqual(ty: Conn, a: Expr, b: Expr, x: Expr, y: Expr)
    requires a.Is(ty) && b.Is(ty) && EliminatePairs(ty, a, b).0 == x && EliminatePairs(ty, a, b).1 == y
    ensures ExprEq(a, b) <==> EliminateYn(x).Sym? && EliminateYn(x) == EliminateYn(y)
  {
    assert EliminateEq(a, b) == (EliminateYn(x), EliminateYn(y));
  }

  lemma NothingLeft(x: multiset<Canon>, y: multiset<Canon>)
    ensures (x - y) * (y - x) == multiset{}
    ensures x - y == multiset{} && y - x == multiset{} <==> x == y
  {
    if x - y == multiset{} && y - x == multiset{} {
      forall c ensures x[c] == y[c] {
        assert (x - y)[c] == 0 && (y - x)[c] == 0;
      }
    }
  }

  /** Two swept lists that share no operand fold to the same symbol only if both are used up. */
  lemma FoldedAgree(ty: Conn, x: Expr, y: Expr)
    requires Swept(ty, x) && Swept(ty, y) && Operands(ty, x) * Operands(ty, y) == multiset{}
    ensures EliminateYn(x).Sym? && EliminateYn(x) == EliminateYn(y) <==>
              Operands(ty, x) == multiset{} && Operands(ty, y) == multiset{}
  {
    var u := EliminateYn(x);
    FoldSwept(ty, x);
    FoldSwept(ty, y);
    if u.Sym? && !YesOrNo(u) {
      assert (Operands(ty, x) * Operands(ty, y))[CanonOf(u)] == 0;
    }
  }

  /** So it is an equivalence. */
  lemma ExprEqEquivalence(a: Expr, b: Expr, c: Expr)
    requires NoConstOperands(a) && NoConstOperands(b) && NoConstOperands(c)
    ensures ExprEq(a, b) <==> ExprEq(b, a)
    ensures ExprEq(a, b) && ExprEq(b, c) ==> ExprEq(a, c)
  {
    ExprEqExact(a, b);
    ExprEqExact(b, a);
    ExprEqExact(b, c);
    ExprEqExact(a, c);
  }

  /** Constants have to be excluded. The sweep does not pair `A || n` with `A`, but folding what it leaves
      does, so the expressions are found equal although their operands differ. */
  lemma ConstantOperandFoldsLate(a: Expr, b: Expr)
    requires a.Sym? && b.Sym? && a != b && !YesOrNo(a) && !YesOrNo(b)
    ensures var p, q := Bin(And, Bin(Or, a, Sym(SymNo)), b), Bin(And, a, b);
            ExprEq(p, q) && CanonOf(p) != CanonOf(q)
  {
    var an, y := Bin(Or, a, Sym(SymNo)), Sym(SymYes);
    LateSweep(a, b);
    ListEqual(And, Bin(And, an, b), Bin(And, a, b), Bin(And, an, y), Bin(And, a, y));
    assert EliminateYn(an) == a;
    assert CanonOf(an).ty == Or && CanonOf(a) == Atom(a) && CanonOf(b) == Atom(b);
    assert Operands(And, an) == multiset{CanonOf(an)};
    assert CanonOf(an) in CanonOf(Bin(And, an, b)).operands;
    assert CanonOf(an) !in CanonOf(Bin(And, a, b)).operands;
  }

  lemma LateSweep(a: Expr, b: Expr)
    requires a.Sym? && b.Sym? && a != b && !YesOrNo(a) && !YesOrNo(b)
    ensures var an, y := Bin(Or, a, Sym(SymNo)), Sym(SymYes);
            EliminatePairs(And, Bin(And, an, b), Bin(And, a, b)) == (Bin(And, an, y), Bin(And, a, y), 1)
  {
    var an, y := Bin(Or, a, Sym(SymNo)), Sym(SymYes);
    assert EliminatePairs(And, an, a) == (an, a, 0);
    assert EliminatePairs(And, an, b) == (an, b, 0);
    assert EliminatePairs(And, an, Bin(And, a, b)) == (an, Bin(And, a, b), 0);
    assert EliminatePairs(And, b, a) == (b, a, 0);
    assert EliminatePairs(And, b, b) == (y, y, 1);
    assert EliminatePairs(And, b, Bin(And, a, b)) == (y, Bin(And, a, y), 1);
  }

  /** Nor is there another canonical form for them: with constants among the operands the answer is not
      transitive. `(A || n) && (C || n)` equals `A && (C || n)`, and that equals `A && C`, but the first does
      not equal the last. */
  lemma NotTransitive(a: Expr, c: Expr)
    requires a.Sym? && c.Sym? && a != c && !YesOrNo(a) && !YesOrNo(c)
    ensures var an, cn := Bin(Or, a, Sym(SymNo)), Bin(Or, c, Sym(SymNo));
            var p, q, r := Bin(And, an, cn), Bin(And, a, cn), Bin(And, a, c);
            ExprEq(p, q) && ExprEq(q, r) && !ExprEq(p, r)
  {
    var an, cn, y := Bin(Or, a, Sym(SymNo)), Bin(Or, c, Sym(SymNo)), Sym(SymYes);
    var p, q, r := Bin(And, an, cn), Bin(And, a, cn), Bin(And, a, c);
    LateOperands(a, c);
    ExprEqRefl(cn);
    ExprEqRefl(a);
    LeafAgainstTwo(an, a, cn);
    LeafAgainstTwo(cn, a, cn);
    ListEqual(And, p, q, Bin(And, an, y), Bin(And, a, y));
    LeafAgainstTwo(a, a, c);
    LeafAgainstTwo(cn, y, c);
    ListEqual(And, q, r, Bin(And, y, cn), Bin(And, y, c));
    LeafAgainstTwo(an, a, c);
    LeafAgainstTwo(cn, a, c);
    ListEqual(And, p, r, p, r);
    FoldedLate(a, c);
  }

  /** An operand swept against a list of two. */
  lemma LeafAgainstTwo(x: Expr, q1: Expr, q2: Expr)
    requires !x.Is(And) && !q1.Is(And) && !q2.Is(And) && !YesOrNo(x)
    ensures var y, r := Sym(SymYes), EliminatePairs(And, x, Bin(And, q1, q2));
            (r.0, r.1) == if ExprEq(x, q1) then (y, Bin(And, y, q2))
                          else if ExprEq(x, q2) then (y, Bin(And, q1, y))
                          else (x, Bin(And, q1, q2))
  {
    LeafPair(And, x, q1);
    LeafPair(And, x, q2);
    LeafPair(And, Sym(SymYes), q2);
    if YesOrNo(q1) { YesOrNoEqual(x, q1); }
    if YesOrNo(q2) { YesOrNoEqual(x, q2); }
  }

  lemma LateOperands(a: Expr, c: Expr)
    requires a.Sym? && c.Sym? && a != c && !YesOrNo(a) && !YesOrNo(c)
    ensures !ExprEq(Bin(Or, a, Sym(SymNo)), Bin(Or, c, Sym(SymNo)))
  {
    var n := Sym(SymNo);
    var an, cn := Bin(Or, a, n), Bin(Or, c, n);
    LeafPair(Or, a, c);
    LeafPair(Or, a, n);
    LeafPair(Or, n, c);
    LeafPair(Or, n, n);
    assert EliminatePairs(Or, a, cn).0 == a && EliminatePairs(Or, a, cn).1 == cn;
    assert EliminatePairs(Or, n, cn).0 == n && EliminatePairs(Or, n, cn).1 == cn;
    ListEqual(Or, an, cn, an, cn);
    assert EliminateYn(an) == a && EliminateYn(cn) == c;
  }

  lemma FoldedLate(a: Expr, c: Expr)
    requires a.Sym? && c.Sym? && !YesOrNo(a) && !YesOrNo(c)
    ensures var an, cn, y := Bin(Or, a, Sym(SymNo)), Bin(Or, c, Sym(SymNo)), Sym(SymYes);
            && EliminateYn(Bin(And, an, y)) == EliminateYn(Bin(And, a, y)) == a
            && EliminateYn(Bin(And, y, cn)) == EliminateYn(Bin(And, y, c)) == c
            && EliminateYn(Bin(And, an, cn)) == Bin(And, a, c)
  {
    assert EliminateYn(Bin(Or, a, Sym(SymNo))) == a && EliminateYn(Bin(Or, c, Sym(SymNo))) == c;
  }

  // ---------------------------------------------------------------------------
  // The promise of the comment
  // ---------------------------------------------------------------------------

  function OperandList(ty: Conn, e: Expr): (r: seq<Expr>)
    ensures r != []
  {
    if e.Is(ty) then OperandList(ty, e.l) + OperandList(ty, e.r) else [e]
  }

  /** Alone, or compared: equal to y, equal to m, not n. */
  predicate TestsFor(o: Expr, s: Symbol) {
    o in {Sym(s), Rel(Equal, s, SymYes), Rel(Equal, s, SymMod), Rel(Unequal, s, SymNo)}
  }

  /** An expression depends on a symbol exactly if one of the operands it is the conjunction of tests for it. */
  lemma {:induction false} DependsExactly(e: Expr, s: Symbol)
    ensures DependsSymbol(e, s) <==> exists o :: o in OperandList(And, e) && TestsFor(o, s)
  {
    if e.Is(And) {
      DependsExactly(e.l, s);
      DependsExactly(e.r, s);
      EitherTests(OperandList(And, e.l), OperandList(And, e.r), s);
    } else {
      assert e in OperandList(And, e);
      assert DependsSymbol(e, s) <==> TestsFor(e, s);
    }
  }

  lemma EitherTests(a: seq<Expr>, b: seq<Expr>, s: Symbol)
    ensures (exists o :: o in a + b && TestsFor(o, s)) <==>
              (exists o :: o in a && TestsFor(o, s)) || exists o :: o in b && TestsFor(o, s)
  {
    if o :| o in a && TestsFor(o, s) { assert o in a + b; }
    if o :| o in b && TestsFor(o, s) { assert o in a + b; }
  }

  /** How many of the expressions equal `x`. */
  function CountEqual(ops: seq<Expr>, x: Expr): nat {
    if ops == [] then 0 else CountEqual(ops[1..], x) + if ExprEq(ops[0], x) then 1 else 0
  }

  lemma {:induction false} CountEqualConcat(p: seq<Expr>, q: seq<Expr>, x: Expr)
    ensures CountEqual(p + q, x) == CountEqual(p, x) + CountEqual(q, x)
  {
    if p == [] {
      assert p + q == q;
    } else {
      assert (p + q)[1..] == p[1..] + q;
      CountEqualConcat(p[1..], q, x);
    }
  }

  lemma {:induction false} CountIsMultiplicity(ty: Conn, e: Expr, x: Expr)
    requires NoConstOperands(e) && !YesOrNo(e) && NoConstOperands(x)
    ensures CountEqual(OperandList(ty, e), x) == Operands(ty, e)[CanonOf(x)]
  {
    if e.Is(ty) {
      CountIsMultiplicity(ty, e.l, x);
      CountIsMultiplicity(ty, e.r, x);
      CountEqualConcat(OperandList(ty, e.l), OperandList(ty, e.r), x);
    } else {
      ExprEqExact(e, x);
      assert CountEqual([e], x) == CountEqual([], x) + if ExprEq(e, x) then 1 else 0;
    }
  }

  lemma {:induction false} OperandsHaveNoConst(ty: Conn, e: Expr)
    requires NoConstOperands(e)
    ensures forall x :: x in OperandList(ty, e) ==> NoConstOperands(x)
  {
    if e.Is(ty) { OperandsHaveNoConst(ty, e.l); OperandsHaveNoConst(ty, e.r); }
  }

  /** Every operand in canonical form is that of some operand. */
  lemma {:induction false} OperandOf(ty: Conn, e: Expr, c: Canon) returns (x: Expr)
    requires c in Operands(ty, e)
    ensures x in OperandList(ty, e) && CanonOf(x) == c
  {
    if e.Is(ty) {
      if c in Operands(ty, e.l) { x := OperandOf(ty, e.l, c); } else { x := OperandOf(ty, e.r, c); }
    } else {
      x := e;
    }
  }

  /** Every operand of either side occurs equally often on both. */
  predicate EquallyOften(ty: Conn, a: Expr, b: Expr) {
    forall x :: x in OperandList(ty, a) + OperandList(ty, b) ==>
      CountEqual(OperandList(ty, a), x) == CountEqual(OperandList(ty, b), x)
  }

  /** What the comment asks for: every operand of one side equals some operand of the other. */
  predicate EachEqualsSome(ty: Conn, a: Expr, b: Expr) {
    && (forall x :: x in OperandList(ty, a) ==> CountEqual(OperandList(ty, b), x) > 0)
    && forall x :: x in OperandList(ty, b) ==> CountEqual(OperandList(ty, a), x) > 0
  }

  predicate NoneRepeated(ty: Conn, e: Expr) {
    forall x :: x in OperandList(ty, e) ==> CountEqual(OperandList(ty, e), x) == 1
  }

  /** Every operand equals itself at least. */
  lemma OperandsCounted(ty: Conn, e: Expr)
    requires NoConstOperands(e) && !YesOrNo(e)
    ensures forall x :: x in OperandList(ty, e) ==> CountEqual(OperandList(ty, e), x) > 0
  {
    OperandsHaveNoConst(ty, e);
    forall x | x in OperandList(ty, e) ensures CountEqual(OperandList(ty, e), x) > 0 {
      CountIsMultiplicity(ty, e, x);
      IsOperand(ty, e, x);
    }
  }

  lemma {:induction false} IsOperand(ty: Conn, e: Expr, x: Expr)
    requires NoConstOperands(e) && !YesOrNo(e) && x in OperandList(ty, e)
    ensures CanonOf(x) in Operands(ty, e)
  {
    if e.Is(ty) {
      if x in OperandList(ty, e.l) { IsOperand(ty, e.l, x); } else { IsOperand(ty, e.r, x); }
    }
  }

  /** What equals some operand of a list without repetition equals one of them. */
  lemma CountedOnce(ty: Conn, e: Expr, x: Expr)
    requires NoConstOperands(e) && !YesOrNo(e) && NoConstOperands(x)
    requires NoneRepeated(ty, e) && CountEqual(OperandList(ty, e), x) > 0
    ensures CountEqual(OperandList(ty, e), x) == 1
  {
    CountIsMultiplicity(ty, e, x);
    var y := OperandOf(ty, e, CanonOf(x));
    OperandsHaveNoConst(ty, e);
    CountIsMultiplicity(ty, e, y);
  }

  /** Two lists of the same kind are found equal exactly when every operand occurs equally often on both
      sides. */
  lemma ExprEqCounts(ty: Conn, a: Expr, b: Expr)
    requires a.Is(ty) && b.Is(ty) && NoConstOperands(a) && NoConstOperands(b)
    ensures ExprEq(a, b) <==> EquallyOften(ty, a, b)
  {
    ExprEqExact(a, b);
    var p, q := OperandList(ty, a), OperandList(ty, b);
    OperandsHaveNoConst(ty, a);
    OperandsHaveNoConst(ty, b);
    forall x | x in p + q
      ensures CountEqual(p, x) == Operands(ty, a)[CanonOf(x)] && CountEqual(q, x) == Operands(ty, b)[CanonOf(x)]
    {
      CountIsMultiplicity(ty, a, x);
      CountIsMultiplicity(ty, b, x);
    }
    if EquallyOften(ty, a, b) {
      forall c ensures Operands(ty, a)[c] == Operands(ty, b)[c] {
        if c in Operands(ty, a) {
          var x := OperandOf(ty, a, c);
          assert x in p + q;
        } else if c in Operands(ty, b) {
          var x := OperandOf(ty, b, c);
          assert x in p + q;
        }
      }
      assert Operands(ty, a) == Operands(ty, b);
    }
  }

  /** The comment's condition is necessary. It is sufficient exactly when, in addition, every operand occurs
      equally often on both sides, which it does where no side repeats an operand. */
  lemma CommentExact(ty: Conn, a: Expr, b: Expr)
    requires a.Is(ty) && b.Is(ty) && NoConstOperands(a) && NoConstOperands(b)
    ensures ExprEq(a, b) <==> EachEqualsSome(ty, a, b) && EquallyOften(ty, a, b)
    ensures NoneRepeated(ty, a) && NoneRepeated(ty, b) ==> (ExprEq(a, b) <==> EachEqualsSome(ty, a, b))
  {
    ExprEqCounts(ty, a, b);
    OperandsCounted(ty, a);
    OperandsCounted(ty, b);
    OperandsHaveNoConst(ty, a);
    OperandsHaveNoConst(ty, b);
    if NoneRepeated(ty, a) && NoneRepeated(ty, b) && EachEqualsSome(ty, a, b) {
      forall x | x in OperandList(ty, a) ensures CountEqual(OperandList(ty, b), x) == 1 { CountedOnce(ty, b, x); }
      forall x | x in OperandList(ty, b) ensures CountEqual(OperandList(ty, a), x) == 1 { CountedOnce(ty, a, x); }
    }
  }
}
