/**
 Pushing negations down, and the explicit comparisons built from an expression.
 */
module KconfigTransform {
  import opened KconfigExpr
  import opened KconfigEq
  import opened KconfigJoin
  import opened KconfigDups

  // ---------------------------------------------------------------------------
  // expr_transform
  // ---------------------------------------------------------------------------

  /** Pushing a negation over a connective lengthens the tree; it lowers this weight. */
  function Weight(e: Expr): (n: nat)
    ensures n >= 1
  {
    match e
    case Sym(_) => 1
    case Rel(_, _, _) => 2
    case Not(a) => 2 * Weight(a)
    case Bin(_, l, r) => 1 + Weight(l) + Weight(r)
  }

  function NegateOp(op: RelOp): RelOp {
    match op
    case Equal => Unequal
    case Unequal => Equal
    case Leq => Gth
    case Geq => Lth
    case Lth => Geq
    case Gth => Leq
  }

  function Dual(ty: Conn): Conn {
    match ty
    case And => Or
    case Or => And
  }

  /** A comparison of a boolean symbol with y, m or n needs no comparison. */
  function TransformRel(op: RelOp, a: Symbol, b: Symbol): Expr {
    if !a.IsBoolean() then Rel(op, a, b)
    else if op == Equal then
      if b == SymNo then Not(Sym(a)) else if b == SymMod then Sym(SymNo)
      else if b == SymYes then Sym(a) else Rel(op, a, b)
    else if op == Unequal then
      if b == SymNo then Sym(a) else if b == SymMod then Sym(SymYes)
      else if b == SymYes then Not(Sym(a)) else Rel(op, a, b)
    else Rel(op, a, b)
  }

  function NegateConst(s: Symbol): Expr {
    match s
    case SymYes => Sym(SymNo)
    case SymMod => Sym(SymMod)
    case SymNo => Sym(SymYes)
    case _ => Not(Sym(s))
  }

  lemma PushingIsLighter(ty: Conn, l: Expr, r: Expr)
    ensures Weight(Bin(Dual(ty), Not(l), Not(r))) < 2 * Weight(Bin(ty, l, r))
  {
    assert Weight(Not(l)) == 2 * Weight(l) && Weight(Not(r)) == 2 * Weight(r);
  }

  function Transform(e: Expr): (r: Expr)
    ensures Weight(r) <= Weight(e)
    decreases Weight(e)
  {
    match e
    case Sym(_) => e
    case Rel(op, a, b) => TransformRel(op, a, b)
    case Bin(ty, l, r) => Bin(ty, Transform(l), Transform(r))
    case Not(x) =>
      match Transform(x)
      case Sym(s) => NegateConst(s)
      case Rel(op, a, b) => Rel(NegateOp(op), a, b)
      case Not(y) => Transform(y)
      case Bin(ty, l, r) => PushingIsLighter(ty, l, r); Transform(Bin(Dual(ty), Not(l), Not(r)))
  }

  /** The transformed form: negations only above symbols other than y, m and n, and no comparison
      of a boolean symbol with one of them. */
  predicate Normal(e: Expr) {
    match e
    case Sym(_) => true
    case Rel(op, a, b) => !(a.IsBoolean() && (op == Equal || op == Unequal) && b.IsTruth())
    case Not(x) => x.Sym? && !x.sym.IsTruth()
    case Bin(_, l, r) => Normal(l) && Normal(r)
  }

  lemma {:induction false} TransformNormal(e: Expr)
    ensures Normal(Transform(e))
    decreases Weight(e)
  {
    match e
    case Sym(_) =>
    case Rel(_, _, _) =>
    case Bin(_, l, r) => TransformNormal(l); TransformNormal(r);
    case Not(x) =>
      TransformNormal(x);
      match Transform(x)
      case Not(y) => TransformNormal(y);
      case Bin(ty, l, r) => PushingIsLighter(ty, l, r); TransformNormal(Bin(Dual(ty), Not(l), Not(r)));
      case _ =>
  }

  /** The transformed forms are exactly the expressions left alone, so transforming twice is
      transforming once. */
  lemma {:induction false} TransformFixpoint(e: Expr)
    ensures Transform(e) == e <==> Normal(e)
    decreases e
  {
    if Normal(e) {
      match e
      case Bin(_, l, r) => TransformFixpoint(l); TransformFixpoint(r);
      case Not(x) => assert Transform(x) == x;
      case _ =>
    } else {
      TransformNormal(e);
    }
  }

  lemma {:induction false} TransformSound(e: Expr, v: Valuation)
    requires Fits(v)
    ensures Value(Transform(e), v) == Value(e, v)
    decreases Weight(e)
  {
    match e
    case Sym(_) =>
    case Rel(op, a, b) =>
      if a.IsBoolean() && b.IsTruth() {
        CompareConst(v, a, b);
      }
    case Bin(_, l, r) => TransformSound(l, v); TransformSound(r, v);
    case Not(x) =>
      TransformSound(x, v);
      match Transform(x)
      case Not(y) => TransformSound(y, v);
      case Bin(ty, l, r) => PushingIsLighter(ty, l, r); TransformSound(Bin(Dual(ty), Not(l), Not(r)), v);
      case _ =>
  }

  lemma {:induction false} PlainTransform(e: Expr)
    requires Plain(e)
    ensures Plain(Transform(e))
    decreases Weight(e)
  {
    match e
    case Bin(_, l, r) => PlainTransform(l); PlainTransform(r);
    case Not(x) =>
      PlainTransform(x);
      match Transform(x) {
        case Not(y) => PlainTransform(y);
        case Bin(ty, l, r) => PushingIsLighter(ty, l, r); PlainTransform(Bin(Dual(ty), Not(l), Not(r)));
        case _ =>
      }
    case _ =>
  }

  // ---------------------------------------------------------------------------
  // expr_trans_bool
  // ---------------------------------------------------------------------------

  function TransBool(e: Expr): Expr {
    match e
    case Bin(ty, l, r) => Bin(ty, TransBool(l), TransBool(r))
    case Not(x) => Not(TransBool(x))
    case Rel(Unequal, a, SymNo) => if a.IsTristate() then Sym(a) else e
    case _ => e
  }

  /** No comparison `FOO!=n` of a tristate symbol. */
  predicate TestFree(e: Expr) {
    match e
    case Sym(_) => true
    case Rel(op, a, b) => !(op == Unequal && a.IsTristate() && b == SymNo)
    case Not(x) => TestFree(x)
    case Bin(_, l, r) => TestFree(l) && TestFree(r)
  }

  lemma {:induction false} TransBoolFixpoint(e: Expr)
    ensures TransBool(e) == e <==> TestFree(e)
  {
    match e
    case Not(x) => TransBoolFixpoint(x);
    case Bin(_, l, r) => TransBoolFixpoint(l); TransBoolFixpoint(r);
    case _ =>
  }

  /** No such comparison below a negation. */
  predicate TestsPositive(e: Expr) {
    match e
    case Not(x) => TestFree(x)
    case Bin(_, l, r) => TestsPositive(l) && TestsPositive(r)
    case _ => true
  }

  /** In particular in every transformed expression. */
  lemma {:induction false} NormalTestsPositive(e: Expr)
    requires Normal(e)
    ensures TestsPositive(e)
  {
    if e.Bin? { NormalTestsPositive(e.l); NormalTestsPositive(e.r); }
  }

  /** Where no such comparison is negated the value can only drop from y to m: whether it is n stays. */
  lemma {:induction false} TransBoolKeepsTruth(e: Expr, v: Valuation)
    requires TestsPositive(e) && Fits(v)
    ensures Value(TransBool(e), v) == 0 <==> Value(e, v) == 0
    ensures Value(TransBool(e), v) <= Value(e, v)
  {
    match e
    case Bin(_, l, r) => TransBoolKeepsTruth(l, v); TransBoolKeepsTruth(r, v);
    case Rel(Unequal, a, SymNo) => if a.IsTristate() { CompareConst(v, a, SymNo); }
    case Not(x) => TransBoolFixpoint(x);
    case _ =>
  }

  /** Why: a negated comparison keeps its truth exactly where the symbol is not m. */
  lemma NegatedTest(foo: Symbol, v: Valuation)
    requires foo.IsTristate() && Fits(v)
    ensures var e := Not(Rel(Unequal, foo, SymNo));
            (Value(TransBool(e), v) == 0 <==> Value(e, v) == 0) <==> TriOf(v, foo) != 1
  {
    CompareConst(v, foo, SymNo);
  }

  // ---------------------------------------------------------------------------
  // expr_contains_symbol and expr_depends_symbol
  // ---------------------------------------------------------------------------

  predicate ContainsSymbol(e: Expr, s: Symbol) {
    match e
    case Bin(_, l, r) => ContainsSymbol(l, s) || ContainsSymbol(r, s)
    case Sym(x) => x == s
    case Rel(_, x, y) => x == s || y == s
    case Not(x) => ContainsSymbol(x, s)
  }

  /** The symbol stands somewhere in the expression, alone or on either side of a comparison. */
  ghost predicate StandsAt(e: Expr, p: Path, s: Symbol) {
    HasPath(e, p) && match Get(e, p)
                     case Sym(x) => x == s
                     case Rel(_, x, y) => x == s || y == s
                     case _ => false
  }

  lemma {:induction false} ContainsExactly(e: Expr, s: Symbol)
    ensures ContainsSymbol(e, s) <==> exists p :: StandsAt(e, p, s)
  {
    assert HasPath(e, []) && Get(e, []) == e;
    match e
    case Bin(_, l, r) => ContainsExactly(l, s); ContainsExactly(r, s); StandsBelow(e, l, L, s); StandsBelow(e, r, R, s);
    case Not(x) => ContainsExactly(x, s); StandsBelow(e, x, L, s);
    case _ => assert StandsAt(e, [], s) <==> ContainsSymbol(e, s);
  }

  lemma StandsBelow(e: Expr, x: Expr, side: Side, s: Symbol)
    requires e.Not? || e.Bin?
    requires HasPath(e, [side]) && x == Get(e, [side])
    ensures forall p :: StandsAt(x, p, s) <==> StandsAt(e, [side] + p, s)
    ensures forall p :: StandsAt(e, p, s) && p[0] == side ==> StandsAt(x, p[1..], s)
  {
    forall p ensures StandsAt(x, p, s) <==> StandsAt(e, [side] + p, s) {
      PathConcat(e, [side], p);
    }
    forall p | StandsAt(e, p, s) && p[0] == side ensures StandsAt(x, p[1..], s) {
      assert p == [side] + p[1..];
    }
  }

  predicate DependsSymbol(e: Expr, s: Symbol) {
    match e
    case Bin(And, l, r) => DependsSymbol(l, s) || DependsSymbol(r, s)
    case Sym(x) => x == s
    case Rel(Equal, x, y) => x == s && (y == SymYes || y == SymMod)
    case Rel(Unequal, x, y) => x == s && y == SymNo
    case _ => false
  }

  /** An absolute dependency: the expression is n whenever the symbol is. */
  lemma {:induction false} DependsSymbolSound(e: Expr, s: Symbol, v: Valuation)
    requires DependsSymbol(e, s) && s.IsLogic() && Fits(v)
    ensures TriOf(v, s) == 0 ==> Value(e, v) == 0
  {
    match e
    case Bin(And, l, r) =>
      if DependsSymbol(l, s) { DependsSymbolSound(l, s, v); } else { DependsSymbolSound(r, s, v); }
    case Rel(_, x, y) => CompareConst(v, x, y);
    case _ =>
  }

  // ---------------------------------------------------------------------------
  // expr_trans_compare
  // ---------------------------------------------------------------------------

  /** `equal` is the source's type == E_EQUAL, as against E_UNEQUAL. */
  function TransCompare(e: Expr, equal: bool, s: Symbol): Expr
    requires s.IsTruth()
  {
    match e
    case Bin(ty, l, r) =>
      var x, y := TransCompare(l, true, s), TransCompare(r, true, s);
      var b := if s == SymYes then Bin(ty, x, y) else if s == SymNo then Bin(Dual(ty), x, y) else e;
      if equal then b else Not(b)
    case Not(x) => TransCompare(x, !equal, s)
    case Rel(_, _, _) =>
      if s == SymMod then Sym(if equal then SymNo else SymYes)
      else if equal == (s == SymYes) then e
      else Not(e)
    case Sym(x) => Rel(if equal then Equal else Unequal, x, s)
  }

  /** Bare symbols are boolean, tristate, y, m or n. */
  predicate LogicSymbols(e: Expr) {
    match e
    case Sym(s) => s.IsLogic() || s.IsTruth()
    case Rel(_, _, _) => true
    case Not(x) => LogicSymbols(x)
    case Bin(_, l, r) => LogicSymbols(l) && LogicSymbols(r)
  }

  /** Nothing that is m is negated. */
  predicate NegatesNoMod(e: Expr, v: Valuation) {
    match e
    case Not(x) => NegatesNoMod(x, v) && Value(x, v) != 1
    case Bin(_, l, r) => NegatesNoMod(l, v) && NegatesNoMod(r, v)
    case _ => true
  }

  /** Expressions that are never m. */
  predicate TwoValued(e: Expr) {
    match e
    case Sym(s) => s == SymYes || s == SymNo || s.IsBoolean()
    case Rel(_, _, _) => true
    case Not(x) => TwoValued(x)
    case Bin(_, l, r) => TwoValued(l) && TwoValued(r)
  }

  /** Negations stand only above two-valued expressions. */
  predicate NegatesTwoValued(e: Expr) {
    match e
    case Not(x) => TwoValued(x)
    case Bin(_, l, r) => NegatesTwoValued(l) && NegatesTwoValued(r)
    case _ => true
  }

  lemma {:induction false} TwoValuedValue(e: Expr, v: Valuation)
    requires TwoValued(e) && Fits(v)
    ensures Value(e, v) != 1 && NegatesNoMod(e, v)
  {
    match e
    case Not(x) => TwoValuedValue(x, v);
    case Bin(_, l, r) => TwoValuedValue(l, v); TwoValuedValue(r, v);
    case _ =>
  }

  /** Such expressions negate nothing that is m under any valuation. */
  lemma {:induction false} NegatesTwoValuedOnly(e: Expr, v: Valuation)
    requires NegatesTwoValued(e) && Fits(v)
    ensures NegatesNoMod(e, v)
  {
    match e
    case Not(x) => TwoValuedValue(x, v);
    case Bin(_, l, r) => NegatesTwoValuedOnly(l, v); NegatesTwoValuedOnly(r, v);
    case _ =>
  }

  /** Whether the comparison with y or n that is built misjudges the expression.  A negation is taken to
      turn the answer around, which it does unless its operand is m.  An AND compared with y, or an OR with
      n, compares so if both operands do; an AND compared with n, or an OR with y, if one does. */
  predicate Mistaken(e: Expr, s: Symbol, v: Valuation) {
    match e
    case Not(x) => Mistaken(x, s, v) != (Value(x, v) == 1)
    case Bin(ty, l, r) =>
      var p, q := Value(l, v) == TriOf(v, s), Value(r, v) == TriOf(v, s);
      var x, y := Mistaken(l, s, v), Mistaken(r, s, v);
      if (ty == And) == (s == SymYes) then
        if p && q then x || y else p != x && q != y
      else
        if p || q then p == x && q == y else x || y
    case _ => false
  }

  /** The comparison with y or n that is built is y when the expression compares so and n otherwise, the
      other way round exactly where it is mistaken. */
  lemma {:induction false} TransCompareExact(e: Expr, equal: bool, s: Symbol, v: Valuation)
    requires (s == SymYes || s == SymNo) && LogicSymbols(e) && Fits(v)
    ensures Value(TransCompare(e, equal, s), v) ==
              if ((Value(e, v) == TriOf(v, s)) != Mistaken(e, s, v)) == equal then 2 else 0
  {
    match e
    case Bin(_, l, r) => TransCompareExact(l, true, s, v); TransCompareExact(r, true, s, v);
    case Not(x) => TransCompareExact(x, !equal, s, v);
    case Rel(_, _, _) =>
    case Sym(x) => SymbolCompare(x, equal, s, v);
  }

  lemma {:induction false} NotMistaken(e: Expr, s: Symbol, v: Valuation)
    requires NegatesNoMod(e, v)
    ensures !Mistaken(e, s, v)
  {
    match e
    case Bin(_, l, r) => NotMistaken(l, s, v); NotMistaken(r, s, v);
    case Not(x) => NotMistaken(x, s, v);
    case _ =>
  }

  /** So it is right under every valuation in which nothing that is m is negated. */
  lemma TransCompareSound(e: Expr, equal: bool, s: Symbol, v: Valuation)
    requires (s == SymYes || s == SymNo) && LogicSymbols(e) && NegatesNoMod(e, v) && Fits(v)
    ensures Value(TransCompare(e, equal, s), v) == if (Value(e, v) == TriOf(v, s)) == equal then 2 else 0
  {
    NotMistaken(e, s, v);
    TransCompareExact(e, equal, s, v);
  }

  lemma SymbolCompare(x: Symbol, equal: bool, s: Symbol, v: Valuation)
    requires (s == SymYes || s == SymNo) && (x.IsLogic() || x.IsTruth()) && Fits(v)
    ensures Value(TransCompare(Sym(x), equal, s), v) == if (TriOf(v, x) == TriOf(v, s)) == equal then 2 else 0
  {
    if x.IsLogic() {
      CompareConst(v, x, s);
    } else {
      StrCmpZero(TextOf(v, x), TextOf(v, s));
    }
  }

  /** At a negation it is right exactly when the operand is either not m and judged rightly, or m and
      misjudged. */
  lemma NegatedCompare(x: Expr, equal: bool, s: Symbol, v: Valuation)
    requires (s == SymYes || s == SymNo) && LogicSymbols(x) && Fits(v)
    ensures Value(TransCompare(Not(x), equal, s), v) == (if (Value(Not(x), v) == TriOf(v, s)) == equal then 2 else 0)
            <==> (Value(x, v) == 1 <==> Mistaken(x, s, v))
  {
    TransCompareExact(Not(x), equal, s, v);
  }

  /** Where a transformed expression that is not n is taken for n. */
  predicate Missed(e: Expr, v: Valuation) {
    match e
    case Not(x) => Value(x, v) == 1
    case Bin(And, l, r) => Value(e, v) != 0 && (Missed(l, v) || Missed(r, v))
    case Bin(Or, l, r) => Value(e, v) != 0 && (Missed(l, v) || Value(l, v) == 0) && (Missed(r, v) || Value(r, v) == 0)
    case _ => false
  }

  /** Transformed expressions negate symbols only, so that a comparison with n is mistaken to one side. */
  lemma {:induction false} MissedIsMistaken(e: Expr, v: Valuation)
    requires Normal(e)
    ensures Mistaken(e, SymNo, v) <==> Missed(e, v)
    ensures Missed(e, v) ==> Value(e, v) != 0
  {
    match e
    case Bin(_, l, r) => MissedIsMistaken(l, v); MissedIsMistaken(r, v);
    case Not(x) => assert Value(e, v) == 2 - Value(x, v);
    case _ =>
  }

  /** In transformed expressions a comparison with n answers as if what is missed were n. */
  lemma NoIsFound(e: Expr, equal: bool, v: Valuation)
    requires LogicSymbols(e) && Normal(e) && Fits(v)
    ensures Value(TransCompare(e, equal, SymNo), v) == if (Value(e, v) == 0 || Missed(e, v)) == equal then 2 else 0
  {
    MissedIsMistaken(e, v);
    TransCompareExact(e, equal, SymNo, v);
  }

  lemma {:induction false} PlainTransCompare(e: Expr, equal: bool, s: Symbol)
    requires s.IsTruth() && Plain(e)
    ensures Plain(TransCompare(e, equal, s))
  {
    match e
    case Bin(_, l, r) => PlainTransCompare(l, true, s); PlainTransCompare(r, true, s);
    case Not(x) => PlainTransCompare(x, !equal, s);
    case _ =>
  }

  // ---------------------------------------------------------------------------
  // The submenu test of menu_finalize
  // ---------------------------------------------------------------------------

  /** What menu_finalize compares: the dependency made two-valued and simplified. */
  function Condition(e: Expr): Expr {
    EliminateDups(Transform(TransCompare(e, false, SymNo)))
  }

  /** It is y or n: y exactly when the dependency is not n, the other way round where that is mistaken. */
  lemma ConditionExact(e: Expr, v: Valuation)
    requires LogicSymbols(e) && Plain(e) && Fits(v)
    ensures Value(Condition(e), v) == if (Value(e, v) != 0) != Mistaken(e, SymNo, v) then 2 else 0
  {
    var c := TransCompare(e, false, SymNo);
    PlainTransCompare(e, false, SymNo);
    TransformSound(c, v);
    PlainTransform(c);
    EliminateDupsSound(Transform(c), v);
    TransCompareExact(e, false, SymNo, v);
  }

  /** For a transformed dependency: y exactly when it is not n and not missed. */
  lemma ConditionSound(e: Expr, v: Valuation)
    requires LogicSymbols(e) && Plain(e) && Normal(e) && Fits(v)
    ensures Value(Condition(e), v) == if Value(e, v) != 0 && !Missed(e, v) then 2 else 0
  {
    MissedIsMistaken(e, v);
    ConditionExact(e, v);
  }

  /** The superset test: the operands shared with the parent's condition are eliminated and nothing of
      that condition remains. */
  predicate IsSuperset(dep: Expr, base: Expr) {
    EliminateEq(Condition(dep), Condition(base)).1 == Sym(SymYes)
  }

  /** The tests by which an item that follows a symbol goes into its submenu. */
  predicate GoesInSubmenu(dep: Expr, base: Expr, s: Symbol) {
    ContainsSymbol(dep, s) && (DependsSymbol(dep, s) || IsSuperset(dep, base))
  }

  lemma SupersetConditions(dep: Expr, base: Expr, v: Valuation)
    requires IsSuperset(dep, base)
    ensures Value(Condition(dep), v) == 2 ==> Value(Condition(base), v) == 2
  {
    EliminateEqImplies(Condition(dep), Condition(base), v);
  }

  /** An item taken by the superset test is visible only where the parent's condition holds, exactly
      unless its own condition is mistaken there and the parent's does not hold. */
  lemma SupersetExact(dep: Expr, base: Expr, v: Valuation)
    requires IsSuperset(dep, base) && Fits(v)
    requires LogicSymbols(dep) && LogicSymbols(base) && Plain(dep) && Plain(base) && Normal(base)
    ensures (Value(dep, v) != 0 ==> Value(base, v) != 0) <==>
              !(Value(dep, v) != 0 && Mistaken(dep, SymNo, v) && Value(base, v) == 0)
    ensures Normal(dep) ==>
              ((Value(dep, v) != 0 ==> Value(base, v) != 0) <==> !(Missed(dep, v) && Value(base, v) == 0))
  {
    ConditionExact(dep, v);
    ConditionSound(base, v);
    SupersetConditions(dep, base, v);
    if Normal(dep) { MissedIsMistaken(dep, v); }
  }

  /** An item moved into an automatic submenu is invisible whenever its parent's symbol is n, or is
      visible only where the parent's own condition holds. The latter is sure under every valuation in
      which the item's condition negates nothing that is m. */
  lemma SubmenuImplies(dep: Expr, base: Expr, s: Symbol, v: Valuation)
    requires GoesInSubmenu(dep, base, s) && s.IsLogic() && Fits(v)
    requires LogicSymbols(dep) && LogicSymbols(base) && Plain(dep) && Plain(base) && Normal(base)
    ensures DependsSymbol(dep, s) && Value(dep, v) != 0 ==> TriOf(v, s) != 0
    ensures !DependsSymbol(dep, s) && NegatesNoMod(dep, v) && Value(dep, v) != 0 ==> Value(base, v) != 0
  {
    if DependsSymbol(dep, s) {
      DependsSymbolSound(dep, s, v);
    } else {
      SupersetExact(dep, base, v);
      if NegatesNoMod(dep, v) { NotMistaken(dep, SymNo, v); }
    }
  }

  /** Otherwise an item can be visible where its parent is not: `!FOO && S!=y` counts as a superset of
      `FOO=n`, and FOO is m. */
  lemma NegatedTristateMisplaced(foo: Symbol, s: Symbol, v: Valuation)
    requires foo.IsTristate() && s.IsTristate() && Fits(v) && TriOf(v, foo) == 1 && TriOf(v, s) == 0
    ensures var dep, base := Bin(And, Not(Sym(foo)), Rel(Unequal, s, SymYes)), Rel(Equal, foo, SymNo);
            && GoesInSubmenu(dep, base, s) && !DependsSymbol(dep, s)
            && Missed(dep, v) && Value(dep, v) != 0 && Value(base, v) == 0
  {
    var c, d := Rel(Equal, foo, SymNo), Rel(Unequal, s, SymYes);
    MisplacedValues(foo, s, v);
    MisplacedCondition(foo, s);
    MisplacedOperands(c, d);
  }

  lemma MisplacedValues(foo: Symbol, s: Symbol, v: Valuation)
    requires foo.IsTristate() && s.IsTristate() && Fits(v) && TriOf(v, foo) == 1 && TriOf(v, s) == 0
    ensures Value(Rel(Equal, foo, SymNo), v) == 0 && Value(Rel(Unequal, s, SymYes), v) == 2
    ensures Value(Bin(And, Not(Sym(foo)), Rel(Unequal, s, SymYes)), v) == 1
  {
    CompareConst(v, foo, SymNo);
    CompareConst(v, s, SymYes);
    assert Value(Not(Sym(foo)), v) == 2 - Value(Sym(foo), v);
  }

  lemma MisplacedOperands(c: Expr, d: Expr)
    requires c.Rel? && d.Rel? && c != d
    ensures EliminateEq(Bin(And, c, d), c) == (d, Sym(SymYes))
  {
    var y := Sym(SymYes);
    assert EliminatePairs(And, c, c) == (y, y, 1);
    assert EliminatePairs(And, d, y) == (d, y, 0);
    assert EliminatePairs(And, Bin(And, c, d), c) == (Bin(And, y, d), y, 1);
    assert EliminatePasses(Bin(And, c, d), c) == (Bin(And, y, d), y, 1);
    assert EliminateYn(Bin(And, y, d)) == FoldConst(And, y, d) == d;
  }

  lemma MisplacedCondition(foo: Symbol, s: Symbol)
    requires foo.IsTristate() && s.IsTristate() && foo != s
    ensures var c, d := Rel(Equal, foo, SymNo), Rel(Unequal, s, SymYes);
            Condition(c) == c && Condition(Bin(And, Not(Sym(foo)), d)) == Bin(And, c, d)
  {
    var c, d := Rel(Equal, foo, SymNo), Rel(Unequal, s, SymYes);
    var e := Bin(And, Not(Sym(foo)), d);
    var c', d' := Rel(Unequal, foo, SymNo), Rel(Equal, s, SymYes);
    assert TransCompare(Not(Sym(foo)), true, SymNo) == TransCompare(Sym(foo), false, SymNo) == c';
    assert TransCompare(d, true, SymNo) == Not(d);
    assert TransCompare(e, false, SymNo) == Not(Bin(Or, c', Not(d)));
    assert Transform(Not(d)) == d' && Transform(c') == c';
    assert Transform(Not(c')) == c && Transform(Not(d')) == d;
    assert Transform(Bin(Or, c', Not(d))) == Bin(Or, c', d');
    assert Transform(TransCompare(e, false, SymNo)) == Bin(And, c, d);
    assert Join(And, c, d).None? && Join(And, d, c).None?;
    TwoOperands(And, c, d);
  }

  lemma OperandOfTwo(ty: Conn, c: Expr, d: Expr, p: Path)
    requires !c.Bin? && !d.Bin? && OperandAt(ty, Bin(ty, c, d), p)
    ensures HasPath(Bin(ty, c, d), p) && (p == [L] || p == [R])
    ensures Get(Bin(ty, c, d), p) == if p == [L] then c else d
  {
    var e := Bin(ty, c, d);
    assert p != [] && OnSpine(ty, e, p);
    var child := ShapeOf(ty, if p[0] == L then c else d);
    assert child == Operand && Below(ShapeOf(ty, e), p) == Below(child, p[1..]);
    assert p[1..] == [] && p == [p[0]];
  }

  lemma PairOfTwo(ty: Conn, c: Expr, d: Expr, p: Path, q: Path)
    requires !c.Bin? && !d.Bin? && Join(ty, c, d).None? && Join(ty, d, c).None?
    requires OperandAt(ty, Bin(ty, c, d), p) && OperandAt(ty, Bin(ty, c, d), q)
    ensures PairQuiet(ty, Bin(ty, c, d), p, q)
  {
    OperandOfTwo(ty, c, d, p);
    OperandOfTwo(ty, c, d, q);
  }

  /** Two operands that cannot be joined are left alone. */
  lemma TwoOperands(ty: Conn, c: Expr, d: Expr)
    requires !c.Bin? && !d.Bin? && Join(ty, c, d).None? && Join(ty, d, c).None?
    ensures EliminateDups(c) == c && EliminateDups(Bin(ty, c, d)) == Bin(ty, c, d)
  {
    var e := Bin(ty, c, d);
    forall p: Path, q: Path | OperandAt(ty, e, p) && OperandAt(ty, e, q) ensures PairQuiet(ty, e, p, q) {
      PairOfTwo(ty, c, d, p, q);
    }
    SweepQuiet(ty, e, [], []);
    EliminateDupsIrreducible(e);
    QuietIsIrreducible(e);
  }
}
