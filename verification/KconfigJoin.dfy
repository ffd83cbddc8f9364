/**
 Joining two operands of an AND or OR into one.
 */
module KconfigJoin {
  import opened Options
  import opened KconfigExpr
  import opened KconfigEq

  /** The symbol the first operand is about: a negation is looked through once. */
  function FirstSymbol(e: Expr): Option<Symbol> {
    match e
    case Sym(s) => Some(s)
    case Rel(op, x, _) => if op == Equal || op == Unequal then Some(x) else None
    case Not(Sym(s)) => Some(s)
    case Not(Rel(op, x, _)) => if op == Equal || op == Unequal then Some(x) else None
    case _ => None
  }

  /** The symbol the second operand is about: only a negated symbol is looked through. */
  function SecondSymbol(e: Expr): Option<Symbol> {
    match e
    case Not(x) => if x.Sym? then Some(x.sym) else None
    case _ => FirstSymbol(e)
  }

  /** `s = x` and `s = y`, in either order, among the right sides of two comparisons of kind `op`. */
  predicate BothRel(op: RelOp, a: Expr, b: Expr, x: Symbol, y: Symbol) {
    a.Rel? && b.Rel? && a.op == op && b.op == op &&
    ((a.rhs == x && b.rhs == y) || (a.rhs == y && b.rhs == x))
  }

  /** A bare symbol next to a comparison of kind `op` with `x`, in either order. */
  predicate SymAndRel(op: RelOp, a: Expr, b: Expr, x: Symbol) {
    (a.Sym? && b.Rel? && b.op == op && b.rhs == x) ||
    (b.Sym? && a.Rel? && a.op == op && a.rhs == x)
  }

  predicate NegatedPair(a: Expr, b: Expr) {
    (a.Not? && a.arg.Sym? && b.Sym?) || (b.Not? && b.arg.Sym? && a.Sym?)
  }

  /** expr_join_or; None is the source's null pointer. */
  function JoinOr(a: Expr, b: Expr): Option<Expr> {
    if ExprEq(a, b) then Some(a)
    else if FirstSymbol(a).None? || FirstSymbol(a) != SecondSymbol(b) then None
    else
      var s := FirstSymbol(a).value;
      if s.IsTristate() && BothRel(Equal, a, b, SymYes, SymMod) then Some(Rel(Unequal, s, SymNo))
      else if s.IsTristate() && BothRel(Equal, a, b, SymYes, SymNo) then Some(Rel(Unequal, s, SymMod))
      else if s.IsTristate() && BothRel(Equal, a, b, SymMod, SymNo) then Some(Rel(Unequal, s, SymYes))
      else if s.IsBoolean() && NegatedPair(a, b) then Some(Sym(SymYes))
      else None
  }

  /** expr_join_and */
  function JoinAnd(a: Expr, b: Expr): Option<Expr> {
    if ExprEq(a, b) then Some(a)
    else if FirstSymbol(a).None? || FirstSymbol(a) != SecondSymbol(b) then None
    else
      var s := FirstSymbol(a).value;
      if !s.IsLogic() then None
      else if SymAndRel(Equal, a, b, SymYes) then Some(Rel(Equal, s, SymYes))
      else if SymAndRel(Unequal, a, b, SymNo) then Some(Sym(s))
      else if SymAndRel(Unequal, a, b, SymMod) then Some(Rel(Equal, s, SymYes))
      else if !s.IsTristate() then None
      else if a.Rel? && a.op == Equal && b.Rel? && b.op == Unequal && b.rhs.IsConst() && a.rhs.IsConst() then
        Some(if a.rhs != b.rhs then Rel(Equal, s, a.rhs) else Sym(SymNo))
      else if a.Rel? && a.op == Unequal && b.Rel? && b.op == Equal && a.rhs.IsConst() && b.rhs.IsConst() then
        Some(if b.rhs != a.rhs then Rel(Equal, s, b.rhs) else Sym(SymNo))
      else if BothRel(Unequal, a, b, SymYes, SymNo) then Some(Rel(Equal, s, SymMod))
      else if BothRel(Unequal, a, b, SymYes, SymMod) then Some(Rel(Equal, s, SymNo))
      else if BothRel(Unequal, a, b, SymMod, SymNo) then Some(Rel(Equal, s, SymYes))
      else None
  }

  function Join(ty: Conn, a: Expr, b: Expr): Option<Expr> {
    match ty
    case And => JoinAnd(a, b)
    case Or => JoinOr(a, b)
  }

  // ---------------------------------------------------------------------------
  // Exactly which pairs are joined, and into what
  // ---------------------------------------------------------------------------

  /** The pair is `x` and `y`, in either order. */
  predicate IsPair(a: Expr, b: Expr, x: Expr, y: Expr) {
    (a == x && b == y) || (a == y && b == x)
  }

  /** The rows of the table for OR, about symbol `s`. */
  predicate OrRow(s: Symbol, a: Expr, b: Expr, r: Expr) {
    || (s.IsTristate() &&
        (|| (IsPair(a, b, Rel(Equal, s, SymYes), Rel(Equal, s, SymMod)) && r == Rel(Unequal, s, SymNo))
         || (IsPair(a, b, Rel(Equal, s, SymYes), Rel(Equal, s, SymNo)) && r == Rel(Unequal, s, SymMod))
         || (IsPair(a, b, Rel(Equal, s, SymMod), Rel(Equal, s, SymNo)) && r == Rel(Unequal, s, SymYes))))
    || (s.IsBoolean() && IsPair(a, b, Sym(s), Not(Sym(s))) && r == Sym(SymYes))
  }

  /** The row for an equality and an inequality of a tristate symbol with two constants. */
  predicate EqualUnequalRow(s: Symbol, x: Symbol, y: Symbol, a: Expr, b: Expr, r: Expr) {
    && s.IsTristate() && x.IsConst() && y.IsConst() && IsPair(a, b, Rel(Equal, s, x), Rel(Unequal, s, y))
    && r == if x == y then Sym(SymNo) else Rel(Equal, s, x)
  }

  /** The rows of the table for AND, about symbol `s`. */
  ghost predicate AndRow(s: Symbol, a: Expr, b: Expr, r: Expr) {
    || (s.IsLogic() &&
        (|| (IsPair(a, b, Sym(s), Rel(Equal, s, SymYes)) && r == Rel(Equal, s, SymYes))
         || (IsPair(a, b, Sym(s), Rel(Unequal, s, SymNo)) && r == Sym(s))
         || (IsPair(a, b, Sym(s), Rel(Unequal, s, SymMod)) && r == Rel(Equal, s, SymYes))))
    || (s.IsTristate() &&
        (|| (IsPair(a, b, Rel(Unequal, s, SymYes), Rel(Unequal, s, SymNo)) && r == Rel(Equal, s, SymMod))
         || (IsPair(a, b, Rel(Unequal, s, SymYes), Rel(Unequal, s, SymMod)) && r == Rel(Equal, s, SymNo))
         || (IsPair(a, b, Rel(Unequal, s, SymMod), Rel(Unequal, s, SymNo)) && r == Rel(Equal, s, SymYes))))
    || exists x: Symbol, y: Symbol :: EqualUnequalRow(s, x, y, a, b, r)
  }

  ghost predicate Row(ty: Conn, s: Symbol, a: Expr, b: Expr, r: Expr) {
    match ty
    case And => AndRow(s, a, b, r)
    case Or => OrRow(s, a, b, r)
  }

  lemma OrRowJoined(s: Symbol, a: Expr, b: Expr, r: Expr)
    requires OrRow(s, a, b, r) && !ExprEq(a, b)
    ensures JoinOr(a, b) == Some(r)
  {
  }

  lemma JoinedOrRow(a: Expr, b: Expr) returns (s: Symbol)
    requires JoinOr(a, b).Some? && !ExprEq(a, b)
    ensures OrRow(s, a, b, JoinOr(a, b).value)
  {
    s := FirstSymbol(a).value;
  }

  lemma AndRowJoined(s: Symbol, a: Expr, b: Expr, r: Expr)
    requires AndRow(s, a, b, r) && !ExprEq(a, b)
    ensures JoinAnd(a, b) == Some(r)
  {
  }

  lemma JoinedAndRow(a: Expr, b: Expr) returns (s: Symbol)
    requires JoinAnd(a, b).Some? && !ExprEq(a, b)
    ensures AndRow(s, a, b, JoinAnd(a, b).value)
  {
    s := FirstSymbol(a).value;
    if a.Rel? && b.Rel? {
      if a.op == Equal {
        assert EqualUnequalRow(s, a.rhs, b.rhs, a, b, JoinAnd(a, b).value);
      } else if b.op == Equal {
        assert EqualUnequalRow(s, b.rhs, a.rhs, a, b, JoinAnd(a, b).value);
      }
    }
  }

  /** Equal operands are joined into the first of them, others exactly by a row of the table. */
  lemma JoinExactly(ty: Conn, a: Expr, b: Expr, r: Expr)
    ensures Join(ty, a, b) == Some(r) <==>
              if ExprEq(a, b) then r == a else exists s: Symbol :: Row(ty, s, a, b, r)
  {
    if !ExprEq(a, b) {
      if s: Symbol :| Row(ty, s, a, b, r) {
        match ty
        case And => AndRowJoined(s, a, b, r);
        case Or => OrRowJoined(s, a, b, r);
      }
      if Join(ty, a, b) == Some(r) {
        var s;
        match ty {
          case And => s := JoinedAndRow(a, b);
          case Or => s := JoinedOrRow(a, b);
        }
        assert Row(ty, s, a, b, r);
      }
    }
  }

  // ---------------------------------------------------------------------------
  // Soundness
  // ---------------------------------------------------------------------------

  /** What the comparisons and symbols the joins look at are worth for a symbol of the given value. */
  lemma LogicValues(v: Valuation, s: Symbol)
    requires s.IsLogic() && Fits(v)
    ensures Value(Sym(s), v) == v.tri(s) && (s.IsBoolean() ==> v.tri(s) != 1)
    ensures forall c: Symbol :: c.IsConst() ==>
              && Value(Rel(Equal, s, c), v) == (if Denotes(c, v.tri(s)) then 2 else 0)
              && Value(Rel(Unequal, s, c), v) == (if Denotes(c, v.tri(s)) then 0 else 2)
  {
    forall c: Symbol | c.IsConst()
      ensures Compare(v, s, c) == 0 <==> Denotes(c, v.tri(s))
    {
      CompareConst(v, s, c);
    }
  }

  lemma {:induction false} JoinOrSound(a: Expr, b: Expr, v: Valuation)
    requires Fits(v) && JoinOr(a, b).Some?
    ensures Value(JoinOr(a, b).value, v) == Combine(Or, Value(a, v), Value(b, v))
  {
    if ExprEq(a, b) {
      ExprEqSound(a, b, v);
    } else {
      LogicValues(v, FirstSymbol(a).value);
    }
  }

  lemma {:induction false} JoinAndSound(a: Expr, b: Expr, v: Valuation)
    requires Fits(v) && JoinAnd(a, b).Some?
    requires Plain(a) && Plain(b)
    ensures Value(JoinAnd(a, b).value, v) == Combine(And, Value(a, v), Value(b, v))
  {
    if ExprEq(a, b) {
      ExprEqSound(a, b, v);
    } else {
      var s := FirstSymbol(a).value;
      LogicValues(v, s);
      if a.Rel? && b.Rel? && a.rhs.IsConst() && b.rhs.IsConst() && a.rhs != b.rhs {
        assert !(Denotes(a.rhs, v.tri(s)) && Denotes(b.rhs, v.tri(s)));
      }
    }
  }

  /** A joined pair is worth what the connective makes of the two, is smaller than the two together,
      introduces no new kind of constant and is no spine of the same connective. */
  lemma JoinSound(ty: Conn, a: Expr, b: Expr)
    requires Join(ty, a, b).Some?
    ensures Size(Join(ty, a, b).value) < Size(a) + Size(b)
    ensures !a.Is(ty) ==> !Join(ty, a, b).value.Is(ty)
    ensures Plain(a) && Plain(b) ==> Plain(Join(ty, a, b).value)
    ensures forall v: Valuation :: Fits(v) && Plain(a) && Plain(b) ==>
              Value(Join(ty, a, b).value, v) == Combine(ty, Value(a, v), Value(b, v))
  {
    forall v: Valuation | Fits(v) && Plain(a) && Plain(b)
      ensures Value(Join(ty, a, b).value, v) == Combine(ty, Value(a, v), Value(b, v))
    {
      match ty
      case And => JoinAndSound(a, b, v);
      case Or => JoinOrSound(a, b, v);
    }
  }

  // ---------------------------------------------------------------------------
  // When numeric constants break the join
  // ---------------------------------------------------------------------------

  /** (s = b) && (s != c), in either order, is joined correctly exactly when no value of the symbol is
      denoted by two different constants b and c. */
  lemma JoinEqualUnequalExact(s: Symbol, b: Symbol, c: Symbol, equalFirst: bool)
    requires s.IsTristate() && b.IsConst() && c.IsConst()
    ensures var eq, ne := Rel(Equal, s, b), Rel(Unequal, s, c);
            var x, y := if equalFirst then eq else ne, if equalFirst then ne else eq;
            && JoinAnd(x, y).Some?
            && (Equivalent(JoinAnd(x, y).value, Bin(And, x, y))
                <==> b == c || forall t: Tristate :: !(Denotes(b, t) && Denotes(c, t)))
  {
    var eq, ne := Rel(Equal, s, b), Rel(Unequal, s, c);
    var x, y := if equalFirst then eq else ne, if equalFirst then ne else eq;
    var j := JoinAnd(x, y).value;
    var separate := b == c || forall t: Tristate :: !(Denotes(b, t) && Denotes(c, t));
    if separate {
      forall v: Valuation | Fits(v)
        ensures Value(j, v) == Value(Bin(And, x, y), v)
      {
        LogicValues(v, s);
      }
    } else {
      var t: Tristate :| Denotes(b, t) && Denotes(c, t);
      var v := Valuation(x => if x == s then t else 0, (_, _) => 0);
      assert Fits(v);
      LogicValues(v, s);
      assert Value(j, v) == 2 && Value(Bin(And, x, y), v) == 0;
    }
  }

  /** The constant 2 next to y: FOO=2 && FOO!=y is joined into FOO=2, which is y where the
      original is n. */
  lemma NumericConstantBreaksJoin()
    ensures var foo := Config("FOO", Tri);
            var x, y := Rel(Equal, foo, Text("2", Some(2))), Rel(Unequal, foo, SymYes);
            && JoinAnd(x, y) == JoinAnd(y, x) == Some(x)
            && !Equivalent(x, Bin(And, x, y)) && !Equivalent(x, Bin(And, y, x))
  {
    JoinEqualUnequalExact(Config("FOO", Tri), Text("2", Some(2)), SymYes, true);
    JoinEqualUnequalExact(Config("FOO", Tri), Text("2", Some(2)), SymYes, false);
    assert Denotes(Text("2", Some(2)), 2) && Denotes(SymYes, 2);
  }
}
