/** Dependencies propagated down the menu tree: simplification keeps the transformed form, on which the
    rewriting for boolean symbols relies. */
module KconfigPropagate {
  import opened Options
  import opened KconfigExpr
  import opened KconfigEq
  import opened KconfigJoin
  import opened KconfigDups
  import opened KconfigTransform

  // ---------------------------------------------------------------------------
  // Simplification keeps the transformed form
  // ---------------------------------------------------------------------------

  lemma {:induction false} EliminateYnNormal(e: Expr)
    requires Normal(e)
    ensures Normal(EliminateYn(e))
  {
    if e.Bin? {
      EliminateYnNormal(e.l);
      EliminateYnNormal(e.r);
    }
  }

  /** A join of two transformed operands is transformed: it compares no boolean symbol with y, m or n. */
  lemma JoinNormal(ty: Conn, a: Expr, b: Expr)
    requires Join(ty, a, b).Some? && Normal(a) && Normal(b)
    ensures Normal(Join(ty, a, b).value)
  {
  }

  lemma {:induction false} SpinePutNormal(ty: Conn, e: Expr, p: Path, x: Expr)
    requires OperandAt(ty, e, p) && Normal(e) && Normal(x)
    ensures HasPath(e, p) && Normal(Get(e, p)) && Normal(Put(e, p, x))
  {
    if p != [] {
      SpinePutNormal(ty, if p[0] == L then e.l else e.r, p[1..], x);
    }
  }

  lemma JoinPairNormal(ty: Conn, e: Expr, p: Path, q: Path, n: nat)
    requires OperandAt(ty, e, p) && OperandAt(ty, e, q) && p != q && Normal(e)
    ensures Normal(JoinPair(ty, e, p, q, n).0)
  {
    SpineGet(ty, e, p); SpineGet(ty, e, q);
    SpinePutNormal(ty, e, p, Neutral(ty));
    SpinePutNormal(ty, e, q, Neutral(ty));
    var j := Join(ty, Get(e, p), Get(e, q));
    if j.Some? {
      JoinNormal(ty, Get(e, p), Get(e, q));
      JoinSound(ty, Get(e, p), Get(e, q));
      SpinePut(ty, e, p, Neutral(ty));
      SpinePutOther(ty, e, p, q, Neutral(ty));
      SpinePutNormal(ty, Put(e, p, Neutral(ty)), q, j.value);
    }
  }

  lemma {:induction false} SweepNormal(ty: Conn, e: Expr, p: Path, q: Path)
    requires OnSpine(ty, e, p) && OnSpine(ty, e, q) && Normal(e)
    ensures Normal(Sweep(ty, e, p, q).0)
    decreases Size(e), Nodes(Below(ShapeOf(ty, e), p)) + Nodes(Below(ShapeOf(ty, e), q))
  {
    var s := ShapeOf(ty, e);
    if Below(s, p).Node? {
      ShapeExtend(s, p, L); ShapeExtend(s, p, R);
      SweepNormal(ty, e, p + [L], q);
      SweepNormal(ty, Sweep(ty, e, p + [L], q).0, p + [R], q);
    } else if Below(s, q).Node? {
      ShapeExtend(s, q, L); ShapeExtend(s, q, R);
      SweepNormal(ty, e, p, q + [L]);
      SweepNormal(ty, Sweep(ty, e, p, q + [L]).0, p, q + [R]);
    } else if p != q {
      SpineGet(ty, e, p); SpineGet(ty, e, q);
      var a := Get(e, p);
      SpinePutNormal(ty, e, p, Neutral(ty));
      var (a', m) := if a.Bin? then Sweep(a.conn, a, [], []) else (a, 0);
      if a.Bin? {
        SweepNormal(a.conn, a, [], []);
      }
      SpinePutNormal(ty, e, p, a');
      SpinePut(ty, e, p, a');
      SpinePutOther(ty, e, p, q, a');
      JoinPairNormal(ty, Put(e, p, a'), p, q, m);
    }
  }

  lemma {:induction false} EliminateDupsNormal(e: Expr)
    requires Normal(e)
    ensures Normal(EliminateDups(e))
    decreases Size(e)
  {
    var (e1, n) := Pass(e);
    PassShrinks(e);
    if e.Bin? {
      SweepNormal(e.conn, e, [], []);
    }
    if n > 0 {
      EliminateYnNormal(e1);
      EliminateDupsNormal(EliminateYn(e1));
    }
  }

  // ---------------------------------------------------------------------------
  // Propagation
  // ---------------------------------------------------------------------------

  /** rewrite_m: the constant m stands for m where modules are supported. */
  function RewriteM(e: Expr, modules: Symbol): Expr {
    match e
    case Not(x) => Not(RewriteM(x, modules))
    case Bin(ty, l, r) => Bin(ty, RewriteM(l, modules), RewriteM(r, modules))
    case Sym(s) => if s == SymMod then Bin(And, e, Sym(modules)) else e
    case Rel(_, _, _) => e
  }

  /** What a child's dependency becomes below a menu node with dependency `parent`. */
  function Propagate(parent: Expr, dep: Expr, modules: Symbol): Expr {
    EliminateDups(Bin(And, parent, Transform(RewriteM(dep, modules))))
  }

  /** The condition of a property, rewritten again where the symbol is not tristate. */
  function PropagateCondition(parent: Expr, dep: Expr, modules: Symbol, tristate: bool): Expr {
    if tristate then Propagate(parent, dep, modules) else TransBool(Propagate(parent, dep, modules))
  }

  lemma {:induction false} PlainRewriteM(e: Expr, modules: Symbol)
    requires Plain(e)
    ensures Plain(RewriteM(e, modules))
  {
    match e
    case Not(x) => PlainRewriteM(x, modules);
    case Bin(_, l, r) => PlainRewriteM(l, modules); PlainRewriteM(r, modules);
    case _ =>
  }

  /** The expression with n for every bare m. */
  function WithoutM(e: Expr): Expr {
    match e
    case Not(x) => Not(WithoutM(x))
    case Bin(ty, l, r) => Bin(ty, WithoutM(l), WithoutM(r))
    case Sym(s) => if s == SymMod then Sym(SymNo) else e
    case Rel(_, _, _) => e
  }

  /** Without modules every bare m counts as n; with modules rewriting changes no value. */
  lemma {:induction false} RewriteMValue(e: Expr, modules: Symbol, v: Valuation)
    ensures Value(RewriteM(e, modules), v) == Value(if TriOf(v, modules) == 0 then WithoutM(e) else e, v)
  {
    match e
    case Not(x) => RewriteMValue(x, modules, v);
    case Bin(_, l, r) => RewriteMValue(l, modules, v); RewriteMValue(r, modules, v);
    case _ =>
  }

  /** A propagated dependency is the smaller of the parent's and the child's own, and it is in
      transformed form if the parent's is. */
  lemma PropagateSound(parent: Expr, dep: Expr, modules: Symbol, v: Valuation)
    requires Plain(parent) && Plain(dep) && Fits(v)
    ensures Value(Propagate(parent, dep, modules), v) ==
              Combine(And, Value(parent, v), Value(RewriteM(dep, modules), v))
    ensures Plain(Propagate(parent, dep, modules))
    ensures Normal(parent) ==> Normal(Propagate(parent, dep, modules))
  {
    var own := RewriteM(dep, modules);
    PlainRewriteM(dep, modules);
    PlainTransform(own);
    TransformSound(own, v);
    TransformNormal(own);
    EliminateDupsSound(Bin(And, parent, Transform(own)), v);
    if Normal(parent) {
      EliminateDupsNormal(Bin(And, parent, Transform(own)));
    }
  }

  lemma {:induction false} TransBoolNormal(e: Expr)
    requires Normal(e)
    ensures Normal(TransBool(e))
  {
    if e.Bin? { TransBoolNormal(e.l); TransBoolNormal(e.r); }
  }

  /** Every condition is in transformed form, as the submenu test needs it of the parent's. */
  lemma PropagateConditionNormal(parent: Expr, dep: Expr, modules: Symbol, tristate: bool)
    requires Normal(parent)
    ensures Normal(PropagateCondition(parent, dep, modules, tristate))
  {
    var own := Transform(RewriteM(dep, modules));
    TransformNormal(RewriteM(dep, modules));
    EliminateDupsNormal(Bin(And, parent, own));
    TransBoolNormal(Propagate(parent, dep, modules));
  }

  /** The condition of a boolean symbol's property is no exactly when the propagated dependency is. */
  lemma PropagateConditionSound(parent: Expr, dep: Expr, modules: Symbol, tristate: bool, v: Valuation)
    requires Plain(parent) && Plain(dep) && Normal(parent) && Fits(v)
    ensures var c := Value(PropagateCondition(parent, dep, modules, tristate), v);
            var d := Combine(And, Value(parent, v), Value(RewriteM(dep, modules), v));
            (c == 0 <==> d == 0) && c <= d && (tristate ==> c == d)
  {
    PropagateSound(parent, dep, modules, v);
    NormalTestsPositive(Propagate(parent, dep, modules));
    TransBoolKeepsTruth(Propagate(parent, dep, modules), v);
  }

  /** The dependency of a node below a chain of menus with these dependencies, outermost first. */
  function Nested(deps: seq<Expr>, modules: Symbol): Expr {
    if deps == [] then Sym(SymYes)
    else Propagate(Nested(deps[..|deps| - 1], modules), deps[|deps| - 1], modules)
  }

  function Least(deps: seq<Expr>, modules: Symbol, v: Valuation): Tristate {
    if deps == [] then 2
    else Combine(And, Least(deps[..|deps| - 1], modules, v), Value(RewriteM(deps[|deps| - 1], modules), v))
  }

  /** At any depth the propagated dependency is the least of all those on the way down. */
  lemma {:induction false} NestedIsLeast(deps: seq<Expr>, modules: Symbol, v: Valuation)
    requires (forall i :: 0 <= i < |deps| ==> Plain(deps[i])) && Fits(v)
    ensures Value(Nested(deps, modules), v) == Least(deps, modules, v)
    ensures Plain(Nested(deps, modules)) && Normal(Nested(deps, modules))
  {
    if deps != [] {
      NestedIsLeast(deps[..|deps| - 1], modules, v);
      PropagateSound(Nested(deps[..|deps| - 1], modules), deps[|deps| - 1], modules, v);
    }
  }
}
