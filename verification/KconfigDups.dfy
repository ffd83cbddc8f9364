/**
 Removal of duplicate and redundant operands.  A sweep compares every operand with every other
 through two slots of the same tree, so what one pair writes is what the next pair reads.
 */
module KconfigDups {
  import opened Options
  import opened KconfigExpr
  import opened KconfigEq
  import opened KconfigJoin

  // ---------------------------------------------------------------------------
  // Spines: the nodes of one connective reachable from the root through that connective
  // ---------------------------------------------------------------------------

  datatype Shape = Operand | Node(l: Shape, r: Shape)

  function ShapeOf(ty: Conn, e: Expr): Shape {
    if e.Is(ty) then Node(ShapeOf(ty, e.l), ShapeOf(ty, e.r)) else Operand
  }

  predicate InShape(s: Shape, p: Path) {
    p == [] || (s.Node? && InShape(if p[0] == L then s.l else s.r, p[1..]))
  }

  function Below(s: Shape, p: Path): Shape
    requires InShape(s, p)
  {
    if p == [] then s else Below(if p[0] == L then s.l else s.r, p[1..])
  }

  function Nodes(s: Shape): nat {
    match s
    case Operand => 0
    case Node(l, r) => 1 + Nodes(l) + Nodes(r)
  }

  /** The slot `p` holds a spine node or an operand of the spine. */
  predicate OnSpine(ty: Conn, e: Expr, p: Path) {
    InShape(ShapeOf(ty, e), p)
  }

  /** The slot `p` holds an operand of the spine. */
  predicate OperandAt(ty: Conn, e: Expr, p: Path) {
    OnSpine(ty, e, p) && Below(ShapeOf(ty, e), p) == Operand
  }

  lemma {:induction false} SpineGet(ty: Conn, e: Expr, p: Path)
    requires OnSpine(ty, e, p)
    ensures HasPath(e, p)
    ensures ShapeOf(ty, Get(e, p)) == Below(ShapeOf(ty, e), p)
    ensures p == [] || Size(Get(e, p)) < Size(e)
    ensures Plain(e) ==> Plain(Get(e, p))
  {
    if p != [] {
      SpineGet(ty, if p[0] == L then e.l else e.r, p[1..]);
    }
  }

  lemma {:induction false} ShapeExtend(s: Shape, p: Path, d: Side)
    requires InShape(s, p) && Below(s, p).Node?
    ensures InShape(s, p + [d])
    ensures Below(s, p + [d]) == if d == L then Below(s, p).l else Below(s, p).r
  {
    if p == [] {
      assert p + [d] == [d] && [d][1..] == [];
    } else {
      assert (p + [d])[1..] == p[1..] + [d];
      ShapeExtend(if p[0] == L then s.l else s.r, p[1..], d);
    }
  }

  /** Writing an operand that is no spine node keeps the spine. */
  lemma {:induction false} SpinePut(ty: Conn, e: Expr, p: Path, x: Expr)
    requires OperandAt(ty, e, p) && !x.Is(ty)
    ensures HasPath(e, p)
    ensures ShapeOf(ty, Put(e, p, x)) == ShapeOf(ty, e)
    ensures Size(Put(e, p, x)) == Size(e) - Size(Get(e, p)) + Size(x)
    ensures HasPath(Put(e, p, x), p) && Get(Put(e, p, x), p) == x
    ensures Plain(e) && Plain(x) ==> Plain(Put(e, p, x))
  {
    if p != [] {
      SpinePut(ty, if p[0] == L then e.l else e.r, p[1..], x);
    }
  }

  /** Two different operand slots are disjoint. */
  lemma {:induction false} SpinePutOther(ty: Conn, e: Expr, p: Path, q: Path, x: Expr)
    requires OperandAt(ty, e, p) && OperandAt(ty, e, q) && p != q && !x.Is(ty)
    ensures HasPath(e, p) && HasPath(e, q) && HasPath(Put(e, p, x), q)
    ensures Get(Put(e, p, x), q) == Get(e, q)
  {
    SpineGet(ty, e, p);
    SpineGet(ty, e, q);
    if p[0] == q[0] {
      assert p[1..] != q[1..] by {
        assert p == [p[0]] + p[1..] && q == [q[0]] + q[1..];
      }
      SpinePutOther(ty, if p[0] == L then e.l else e.r, p[1..], q[1..], x);
    }
  }

  /** The value of a spine in terms of one operand: the rest is what is left when that operand is neutral. */
  lemma {:induction false} SpineValue(ty: Conn, e: Expr, p: Path, x: Expr, v: Valuation)
    requires OperandAt(ty, e, p)
    ensures HasPath(e, p)
    ensures Value(Put(e, p, x), v) == Combine(ty, Value(Put(e, p, Neutral(ty)), v), Value(x, v))
  {
    if p != [] {
      SpineValue(ty, if p[0] == L then e.l else e.r, p[1..], x, v);
    }
  }

  lemma {:induction false} SpinePutCommutes(ty: Conn, e: Expr, p: Path, q: Path, x: Expr, y: Expr)
    requires OperandAt(ty, e, p) && OperandAt(ty, e, q) && p != q
    requires !x.Is(ty) && !y.Is(ty)
    ensures HasPath(e, p) && HasPath(e, q) && HasPath(Put(e, p, x), q) && HasPath(Put(e, q, y), p)
    ensures Put(Put(e, p, x), q, y) == Put(Put(e, q, y), p, x)
  {
    SpinePutOther(ty, e, p, q, x);
    SpinePutOther(ty, e, q, p, y);
    if p[0] == q[0] {
      assert p[1..] != q[1..] by {
        assert p == [p[0]] + p[1..] && q == [q[0]] + q[1..];
      }
      SpinePutCommutes(ty, if p[0] == L then e.l else e.r, p[1..], q[1..], x, y);
    }
  }

  /** The value of a spine in terms of two of its operands, `rest` being the value of the others. */
  lemma SpineValueOfPair(ty: Conn, e: Expr, p: Path, q: Path, x: Expr, y: Expr, v: Valuation) returns (rest: Tristate)
    requires OperandAt(ty, e, p) && OperandAt(ty, e, q) && p != q
    requires !x.Is(ty) && !y.Is(ty)
    ensures HasPath(e, p) && HasPath(e, q) && HasPath(Put(e, p, x), q)
    ensures HasPath(Put(e, q, Neutral(ty)), p)
    ensures rest == Value(Put(Put(e, q, Neutral(ty)), p, Neutral(ty)), v)
    ensures Value(Put(Put(e, p, x), q, y), v) == Combine(ty, rest, Combine(ty, Value(x, v), Value(y, v)))
  {
    SpineGet(ty, e, p);
    SpineGet(ty, e, q);
    SpinePut(ty, e, p, x);
    SpinePut(ty, e, q, Neutral(ty));
    SpineValue(ty, Put(e, p, x), q, y, v);
    SpinePutCommutes(ty, e, p, q, x, Neutral(ty));
    SpineValue(ty, Put(e, q, Neutral(ty)), p, x, v);
    rest := Value(Put(Put(e, q, Neutral(ty)), p, Neutral(ty)), v);
  }

  /** Replacing two operands by two others of the same joint value keeps the value. */
  lemma SpineValuePair(ty: Conn, e: Expr, p: Path, q: Path, x: Expr, y: Expr, v: Valuation)
    requires OperandAt(ty, e, p) && OperandAt(ty, e, q) && p != q
    requires HasPath(e, p) && HasPath(e, q)
    requires !x.Is(ty) && !y.Is(ty)
    requires Combine(ty, Value(x, v), Value(y, v)) == Combine(ty, Value(Get(e, p), v), Value(Get(e, q), v))
    ensures HasPath(Put(e, p, x), q)
    ensures Value(Put(Put(e, p, x), q, y), v) == Value(e, v)
  {
    SpineGet(ty, e, p);
    SpineGet(ty, e, q);
    var a, b := Get(e, p), Get(e, q);
    var r1 := SpineValueOfPair(ty, e, p, q, x, y, v);
    var r2 := SpineValueOfPair(ty, e, p, q, a, b, v);
    PutTwice(e, p, a, a);
    PutTwice(e, q, b, b);
  }

  // ---------------------------------------------------------------------------
  // One sweep
  // ---------------------------------------------------------------------------

  /** expr_eliminate_dups1 on two slots of the spine of `e`, with the number of joins it makes.
      An operand that is itself an AND or OR is swept on its own whenever it is the first of a pair. */
  function Sweep(ty: Conn, e: Expr, p: Path, q: Path): (r: (Expr, nat))
    requires OnSpine(ty, e, p) && OnSpine(ty, e, q)
    ensures ShapeOf(ty, r.0) == ShapeOf(ty, e)
    ensures Size(r.0) <= Size(e)
    ensures e.Bin? ==> r.0.Is(e.conn)
    decreases Size(e), Nodes(Below(ShapeOf(ty, e), p)) + Nodes(Below(ShapeOf(ty, e), q))
  {
    var s := ShapeOf(ty, e);
    if Below(s, p).Node? then
      ShapeExtend(s, p, L); ShapeExtend(s, p, R);
      var (e1, m) := Sweep(ty, e, p + [L], q);
      var (e2, n) := Sweep(ty, e1, p + [R], q);
      (e2, m + n)
    else if Below(s, q).Node? then
      ShapeExtend(s, q, L); ShapeExtend(s, q, R);
      var (e1, m) := Sweep(ty, e, p, q + [L]);
      var (e2, n) := Sweep(ty, e1, p, q + [R]);
      (e2, m + n)
    else if p == q then (e, 0)
    else
      SpineGet(ty, e, p); SpineGet(ty, e, q);
      var a := Get(e, p);
      var (a', m) := if a.Bin? then Sweep(a.conn, a, [], []) else (a, 0);
      SpinePut(ty, e, p, a');
      SpinePutOther(ty, e, p, q, a');
      JoinPair(ty, Put(e, p, a'), p, q, m)
  }

  /** The last step for a pair of different operands: write the neutral element and the joined operand. */
  function JoinPair(ty: Conn, e: Expr, p: Path, q: Path, n: nat): (r: (Expr, nat))
    requires OperandAt(ty, e, p) && OperandAt(ty, e, q) && p != q
    ensures ShapeOf(ty, r.0) == ShapeOf(ty, e)
    ensures Size(r.0) <= Size(e)
    ensures e.Bin? ==> r.0.Is(e.conn)
  {
    SpineGet(ty, e, p); SpineGet(ty, e, q);
    var j := Join(ty, Get(e, p), Get(e, q));
    if j.None? then (e, n)
    else
      JoinSound(ty, Get(e, p), Get(e, q));
      SpinePut(ty, e, p, Neutral(ty));
      SpinePutOther(ty, e, p, q, Neutral(ty));
      SpinePut(ty, Put(e, p, Neutral(ty)), q, j.value);
      (Put(Put(e, p, Neutral(ty)), q, j.value), n + 1)
  }

  lemma {:induction false} JoinPairSound(ty: Conn, e: Expr, p: Path, q: Path, n: nat, v: Valuation)
    requires OperandAt(ty, e, p) && OperandAt(ty, e, q) && p != q
    requires Fits(v) && Plain(e)
    ensures Plain(JoinPair(ty, e, p, q, n).0)
    ensures Value(JoinPair(ty, e, p, q, n).0, v) == Value(e, v)
  {
    SpineGet(ty, e, p); SpineGet(ty, e, q);
    var a, b := Get(e, p), Get(e, q);
    var j := Join(ty, a, b);
    if j.Some? {
      JoinSound(ty, a, b);
      SpinePut(ty, e, p, Neutral(ty));
      SpinePutOther(ty, e, p, q, Neutral(ty));
      SpinePut(ty, Put(e, p, Neutral(ty)), q, j.value);
      SpineValuePair(ty, e, p, q, Neutral(ty), j.value, v);
    }
  }

  /** A sweep keeps the value of the tree under every valuation. */
  lemma {:induction false} SweepSound(ty: Conn, e: Expr, p: Path, q: Path, v: Valuation)
    requires OnSpine(ty, e, p) && OnSpine(ty, e, q)
    requires Fits(v) && Plain(e)
    ensures Plain(Sweep(ty, e, p, q).0)
    ensures Value(Sweep(ty, e, p, q).0, v) == Value(e, v)
    decreases Size(e), Nodes(Below(ShapeOf(ty, e), p)) + Nodes(Below(ShapeOf(ty, e), q))
  {
    var s := ShapeOf(ty, e);
    if Below(s, p).Node? {
      ShapeExtend(s, p, L); ShapeExtend(s, p, R);
      SweepSound(ty, e, p + [L], q, v);
      SweepSound(ty, Sweep(ty, e, p + [L], q).0, p + [R], q, v);
    } else if Below(s, q).Node? {
      ShapeExtend(s, q, L); ShapeExtend(s, q, R);
      SweepSound(ty, e, p, q + [L], v);
      SweepSound(ty, Sweep(ty, e, p, q + [L]).0, p, q + [R], v);
    } else if p != q {
      SpineGet(ty, e, p); SpineGet(ty, e, q);
      var a := Get(e, p);
      var (a', m) := if a.Bin? then Sweep(a.conn, a, [], []) else (a, 0);
      if a.Bin? {
        SweepSound(a.conn, a, [], [], v);
      }
      SpinePut(ty, e, p, a');
      SpinePutOther(ty, e, p, q, a');
      SpineValue(ty, e, p, a', v);
      SpineValue(ty, e, p, a, v);
      PutTwice(e, p, a, a);
      JoinPairSound(ty, Put(e, p, a'), p, q, m, v);
    }
  }

  // ---------------------------------------------------------------------------
  // A sweep that joins something leaves a neutral operand behind, so the fold shrinks the tree
  // ---------------------------------------------------------------------------

  predicate HasNeutral(e: Expr) {
    e.Bin? && (e.l == Neutral(e.conn) || e.r == Neutral(e.conn) || HasNeutral(e.l) || HasNeutral(e.r))
  }

  lemma {:induction false} HasNeutralBelow(ty: Conn, e: Expr, p: Path)
    requires OnSpine(ty, e, p) && HasPath(e, p)
    requires HasNeutral(Get(e, p)) || (p != [] && Get(e, p) == Neutral(ty))
    ensures HasNeutral(e)
  {
    if p != [] {
      var c := if p[0] == L then e.l else e.r;
      if p[1..] != [] || HasNeutral(Get(e, p)) {
        HasNeutralBelow(ty, c, p[1..]);
      }
    }
  }

  lemma {:induction false} SweepLeavesNeutral(ty: Conn, e: Expr, p: Path, q: Path)
    requires OnSpine(ty, e, p) && OnSpine(ty, e, q)
    ensures Sweep(ty, e, p, q).1 == 0 ==> Sweep(ty, e, p, q).0 == e
    ensures Sweep(ty, e, p, q).1 > 0 ==> HasNeutral(Sweep(ty, e, p, q).0)
    decreases Size(e), Nodes(Below(ShapeOf(ty, e), p)) + Nodes(Below(ShapeOf(ty, e), q))
  {
    var s := ShapeOf(ty, e);
    if Below(s, p).Node? {
      ShapeExtend(s, p, L); ShapeExtend(s, p, R);
      SweepLeavesNeutral(ty, e, p + [L], q);
      SweepLeavesNeutral(ty, Sweep(ty, e, p + [L], q).0, p + [R], q);
    } else if Below(s, q).Node? {
      ShapeExtend(s, q, L); ShapeExtend(s, q, R);
      SweepLeavesNeutral(ty, e, p, q + [L]);
      SweepLeavesNeutral(ty, Sweep(ty, e, p, q + [L]).0, p, q + [R]);
    } else if p != q {
      SpineGet(ty, e, p); SpineGet(ty, e, q);
      var a := Get(e, p);
      var (a', m) := if a.Bin? then Sweep(a.conn, a, [], []) else (a, 0);
      if a.Bin? {
        SweepLeavesNeutral(a.conn, a, [], []);
      }
      PutTwice(e, p, a, a);
      SpinePut(ty, e, p, a');
      SpinePutOther(ty, e, p, q, a');
      var e' := Put(e, p, a');
      if m > 0 {
        HasNeutralBelow(ty, e', p);
      }
      JoinPairLeavesNeutral(ty, e', p, q, m);
    }
  }

  lemma JoinPairLeavesNeutral(ty: Conn, e: Expr, p: Path, q: Path, n: nat)
    requires OperandAt(ty, e, p) && OperandAt(ty, e, q) && p != q
    ensures JoinPair(ty, e, p, q, n) == (e, n) ||
            (JoinPair(ty, e, p, q, n).1 == n + 1 && HasNeutral(JoinPair(ty, e, p, q, n).0))
    ensures HasPath(e, p) && HasPath(e, q)
    ensures JoinPair(ty, e, p, q, n).1 == n <==> Join(ty, Get(e, p), Get(e, q)).None?
  {
    SpineGet(ty, e, p); SpineGet(ty, e, q);
    var j := Join(ty, Get(e, p), Get(e, q));
    if j.Some? {
      var x := Neutral(ty);
      JoinSound(ty, Get(e, p), Get(e, q));
      SpinePut(ty, e, p, x);
      SpinePutOther(ty, e, p, q, x);
      var e1 := Put(e, p, x);
      SpinePut(ty, e1, q, j.value);
      SpinePutOther(ty, e1, q, p, j.value);
      HasNeutralBelow(ty, Put(e1, q, j.value), p);
    }
  }

  lemma {:induction false} FoldShrinks(e: Expr)
    requires HasNeutral(e)
    ensures Size(EliminateYn(e)) < Size(e)
  {
    if HasNeutral(e.l) {
      FoldShrinks(e.l);
    } else if HasNeutral(e.r) {
      FoldShrinks(e.r);
    }
  }

  // ---------------------------------------------------------------------------
  // The whole simplification
  // ---------------------------------------------------------------------------

  /** One turn of the loop: a sweep from the root slot, through both of whose copies the tree is changed. */
  function Pass(e: Expr): (r: (Expr, nat)) {
    if e.Bin? then Sweep(e.conn, e, [], []) else (e, 0)
  }

  lemma PassShrinks(e: Expr)
    ensures Pass(e).1 == 0 ==> Pass(e).0 == e
    ensures Pass(e).1 > 0 ==> Size(EliminateYn(Pass(e).0)) < Size(e)
  {
    if e.Bin? {
      SweepLeavesNeutral(e.conn, e, [], []);
      if Pass(e).1 > 0 {
        FoldShrinks(Pass(e).0);
      }
    }
  }

  /** expr_eliminate_dups: sweep and fold until a sweep joins nothing.  It ends because every pass
      that joins anything makes the tree strictly smaller. */
  function EliminateDups(e: Expr): Expr
    decreases Size(e)
  {
    var (e1, n) := Pass(e);
    PassShrinks(e);
    if n == 0 then e1 else EliminateDups(EliminateYn(e1))
  }

  lemma {:induction false} PlainEliminateYn(e: Expr)
    requires Plain(e)
    ensures Plain(EliminateYn(e))
  {
    if e.Bin? {
      PlainEliminateYn(e.l);
      PlainEliminateYn(e.r);
    }
  }

  /** The simplified expression has the value of the original under every valuation. */
  lemma {:induction false} EliminateDupsSound(e: Expr, v: Valuation)
    requires Plain(e) && Fits(v)
    ensures Value(EliminateDups(e), v) == Value(e, v)
    ensures Plain(EliminateDups(e))
    decreases Size(e)
  {
    var (e1, n) := Pass(e);
    PassShrinks(e);
    if e.Bin? {
      SweepSound(e.conn, e, [], [], v);
    }
    if n > 0 {
      PlainEliminateYn(e1);
      EliminateYnKeepsValue(e1, v);
      EliminateDupsSound(EliminateYn(e1), v);
    }
  }

  // ---------------------------------------------------------------------------
  // What is left cannot be simplified further
  // ---------------------------------------------------------------------------

  /** No two different operands of the same AND or OR can be joined, in either order, and the same
      holds inside every operand. */
  ghost predicate Irreducible(e: Expr)
    decreases Size(e)
  {
    e.Bin? ==>
      && (forall p: Path, q: Path {:trigger OperandAt(e.conn, e, p), OperandAt(e.conn, e, q)} ::
            OperandAt(e.conn, e, p) && OperandAt(e.conn, e, q) && p != q ==>
              HasPath(e, p) && HasPath(e, q) && Join(e.conn, Get(e, p), Get(e, q)).None?)
      && (forall p: Path {:trigger OperandAt(e.conn, e, p)} ::
            OperandAt(e.conn, e, p) ==> HasPath(e, p) && Size(Get(e, p)) < Size(e) && Irreducible(Get(e, p)))
  }

  /** A pass over the tree would change nothing. */
  predicate Quiet(e: Expr) {
    Pass(e).1 == 0
  }

  /** The pair of operands at `a` and `b` makes a sweep change nothing. */
  predicate PairQuiet(ty: Conn, e: Expr, a: Path, b: Path) {
    a == b ||
    (HasPath(e, a) && HasPath(e, b) && Join(ty, Get(e, a), Get(e, b)).None? && Quiet(Get(e, a)))
  }

  /** Every operand below the slot `p` paired with every operand below the slot `q`. */
  ghost predicate AllPairsQuiet(ty: Conn, e: Expr, p: Path, q: Path) {
    forall a: Path, b: Path {:trigger PairQuiet(ty, e, a, b)} ::
      p <= a && q <= b && OperandAt(ty, e, a) && OperandAt(ty, e, b) ==> PairQuiet(ty, e, a, b)
  }

  lemma {:induction false} BelowPrefix(s: Shape, p: Path, a: Path)
    requires InShape(s, p) && InShape(s, a) && p <= a && Below(s, p).Operand?
    ensures a == p
  {
    if p == [] {
    } else {
      assert a[0] == p[0];
      assert p[1..] <= a[1..];
      BelowPrefix(if p[0] == L then s.l else s.r, p[1..], a[1..]);
      assert a == [a[0]] + a[1..] && p == [p[0]] + p[1..];
    }
  }

  /** A slot below a spine node that is not the node itself is below one of its two operands. */
  lemma NextSide(ty: Conn, e: Expr, p: Path, a: Path)
    requires OnSpine(ty, e, p) && Below(ShapeOf(ty, e), p).Node? && OperandAt(ty, e, a) && p <= a
    ensures p + [L] <= a || p + [R] <= a
  {
    assert a != p;
    assert a[..|p|] == p;
    var d := a[|p|];
    assert p + [d] <= a;
    if d == L {
      assert p + [L] <= a;
    } else {
      assert p + [R] <= a;
    }
  }

  lemma {:induction false} SweepQuiet(ty: Conn, e: Expr, p: Path, q: Path)
    requires OnSpine(ty, e, p) && OnSpine(ty, e, q)
    ensures Sweep(ty, e, p, q).1 == 0 <==> AllPairsQuiet(ty, e, p, q)
    decreases Size(e), Nodes(Below(ShapeOf(ty, e), p)) + Nodes(Below(ShapeOf(ty, e), q))
  {
    var s := ShapeOf(ty, e);
    if Below(s, p).Node? {
      ShapeExtend(s, p, L); ShapeExtend(s, p, R);
      var (e1, m) := Sweep(ty, e, p + [L], q);
      SweepLeavesNeutral(ty, e, p + [L], q);
      SweepQuiet(ty, e, p + [L], q);
      if m == 0 {
        SweepQuiet(ty, e, p + [R], q);
      }
      forall a | OperandAt(ty, e, a) && p <= a
        ensures p + [L] <= a || p + [R] <= a
      {
        NextSide(ty, e, p, a);
      }
    } else if Below(s, q).Node? {
      ShapeExtend(s, q, L); ShapeExtend(s, q, R);
      var (e1, m) := Sweep(ty, e, p, q + [L]);
      SweepLeavesNeutral(ty, e, p, q + [L]);
      SweepQuiet(ty, e, p, q + [L]);
      if m == 0 {
        SweepQuiet(ty, e, p, q + [R]);
      }
      forall b | OperandAt(ty, e, b) && q <= b
        ensures q + [L] <= b || q + [R] <= b
      {
        NextSide(ty, e, q, b);
      }
    } else {
      forall a | OperandAt(ty, e, a) && p <= a ensures a == p { BelowPrefix(s, p, a); }
      forall b | OperandAt(ty, e, b) && q <= b ensures b == q { BelowPrefix(s, q, b); }
      assert AllPairsQuiet(ty, e, p, q) <==> PairQuiet(ty, e, p, q);
      if p != q {
        SweepQuietPair(ty, e, p, q);
      }
    }
  }

  lemma SweepQuietPair(ty: Conn, e: Expr, p: Path, q: Path)
    requires OperandAt(ty, e, p) && OperandAt(ty, e, q) && p != q
    ensures Sweep(ty, e, p, q).1 == 0 <==> PairQuiet(ty, e, p, q)
  {
    SpineGet(ty, e, p); SpineGet(ty, e, q);
    var a := Get(e, p);
    var (a', m) := if a.Bin? then Sweep(a.conn, a, [], []) else (a, 0);
    if a.Bin? {
      SweepLeavesNeutral(a.conn, a, [], []);
    }
    SpinePut(ty, e, p, a');
    SpinePutOther(ty, e, p, q, a');
    PutTwice(e, p, a, a);
    JoinPairLeavesNeutral(ty, Put(e, p, a'), p, q, m);
  }

  function FirstOperand(s: Shape): (p: Path)
    ensures InShape(s, p) && Below(s, p).Operand?
  {
    match s
    case Operand => []
    case Node(l, _) => assert ([L] + FirstOperand(l))[1..] == FirstOperand(l); [L] + FirstOperand(l)
  }

  /** An operand of an AND or OR is never alone. */
  lemma OtherOperand(ty: Conn, e: Expr, a: Path) returns (b: Path)
    requires e.Is(ty) && OperandAt(ty, e, a)
    ensures OperandAt(ty, e, b) && b != a
  {
    var s := ShapeOf(ty, e);
    if a[0] == L {
      b := [R] + FirstOperand(s.r);
      assert b[1..] == FirstOperand(s.r);
    } else {
      b := [L] + FirstOperand(s.l);
      assert b[1..] == FirstOperand(s.l);
    }
  }

  /** The loop stops exactly on the expressions in which nothing can be joined. */
  lemma {:induction false} QuietIsIrreducible(e: Expr)
    ensures Quiet(e) <==> Irreducible(e)
    decreases Size(e)
  {
    if e.Bin? {
      var ty := e.conn;
      SweepQuiet(ty, e, [], []);
      forall p | OperandAt(ty, e, p)
        ensures HasPath(e, p) && Size(Get(e, p)) < Size(e)
        ensures Quiet(Get(e, p)) <==> Irreducible(Get(e, p))
      {
        SpineGet(ty, e, p);
        assert p != [];
        QuietIsIrreducible(Get(e, p));
      }
      if Quiet(e) {
        forall p, q | OperandAt(ty, e, p) && OperandAt(ty, e, q) && p != q
          ensures Join(ty, Get(e, p), Get(e, q)).None?
        {
          assert PairQuiet(ty, e, p, q);
        }
        forall p | OperandAt(ty, e, p)
          ensures Irreducible(Get(e, p))
        {
          var q := OtherOperand(ty, e, p);
          assert PairQuiet(ty, e, p, q);
        }
      }
    }
  }

  lemma {:induction false} EliminateDupsIrreducible(e: Expr)
    ensures Irreducible(EliminateDups(e))
    ensures Size(EliminateDups(e)) <= Size(e)
    ensures EliminateDups(e) == e <==> Irreducible(e)
    decreases Size(e)
  {
    var (e1, n) := Pass(e);
    PassShrinks(e);
    QuietIsIrreducible(e);
    if n > 0 {
      EliminateDupsIrreducible(EliminateYn(e1));
    }
  }

  /** No two operands of a list are equal or form a row of the table, and so inside every operand. */
  ghost predicate Tidy(e: Expr)
    decreases Size(e)
  {
    e.Bin? ==>
      && (forall p: Path, q: Path {:trigger OperandAt(e.conn, e, p), OperandAt(e.conn, e, q)} ::
            OperandAt(e.conn, e, p) && OperandAt(e.conn, e, q) && p != q ==>
              HasPath(e, p) && HasPath(e, q) && !ExprEq(Get(e, p), Get(e, q)) && NoRow(e.conn, Get(e, p), Get(e, q)))
      && (forall p: Path {:trigger OperandAt(e.conn, e, p)} ::
            OperandAt(e.conn, e, p) ==> HasPath(e, p) && Size(Get(e, p)) < Size(e) && Tidy(Get(e, p)))
  }

  ghost predicate NoRow(ty: Conn, a: Expr, b: Expr) {
    forall s: Symbol, r: Expr :: !Row(ty, s, a, b, r)
  }

  lemma UnjoinedPair(ty: Conn, a: Expr, b: Expr)
    ensures Join(ty, a, b).None? ==> !ExprEq(a, b) && NoRow(ty, a, b)
    ensures !ExprEq(a, b) && NoRow(ty, a, b) ==> Join(ty, a, b).None?
  {
    if Join(ty, a, b).None? {
      JoinExactly(ty, a, b, a);
      forall s: Symbol, r: Expr ensures !Row(ty, s, a, b, r) { JoinExactly(ty, a, b, r); }
    } else {
      JoinExactly(ty, a, b, Join(ty, a, b).value);
    }
  }

  lemma {:induction false} IrreducibleIsTidy(e: Expr)
    ensures Irreducible(e) <==> Tidy(e)
    decreases Size(e)
  {
    if e.Bin? {
      forall p: Path | OperandAt(e.conn, e, p)
        ensures HasPath(e, p) && Size(Get(e, p)) < Size(e) && (Irreducible(Get(e, p)) <==> Tidy(Get(e, p)))
      {
        SpineGet(e.conn, e, p);
        assert p != [];
        IrreducibleIsTidy(Get(e, p));
      }
      forall p: Path, q: Path | OperandAt(e.conn, e, p) && OperandAt(e.conn, e, q)
        ensures Join(e.conn, Get(e, p), Get(e, q)).None? <==>
                  !ExprEq(Get(e, p), Get(e, q)) && NoRow(e.conn, Get(e, p), Get(e, q))
      {
        UnjoinedPair(e.conn, Get(e, p), Get(e, q));
      }
    }
  }

  /** So the simplified expression repeats no operand and has no pair left that the tables simplify, and
      exactly such expressions are left alone. */
  lemma EliminateDupsTidy(e: Expr)
    ensures Tidy(EliminateDups(e))
    ensures EliminateDups(e) == e <==> Tidy(e)
  {
    EliminateDupsIrreducible(e);
    IrreducibleIsTidy(EliminateDups(e));
    IrreducibleIsTidy(e);
  }
}
