/**
 The dependency expressions of the configuration language: trees over symbols, their
 three-valued meaning, and the slots (`struct expr **`) through which the simplifier
 rewrites a tree in place.
 */
module KconfigExpr {
  import opened Options

  // ---------------------------------------------------------------------------
  // Three-valued logic
  // ---------------------------------------------------------------------------

  /** no = 0, mod = 1, yes = 2. */
  type Tristate = t: int | 0 <= t <= 2

  datatype Conn = And | Or

  /** EXPR_AND is the minimum and EXPR_OR the maximum. */
  function Combine(ty: Conn, a: Tristate, b: Tristate): Tristate {
    match ty
    case And => if a < b then a else b
    case Or => if a > b then a else b
  }

  // ---------------------------------------------------------------------------
  // Symbols and expressions
  // ---------------------------------------------------------------------------

  datatype SymType = Boolean | Tri | Other

  /** `Text` is any constant other than y, m and n, with the number strtoll reads in it, if any.
      Constants carry the type S_UNKNOWN, so they are neither boolean nor tristate. */
  datatype Symbol =
    | SymYes
    | SymMod
    | SymNo
    | Text(text: string, num: Option<int>)
    | Config(name: string, ty: SymType)
  {
    predicate IsConst() { !Config? }
    predicate IsBoolean() { Config? && ty == Boolean }
    predicate IsTristate() { Config? && ty == Tri }
    predicate IsLogic() { IsBoolean() || IsTristate() }
    predicate IsTruth() { SymYes? || SymMod? || SymNo? }
  }

  datatype RelOp = Equal | Unequal | Lth | Leq | Gth | Geq

  datatype Expr =
    | Sym(sym: Symbol)
    | Not(arg: Expr)
    | Bin(conn: Conn, l: Expr, r: Expr)
    | Rel(op: RelOp, lhs: Symbol, rhs: Symbol)
  {
    predicate Is(ty: Conn) { Bin? && conn == ty }
  }

  /** The neutral element of a connective, by which a joined operand is replaced. */
  function Neutral(ty: Conn): Expr {
    match ty
    case And => Sym(SymYes)
    case Or => Sym(SymNo)
  }

  function Size(e: Expr): (n: nat)
    ensures n >= 1
  {
    match e
    case Sym(_) => 1
    case Rel(_, _, _) => 1
    case Not(a) => 1 + Size(a)
    case Bin(_, l, r) => 1 + Size(l) + Size(r)
  }

  // ---------------------------------------------------------------------------
  // Meaning
  // ---------------------------------------------------------------------------

  /** The current values: `tri` of the configuration symbols, and `cmp` for the comparisons that
      involve an int, hex or string symbol, whose outcome depends on texts kept outside this model. */
  datatype Valuation = Valuation(tri: Symbol -> Tristate, cmp: (Symbol, Symbol) -> int)

  ghost predicate Fits(v: Valuation) {
    forall s: Symbol :: s.IsBoolean() ==> v.tri(s) != 1
  }

  function TriOf(v: Valuation, s: Symbol): Tristate {
    match s
    case SymYes => 2
    case SymMod => 1
    case SymNo => 0
    case Text(_, _) => 0
    case Config(_, _) => v.tri(s)
  }

  function StrCmp(a: string, b: string): int {
    if a == [] then (if b == [] then 0 else -1)
    else if b == [] then 1
    else if a[0] != b[0] then (if a[0] < b[0] then -1 else 1)
    else StrCmp(a[1..], b[1..])
  }

  function TriText(t: Tristate): string {
    if t == 0 then "n" else if t == 1 then "m" else "y"
  }

  function TextOf(v: Valuation, s: Symbol): string {
    match s
    case SymYes => "y"
    case SymMod => "m"
    case SymNo => "n"
    case Text(t, _) => t
    case Config(_, _) => TriText(v.tri(s))
  }

  /** The number that expr_parse_string finds: boolean and tristate symbols always have one, y, m and n never. */
  function NumberOf(v: Valuation, s: Symbol): Option<int> {
    match s
    case Text(_, n) => n
    case Config(_, _) => Some(v.tri(s))
    case _ => None
  }

  /** `res` of expr_calc_value: numbers are compared as numbers, everything else as text. */
  function Compare(v: Valuation, a: Symbol, b: Symbol): int {
    if (a.Config? && a.ty == Other) || (b.Config? && b.ty == Other) then v.cmp(a, b)
    else
      var m, n := NumberOf(v, a), NumberOf(v, b);
      if m.Some? && n.Some? then m.value - n.value else StrCmp(TextOf(v, a), TextOf(v, b))
  }

  predicate Holds(op: RelOp, res: int) {
    match op
    case Equal => res == 0
    case Unequal => res != 0
    case Lth => res < 0
    case Leq => res <= 0
    case Gth => res > 0
    case Geq => res >= 0
  }

  /** expr_calc_value */
  function Value(e: Expr, v: Valuation): Tristate {
    match e
    case Sym(s) => TriOf(v, s)
    case Not(a) => 2 - Value(a, v)
    case Bin(ty, l, r) => Combine(ty, Value(l, v), Value(r, v))
    case Rel(op, a, b) => if Holds(op, Compare(v, a, b)) then 2 else 0
  }

  /** `a` and `b` have the same value whatever the symbols are set to. */
  ghost predicate Equivalent(a: Expr, b: Expr) {
    forall v: Valuation :: Fits(v) ==> Value(a, v) == Value(b, v)
  }

  // ---------------------------------------------------------------------------
  // Comparison constants
  // ---------------------------------------------------------------------------

  /** Whether a tristate symbol of value `t` compares equal to the constant `c`. */
  predicate Denotes(c: Symbol, t: Tristate)
    requires c.IsConst()
  {
    match c
    case SymYes => t == 2
    case SymMod => t == 1
    case SymNo => t == 0
    case Text(text, num) => if num.Some? then num.value == t else text == TriText(t)
  }

  /** A constant is plain when it is y, m or n, or is equal to no tristate value at all. */
  predicate PlainConst(c: Symbol) {
    c.Text? ==> !Denotes(c, 0) && !Denotes(c, 1) && !Denotes(c, 2)
  }

  /** Every constant a tristate symbol is compared to is plain.  The constants 0, 1 and 2 are not:
      they compare as numbers and so coincide with n, m and y. */
  predicate Plain(e: Expr) {
    match e
    case Sym(_) => true
    case Not(a) => Plain(a)
    case Bin(_, l, r) => Plain(l) && Plain(r)
    case Rel(_, a, b) => a.IsTristate() ==> PlainConst(b)
  }

  lemma {:induction false} StrCmpZero(a: string, b: string)
    ensures StrCmp(a, b) == 0 <==> a == b
  {
    if a != [] && b != [] && a[0] == b[0] {
      StrCmpZero(a[1..], b[1..]);
      assert a == [a[0]] + a[1..] && b == [b[0]] + b[1..];
    }
  }

  /** A boolean or tristate symbol compares equal to a constant exactly when the constant denotes its value. */
  lemma CompareConst(v: Valuation, a: Symbol, c: Symbol)
    requires a.IsLogic() && c.IsConst()
    ensures Compare(v, a, c) == 0 <==> Denotes(c, v.tri(a))
  {
    StrCmpZero(TextOf(v, a), TextOf(v, c));
  }

  /** `a` comes first in the dictionary: it is a proper prefix, or has the smaller character at the first
      difference. */
  ghost predicate TextBefore(a: string, b: string) {
    exists k: nat :: k <= |a| && k < |b| && a[..k] == b[..k] && (k == |a| || a[k] < b[k])
  }

  lemma {:induction false} StrCmpOrder(a: string, b: string)
    ensures (StrCmp(a, b) < 0 <==> TextBefore(a, b)) && (StrCmp(a, b) > 0 <==> TextBefore(b, a))
  {
    if a != [] && b != [] && a[0] == b[0] {
      StrCmpOrder(a[1..], b[1..]);
      BeforeTail(a, b);
      BeforeTail(b, a);
    } else if a != [] && b != [] {
      assert a[..0] == b[..0] == [];
    } else if a != b {
      assert a[..0] == b[..0] == [];
    }
  }

  lemma BeforeTail(a: string, b: string)
    requires a != [] && b != [] && a[0] == b[0]
    ensures TextBefore(a, b) <==> TextBefore(a[1..], b[1..])
  {
    if k: nat :| k <= |a| && k < |b| && a[..k] == b[..k] && (k == |a| || a[k] < b[k]) {
      assert a[1..][..k - 1] == a[..k][1..] && b[1..][..k - 1] == b[..k][1..];
    }
    if j: nat :|
        && j <= |a[1..]| && j < |b[1..]| && a[1..][..j] == b[1..][..j]
        && (j == |a[1..]| || a[1..][j] < b[1..][j])
    {
      assert a[..j + 1] == [a[0]] + a[1..][..j] && b[..j + 1] == [b[0]] + b[1..][..j];
    }
  }

  /** The value of `a` is the smaller number, or, unless both are numbers, comes first in the dictionary. */
  ghost predicate Smaller(v: Valuation, a: Symbol, b: Symbol) {
    var m, n := NumberOf(v, a), NumberOf(v, b);
    if m.Some? && n.Some? then m.value < n.value else TextBefore(TextOf(v, a), TextOf(v, b))
  }

  /** What the six relations test. */
  lemma RelationTests(v: Valuation, op: RelOp, a: Symbol, b: Symbol)
    requires (a.Config? ==> a.ty != Other) && (b.Config? ==> b.ty != Other)
    ensures Value(Rel(op, a, b), v) == 2 || Value(Rel(op, a, b), v) == 0
    ensures Value(Rel(op, a, b), v) == 2 <==>
              match op
              case Equal => !Smaller(v, a, b) && !Smaller(v, b, a)
              case Unequal => Smaller(v, a, b) || Smaller(v, b, a)
              case Lth => Smaller(v, a, b)
              case Leq => !Smaller(v, b, a)
              case Gth => Smaller(v, b, a)
              case Geq => !Smaller(v, a, b)
  {
    StrCmpOrder(TextOf(v, a), TextOf(v, b));
  }

  // ---------------------------------------------------------------------------
  // Slots
  // ---------------------------------------------------------------------------

  /** Which operand of a node a slot belongs to; the operand of a negation is its left one. */
  datatype Side = L | R

  type Path = seq<Side>

  predicate HasPath(e: Expr, p: Path) {
    p == [] ||
    match e
    case Not(a) => p[0] == L && HasPath(a, p[1..])
    case Bin(_, l, r) => HasPath(if p[0] == L then l else r, p[1..])
    case _ => false
  }

  /** `*slot` */
  function Get(e: Expr, p: Path): Expr
    requires HasPath(e, p)
  {
    if p == [] then e else
    match e
    case Not(a) => Get(a, p[1..])
    case Bin(_, l, r) => Get(if p[0] == L then l else r, p[1..])
  }

  /** `*slot = x` */
  function Put(e: Expr, p: Path, x: Expr): Expr
    requires HasPath(e, p)
  {
    if p == [] then x else
    match e
    case Not(a) => Not(Put(a, p[1..], x))
    case Bin(ty, l, r) => if p[0] == L then Bin(ty, Put(l, p[1..], x), r) else Bin(ty, l, Put(r, p[1..], x))
  }

  lemma {:induction false} PathConcat(e: Expr, p: Path, q: Path)
    requires HasPath(e, p)
    ensures HasPath(e, p + q) <==> HasPath(Get(e, p), q)
    ensures HasPath(e, p + q) ==> Get(e, p + q) == Get(Get(e, p), q)
  {
    if p == [] {
      assert p + q == q;
    } else {
      assert (p + q)[1..] == p[1..] + q;
      match e
      case Not(a) => PathConcat(a, p[1..], q);
      case Bin(_, l, r) => PathConcat(if p[0] == L then l else r, p[1..], q);
    }
  }

  lemma {:induction false} PutConcat(e: Expr, p: Path, q: Path, x: Expr)
    requires HasPath(e, p) && HasPath(Get(e, p), q)
    ensures HasPath(e, p + q)
    ensures Put(e, p + q, x) == Put(e, p, Put(Get(e, p), q, x))
  {
    PathConcat(e, p, q);
    if p == [] {
      assert p + q == q;
    } else {
      assert (p + q)[1..] == p[1..] + q;
      match e
      case Not(a) => PutConcat(a, p[1..], q, x);
      case Bin(_, l, r) => PutConcat(if p[0] == L then l else r, p[1..], q, x);
    }
  }

  lemma {:induction false} PutTwice(e: Expr, p: Path, x: Expr, y: Expr)
    requires HasPath(e, p)
    ensures HasPath(Put(e, p, x), p)
    ensures Get(Put(e, p, x), p) == x
    ensures Put(Put(e, p, x), p, y) == Put(e, p, y)
    ensures Put(e, p, Get(e, p)) == e
  {
    if p != [] {
      match e
      case Not(a) => PutTwice(a, p[1..], x, y);
      case Bin(_, l, r) => PutTwice(if p[0] == L then l else r, p[1..], x, y);
    }
  }
}
