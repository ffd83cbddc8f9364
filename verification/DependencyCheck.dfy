/** The search for recursive dependencies among configuration symbols. */
module DependencyCheck {
  import opened Options
  import opened Permutations
  import opened KconfigExpr

  // ---------------------------------------------------------------------------
  // Symbols and what they depend on
  // ---------------------------------------------------------------------------

  datatype PropKind = Prompt | Default | Select | Imply | Choice | Other

  /** None is a NULL expression. */
  datatype Property = Property(kind: PropKind, visible: Option<Expr>, value: Option<Expr>)

  datatype Declaration = Declaration(
    dirDep: Option<Expr>, revDep: Option<Expr>, implied: Option<Expr>, props: seq<Property>)

  /** All symbols, constants included, by their numbers. */
  datatype SymbolTable = SymbolTable(decls: seq<Declaration>, number: Symbol -> nat)
  {
    function Mentions(e: Expr): set<nat> {
      match e
      case Bin(_, l, r) => Mentions(l) + Mentions(r)
      case Not(x) => Mentions(x)
      case Rel(_, a, b) => {number(a), number(b)}
      case Sym(s) => {number(s)}
    }

    function MentionsIn(e: Option<Expr>): set<nat> {
      if e.None? then {} else Mentions(e.value)
    }

    /** Selects, implies and choices are checked from the other side; only defaults have a value to check. */
    function PropMentions(p: Property): set<nat> {
      if p.kind == Choice || p.kind == Select || p.kind == Imply then {}
      else if p.kind == Default then MentionsIn(p.visible) + MentionsIn(p.value)
      else MentionsIn(p.visible)
    }

    function PropsMention(props: seq<Property>): set<nat> {
      if props == [] then {} else PropsMention(props[..|props| - 1]) + PropMentions(props[|props| - 1])
    }

    function FieldsMention(d: Declaration): set<nat> {
      MentionsIn(d.dirDep) + MentionsIn(d.revDep) + MentionsIn(d.implied)
    }

    /** The symbols whose values symbol `s` is calculated from. */
    function Needs(s: nat): set<nat>
      requires s < |decls|
    {
      FieldsMention(decls[s]) + PropsMention(decls[s].props)
    }
  }

  /** The value of an expression depends on the symbols it mentions only. */
  lemma {:induction false} MentionsSuffice(g: SymbolTable, e: Expr, v: Valuation, w: Valuation)
    requires forall s: Symbol :: g.number(s) in g.Mentions(e) ==> v.tri(s) == w.tri(s)
    requires forall a: Symbol, b: Symbol :: g.number(a) in g.Mentions(e) && g.number(b) in g.Mentions(e) ==>
               v.cmp(a, b) == w.cmp(a, b)
    ensures Value(e, v) == Value(e, w)
  {
    match e
    case Bin(_, l, r) => MentionsSuffice(g, l, v, w); MentionsSuffice(g, r, v, w);
    case Not(x) => MentionsSuffice(g, x, v, w);
    case Rel(_, a, b) =>
      assert g.number(a) in g.Mentions(e) && g.number(b) in g.Mentions(e);
      assert v.tri(a) == w.tri(a) && v.tri(b) == w.tri(b) && v.cmp(a, b) == w.cmp(a, b);
      assert TextOf(v, a) == TextOf(w, a) && TextOf(v, b) == TextOf(w, b);
    case Sym(s) =>
      assert g.number(s) in g.Mentions(e);
  }

  type Graph = g: SymbolTable | forall s, t :: 0 <= s < |g.decls| && t in g.Needs(s) ==> t < |g.decls|
    witness SymbolTable([], _ => 0)

  function SizeOf(e: Option<Expr>): nat {
    if e.None? then 2 else Size(e.value) + 1
  }

  ghost predicate Edge(g: Graph, s: nat, t: nat) {
    s < |g.decls| && t in g.Needs(s)
  }

  ghost predicate IsPath(g: Graph, p: seq<nat>) {
    (forall i :: 0 <= i < |p| ==> p[i] < |g.decls|) && forall i :: 0 <= i < |p| - 1 ==> Edge(g, p[i], p[i + 1])
  }

  ghost predicate IsCycle(g: Graph, c: seq<nat>) {
    c != [] && IsPath(g, c) && Edge(g, c[|c| - 1], c[0])
  }

  // ---------------------------------------------------------------------------
  // Orders
  // ---------------------------------------------------------------------------

  /** Each listed symbol needs only symbols listed before it. */
  ghost predicate Ordered(g: Graph, order: seq<nat>) {
    forall i, t {:trigger Edge(g, order[i], t)} :: 0 <= i < |order| && Edge(g, order[i], t) ==> t in order[..i]
  }

  /** Along a path from a listed symbol the places go down, so that no cycle passes through it. */
  lemma {:induction false} PathGoesDown(g: Graph, order: seq<nat>, p: seq<nat>, i: nat) returns (j: nat)
    requires Ordered(g, order) && IsPath(g, p) && p != [] && i < |order| && order[i] == p[0]
    ensures j <= i && order[j] == p[|p| - 1] && (|p| > 1 ==> j < i)
    decreases |p|
  {
    if |p| == 1 {
      j := i;
    } else {
      assert Edge(g, order[i], p[1]);
      var k :| 0 <= k < i && order[..i][k] == p[1];
      j := PathGoesDown(g, order, p[1..], k);
    }
  }

  /** When all symbols can be listed so that each comes after those it needs, values can be calculated in
      that order, and there is no cycle. */
  lemma OrderedIsAcyclic(g: Graph, order: seq<nat>, c: seq<nat>)
    requires Ordered(g, order) && forall s: nat :: s < |g.decls| ==> s in order
    ensures !IsCycle(g, c)
  {
    if IsCycle(g, c) {
      var p := c + [c[0]];
      FirstPlace(g, order, p);
    }
  }

  /** A path that comes back to its start cannot be listed. */
  lemma FirstPlace(g: Graph, order: seq<nat>, p: seq<nat>)
    requires Ordered(g, order) && IsPath(g, p) && |p| > 1 && p[0] == p[|p| - 1]
    ensures p[0] !in order
  {
    if p[0] in order {
      var i :| 0 <= i < |order| && order[i] == p[0];
      Descends(g, order, p, i);
    }
  }

  lemma {:induction false} Descends(g: Graph, order: seq<nat>, p: seq<nat>, i: nat)
    requires Ordered(g, order) && IsPath(g, p) && |p| > 1 && p[0] == p[|p| - 1] && i < |order| && order[i] == p[0]
    ensures false
    decreases i
  {
    var j := PathGoesDown(g, order, p, i);
    Descends(g, order, p, j);
  }

  // ---------------------------------------------------------------------------
  // The search
  // ---------------------------------------------------------------------------

  /** Where a search without a find stands: the path of symbols being checked and the list of those
      done, each after what it needs. */
  datatype SearchState = SearchState(g: Graph, stack: seq<nat>, done: seq<nat>)

  ghost predicate Searching(x: SearchState) {
    && IsPath(x.g, x.stack) && Ordered(x.g, x.done)
    && (forall i :: 0 <= i < |x.done| ==> x.done[i] < |x.g.decls|)
    && Distinct(x.done + x.stack)
  }

  type Search = x: SearchState | Searching(x) ghost witness SearchState(SymbolTable([], _ => 0), [], [])

  /** The symbols not yet met. */
  ghost function Left(x: Search): nat {
    Fits(x);
    |x.g.decls| - |x.done| - |x.stack|
  }

  lemma Fits(x: Search)
    ensures |x.done| + |x.stack| <= |x.g.decls|
  {
    var all := x.done + x.stack;
    forall i | 0 <= i < |all| ensures all[i] < |x.g.decls| {
      if i >= |x.done| { assert all[i] == x.stack[i - |x.done|]; }
    }
    DistinctBelow(all, |x.g.decls|);
  }

  /** An unmet symbol that the last one needs is put on the path. */
  lemma PushSymbol(x: Search, s: nat) returns (y: Search)
    requires s < |x.g.decls| && s !in x.done && s !in x.stack
    requires x.stack != [] ==> Edge(x.g, x.stack[|x.stack| - 1], s)
    ensures y == x.(stack := x.stack + [s]) && Left(y) == Left(x) - 1
  {
    assert x.done + (x.stack + [s]) == (x.done + x.stack) + [s];
    y := SearchState(x.g, x.stack + [s], x.done);
  }

  lemma PopDistinct(done: seq<nat>, stack: seq<nat>, s: nat)
    requires Distinct(done + (stack + [s]))
    ensures Distinct(done + [s] + stack)
  {
    var all, moved := done + (stack + [s]), done + [s] + stack;
    forall i, j | 0 <= i < j < |moved| ensures moved[i] != moved[j] {
      var i' := if i < |done| then i else if i == |done| then |all| - 1 else i - 1;
      var j' := if j < |done| then j else if j == |done| then |all| - 1 else j - 1;
      assert all[i'] == moved[i] && all[j'] == moved[j];
    }
  }

  lemma PopOrdered(g: Graph, done: seq<nat>, s: nat)
    requires Ordered(g, done) && s < |g.decls| && forall t :: t in g.Needs(s) ==> t in done
    ensures Ordered(g, done + [s])
  {
    var order := done + [s];
    forall i, t | 0 <= i < |order| && Edge(g, order[i], t) ensures t in order[..i] {
      if i < |done| {
        assert Edge(g, done[i], t);
        assert order[..i] == done[..i];
      } else {
        assert order[..i] == done;
      }
    }
  }

  /** A symbol all of whose needs are done is done. */
  lemma PopSymbol(x: Search, stack: seq<nat>, s: nat) returns (y: Search)
    requires x.stack == stack + [s] && s < |x.g.decls| && forall t :: t in x.g.Needs(s) ==> t in x.done
    ensures y == SearchState(x.g, stack, x.done + [s])
  {
    PopDistinct(x.done, stack, s);
    PopOrdered(x.g, x.done, s);
    forall i | 0 <= i < |stack| - 1 ensures Edge(x.g, stack[i], stack[i + 1]) {
      assert Edge(x.g, x.stack[i], x.stack[i + 1]);
    }
    forall i | 0 <= i < |stack| ensures stack[i] < |x.g.decls| {
      assert x.stack[i] < |x.g.decls|;
    }
    y := SearchState(x.g, stack, x.done + [s]);
  }

  /** A symbol on the path that the last one needs closes a cycle. */
  lemma Closes(x: Search, s: nat) returns (c: seq<nat>)
    requires x.stack != [] && s in x.stack && Edge(x.g, x.stack[|x.stack| - 1], s)
    ensures IsCycle(x.g, c) && c[0] == s && forall t :: t in c ==> t in x.stack
  {
    var i :| 0 <= i < |x.stack| && x.stack[i] == s;
    c := x.stack[i..];
    forall k | 0 <= k < |c| - 1 ensures Edge(x.g, c[k], c[k + 1]) {
      assert Edge(x.g, x.stack[i + k], x.stack[i + k + 1]);
    }
  }

  /** `y` is a later state of the search with the same path. */
  ghost predicate Later(x: Search, y: Search) {
    y.g == x.g && y.stack == x.stack && x.done <= y.done
  }

  /** SYMBOL_CHECK is set on the path, SYMBOL_CHECKED on all symbols met. */
  ghost predicate FlagsShow(check: seq<bool>, checked: seq<bool>, x: Search) {
    && |check| == |checked| == |x.g.decls|
    && (forall s: nat :: s < |check| ==> (check[s] <==> s in x.stack))
    && forall s: nat :: s < |checked| ==> (checked[s] <==> s in x.stack || s in x.done)
  }

  lemma FlagsPushed(check: seq<bool>, checked: seq<bool>, x: Search, s: nat, y: Search)
    requires FlagsShow(check, checked, x) && s < |check| && y == x.(stack := x.stack + [s])
    ensures FlagsShow(check[s := true], checked[s := true], y)
  {
  }

  lemma FlagsPopped(check: seq<bool>, checked: seq<bool>, x: Search, stack: seq<nat>, s: nat, y: Search)
    requires FlagsShow(check, checked, x) && s < |check| && x.stack == stack + [s]
    requires y == SearchState(x.g, stack, x.done + [s])
    ensures FlagsShow(check[s := false], checked, y)
  {
    forall i | 0 <= i < |stack| ensures stack[i] != s {
      assert (x.done + x.stack)[|x.done| + i] != (x.done + x.stack)[|x.done| + |stack|];
    }
  }

  class Checker {
    const syms: Graph
    const check: array<bool>
    const checked: array<bool>
    var stack: seq<nat>

    /** The flags show the search: SYMBOL_CHECK is set on the path, SYMBOL_CHECKED on all symbols met. */
    ghost predicate Shows(x: Search)
      reads this, check, checked
    {
      x.g == syms && check != checked && FlagsShow(check[..], checked[..], x)
    }

    constructor (syms: Graph)
      ensures this.syms == syms && stack == [] && fresh(check) && fresh(checked) && Shows(SearchState(syms, [], []))
    {
      this.syms := syms;
      check := new bool[|syms.decls|](_ => false);
      checked := new bool[|syms.decls|](_ => false);
      stack := [];
    }

    /** sym_check_deps: None if everything `s` needs is in order, else a symbol on a cycle. */
    method CheckDeps(s: nat, ghost x: Search) returns (r: Option<nat>, ghost y: Search, ghost c: seq<nat>)
      requires Shows(x) && x.stack == stack && s < |syms.decls|
      requires stack != [] ==> Edge(syms, stack[|stack| - 1], s)
      modifies this, check, checked
      ensures stack == old(stack)
      ensures r.None? ==> Shows(y) && Later(x, y) && s in y.done
      ensures r.Some? ==> IsCycle(syms, c) && c[0] == r.value
      ensures old(check[s]) ==> r == Some(s) && forall t :: t in c ==> t < |syms.decls| && old(check[t])
      decreases Left(x), 0, 1
    {
      y, c := x, [];
      if check[s] {
        c := Closes(x, s);
        return Some(s), x, c;
      }
      if checked[s] {
        return None, x, [];
      }
      r, y, c := Visit(s, x);
    }

    /** The check of a symbol not met before. */
    method Visit(s: nat, ghost x: Search) returns (r: Option<nat>, ghost y: Search, ghost c: seq<nat>)
      requires Shows(x) && x.stack == stack && s < |syms.decls| && s !in x.stack && s !in x.done
      requires stack != [] ==> Edge(syms, stack[|stack| - 1], s)
      modifies this, check, checked
      ensures stack == old(stack)
      ensures r.None? ==> Shows(y) && Later(x, y) && s in y.done
      ensures r.Some? ==> IsCycle(syms, c) && c[0] == r.value
      decreases Left(x), 0, 0
    {
      ghost var flags, met := check[..], checked[..];
      check[s], checked[s] := true, true;
      y := PushSymbol(x, s);
      FlagsPushed(flags, met, x, s, y);
      assert check[..] == flags[s := true] && checked[..] == met[s := true];
      r, y, c := CheckSymDeps(s, y);
      flags, met := check[..], checked[..];
      check[s] := false;
      if r.None? {
        ghost var z := PopSymbol(y, x.stack, s);
        FlagsPopped(flags, met, y, x.stack, s, z);
        assert check[..] == flags[s := false] && checked[..] == met;
        y := z;
      }
    }

    /** sym_check_expr_deps */
    method CheckExprDeps(e: Option<Expr>, ghost x: Search) returns (r: Option<nat>, ghost y: Search, ghost c: seq<nat>)
      requires Shows(x) && x.stack == stack != [] && stack[|stack| - 1] < |syms.decls|
      requires syms.MentionsIn(e) <= syms.Needs(stack[|stack| - 1])
      modifies this, check, checked
      ensures stack == old(stack)
      ensures r.None? ==> Shows(y) && Later(x, y) && forall t :: t in syms.MentionsIn(e) ==> t in y.done
      ensures r.Some? ==> IsCycle(syms, c) && c[0] == r.value
      decreases Left(x), 0, SizeOf(e)
    {
      r, y, c := None, x, [];
      match e
      case None =>
      case Some(Bin(_, left, right)) =>
        r, y, c := CheckExprDeps(Some(left), x);
        if r.None? {
          r, y, c := CheckExprDeps(Some(right), y);
        }
      case Some(Not(inner)) =>
        r, y, c := CheckExprDeps(Some(inner), x);
      case Some(Rel(_, a, b)) =>
        r, y, c := CheckDeps(syms.number(a), x);
        if r.None? {
          r, y, c := CheckDeps(syms.number(b), y);
        }
      case Some(Sym(s)) =>
        r, y, c := CheckDeps(syms.number(s), x);
    }

    /** sym_check_sym_deps */
    method CheckSymDeps(s: nat, ghost x: Search) returns (r: Option<nat>, ghost y: Search, ghost c: seq<nat>)
      requires Shows(x) && s < |syms.decls| && x.stack == stack + [s]
      modifies this, check, checked
      ensures stack == old(stack)
      ensures r.None? ==> Shows(y) && Later(x, y) && forall t :: t in syms.Needs(s) ==> t in y.done
      ensures r.Some? ==> IsCycle(syms, c) && c[0] == r.value
      decreases Left(x), 2, 0
    {
      stack := stack + [s];
      r, y, c := CheckFields(s, x);
      if r.None? {
        r, y, c := CheckProps(s, y);
      }
      stack := stack[..|stack| - 1];
    }

    /** The dependencies, selects and implies of `s`. */
    method CheckFields(s: nat, ghost x: Search) returns (r: Option<nat>, ghost y: Search, ghost c: seq<nat>)
      requires Shows(x) && s < |syms.decls| && x.stack == stack != [] && stack[|stack| - 1] == s
      modifies this, check, checked
      ensures stack == old(stack)
      ensures r.None? ==> Shows(y) && Later(x, y) && forall t :: t in syms.FieldsMention(syms.decls[s]) ==> t in y.done
      ensures r.Some? ==> IsCycle(syms, c) && c[0] == r.value
      decreases Left(x), 1, 0
    {
      r, y, c := CheckExprDeps(syms.decls[s].dirDep, x);
      if r.None? {
        r, y, c := CheckExprDeps(syms.decls[s].revDep, y);
      }
      if r.None? {
        r, y, c := CheckExprDeps(syms.decls[s].implied, y);
      }
    }

    /** A property of `s`. */
    method CheckProp(p: Property, s: nat, ghost x: Search) returns (r: Option<nat>, ghost y: Search, ghost c: seq<nat>)
      requires Shows(x) && s < |syms.decls| && x.stack == stack != [] && stack[|stack| - 1] == s
      requires syms.PropMentions(p) <= syms.Needs(s)
      modifies this, check, checked
      ensures stack == old(stack)
      ensures r.None? ==> Shows(y) && Later(x, y) && forall t :: t in syms.PropMentions(p) ==> t in y.done
      ensures r.Some? ==> IsCycle(syms, c) && c[0] == r.value
      decreases Left(x), 0, SizeOf(p.visible) + SizeOf(p.value) + 1
    {
      r, y, c := None, x, [];
      if p.kind == Choice || p.kind == Select || p.kind == Imply {
        return;
      }
      r, y, c := CheckExprDeps(p.visible, x);
      if r.None? && p.kind == Default {
        r, y, c := CheckExprDeps(p.value, y);
      }
    }

    /** The loop over the properties of `s`. */
    method CheckProps(s: nat, ghost x: Search) returns (r: Option<nat>, ghost y: Search, ghost c: seq<nat>)
      requires Shows(x) && s < |syms.decls| && x.stack == stack != [] && stack[|stack| - 1] == s
      modifies this, check, checked
      ensures stack == old(stack)
      ensures r.None? ==> Shows(y) && Later(x, y)
      ensures r.None? ==> forall t :: t in syms.PropsMention(syms.decls[s].props) ==> t in y.done
      ensures r.Some? ==> IsCycle(syms, c) && c[0] == r.value
      decreases Left(x), 1, 0
    {
      r, y, c := None, x, [];
      var props := syms.decls[s].props;
      for i := 0 to |props|
        invariant stack == old(stack) && r.None? && Shows(y) && Later(x, y)
        invariant forall t :: t in syms.PropsMention(props[..i]) ==> t in y.done
      {
        var p := props[i];
        assert props[..i + 1][..i] == props[..i];
        PropInProps(syms, props, i);
        r, y, c := CheckProp(p, s, y);
        if r.Some? {
          return;
        }
      }
      assert props[..|props|] == props;
    }

    /** The sweep over all symbols, up to the first find: there is none exactly when no symbol needs itself. */
    method CheckAll() returns (r: Option<nat>, ghost order: seq<nat>)
      requires Shows(SearchState(syms, [], [])) && stack == []
      modifies this, check, checked
      ensures r.Some? <==> exists c :: IsCycle(syms, c)
      ensures r.None? ==> Ordered(syms, order) && forall s: nat :: s < |syms.decls| ==> s in order
      ensures forall i :: 0 <= i < |order| ==> order[i] < |syms.decls|
      ensures r.Some? ==> exists c :: IsCycle(syms, c) && c[0] == r.value
    {
      ghost var x: Search := SearchState(syms, [], []);
      r := None;
      for i := 0 to |syms.decls|
        invariant stack == [] && Shows(x) && x.stack == []
        invariant forall s: nat :: s < i ==> s in x.done
      {
        ghost var c;
        r, x, c := CheckDeps(i, x);
        if r.Some? {
          return r, [];
        }
      }
      order := x.done;
      forall c ensures !IsCycle(syms, c) { OrderedIsAcyclic(syms, order, c); }
      r := None;
    }
  }

  lemma {:induction false} PropInProps(g: SymbolTable, props: seq<Property>, i: nat)
    requires i < |props|
    ensures g.PropMentions(props[i]) <= g.PropsMention(props)
  {
    if i < |props| - 1 { PropInProps(g, props[..|props| - 1], i); }
  }
}
