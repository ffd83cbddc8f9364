/** How the value of a boolean or tristate symbol is calculated, and that it needs no symbols but those whose
    dependencies are checked. */
module SymbolValues {
  import opened Options
  import opened KconfigExpr
  import opened KconfigTransform
  import opened DependencyCheck

  // ---------------------------------------------------------------------------
  // sym_calc_value
  // ---------------------------------------------------------------------------

  /** expr_calc_value: a NULL expression is y. */
  function ValueOf(e: Option<Expr>, v: Valuation): Tristate {
    if e.None? then 2 else Value(e.value, v)
  }

  /** m counts as y where the symbol can only be y or n. */
  function Promoted(t: Tristate, boolean: bool): Tristate {
    if t == 1 && boolean then 2 else t
  }

  /** The visibility: the largest of the prompts' conditions. */
  function Visible(props: seq<Property>, v: Valuation): Tristate {
    if props == [] then 0
    else if props[0].kind == Prompt then Combine(Or, ValueOf(props[0].visible, v), Visible(props[1..], v))
    else Visible(props[1..], v)
  }

  /** sym_get_default_prop: the first default whose condition is not n. */
  function DefaultOf(props: seq<Property>, v: Valuation): Option<Property> {
    if props == [] then None
    else if props[0].kind == Default && ValueOf(props[0].visible, v) != 0 then Some(props[0])
    else DefaultOf(props[1..], v)
  }

  /** A reverse or weak reverse dependency, n where there is none. */
  function Forced(e: Option<Expr>, boolean: bool, v: Valuation): Tristate {
    if e.None? then 0 else Promoted(Value(e.value, v), boolean)
  }

  /** The default's value as far as its condition allows. */
  function DefaultValue(props: seq<Property>, v: Valuation): Tristate {
    match DefaultOf(props, v)
    case None => 0
    case Some(p) => Combine(And, ValueOf(p.value, v), ValueOf(p.visible, v))
  }

  /** sym_calc_value for a boolean symbol, or a tristate one, that is no choice; a tristate symbol is boolean
      where modules are off. `user` is the value the user gave. */
  function Calculated(d: Declaration, boolean: bool, user: Option<Tristate>, v: Valuation): Tristate {
    var visible := Promoted(Visible(d.props, v), boolean);
    var implied := Forced(d.implied, boolean, v);
    var own :=
      if visible != 0 && user.Some? then Combine(And, user.value, visible)
      else if implied != 0 then
        Combine(And, Combine(Or, DefaultValue(d.props, v), implied), Promoted(ValueOf(d.dirDep, v), boolean))
      else DefaultValue(d.props, v);
    Promoted(Combine(Or, own, Forced(d.revDep, boolean, v)), boolean)
  }

  /** The symbol from which an int, hex or string symbol takes its default. */
  function DefaultSymbol(d: Declaration, v: Valuation): Option<Symbol> {
    match DefaultOf(d.props, v)
    case Some(p) => if p.value.Some? && p.value.value.Sym? then Some(p.value.value.sym) else None
    case None => None
  }

  // ---------------------------------------------------------------------------
  // What the calculation promises
  // ---------------------------------------------------------------------------

  /** The visibility reaches `t` exactly if some prompt's condition does. */
  lemma {:induction false} VisibleExactly(props: seq<Property>, v: Valuation, t: Tristate)
    requires t > 0
    ensures Visible(props, v) >= t <==> exists p :: p in props && p.kind == Prompt && ValueOf(p.visible, v) >= t
  {
    if props != [] { VisibleExactly(props[1..], v, t); }
  }

  /** The default is the first whose condition is not n. */
  ghost predicate IsFirstDefault(props: seq<Property>, v: Valuation, i: nat) {
    && i < |props| && props[i].kind == Default && ValueOf(props[i].visible, v) != 0
    && forall j :: 0 <= j < i && props[j].kind == Default ==> ValueOf(props[j].visible, v) == 0
  }

  lemma {:induction false} DefaultExactly(props: seq<Property>, v: Valuation)
    ensures match DefaultOf(props, v)
            case Some(p) => exists i: nat :: IsFirstDefault(props, v, i) && props[i] == p
            case None => forall i :: 0 <= i < |props| && props[i].kind == Default ==> ValueOf(props[i].visible, v) == 0
  {
    if props != [] {
      DefaultExactly(props[1..], v);
      if props[0].kind == Default && ValueOf(props[0].visible, v) != 0 {
        assert IsFirstDefault(props, v, 0);
      } else if DefaultOf(props, v).Some? {
        var i: nat :| IsFirstDefault(props[1..], v, i) && props[1..][i] == DefaultOf(props, v).value;
        assert IsFirstDefault(props, v, i + 1);
      }
    }
  }

  /** A select is a lower limit, and a boolean symbol is never m. A visible symbol has the value the user gave
      exactly if that lies between the two limits. Otherwise it is above its lower limit only by a default, or
      where its own dependency allows by an imply. */
  lemma CalculatedLimits(d: Declaration, boolean: bool, user: Option<Tristate>, v: Valuation)
    requires boolean ==> user != Some(1)
    ensures var value, visible := Calculated(d, boolean, user, v), Promoted(Visible(d.props, v), boolean);
            var lower, implied := Forced(d.revDep, boolean, v), Forced(d.implied, boolean, v);
            && lower <= value && (boolean ==> value != 1)
            && (visible != 0 && user.Some? ==>
                  && (value == user.value <==> lower <= user.value && (user.value <= visible || user.value == lower))
                  && (value > lower ==> value <= visible))
            && (!(visible != 0 && user.Some?) && value > lower ==>
                  || (implied == 0 && DefaultOf(d.props, v).Some?)
                  || (implied != 0 && Promoted(ValueOf(d.dirDep, v), boolean) != 0))
  {
  }

  // ---------------------------------------------------------------------------
  // What it needs
  // ---------------------------------------------------------------------------

  /** The valuations agree on the symbols with these numbers. */
  ghost predicate Agree(g: SymbolTable, s: set<nat>, v: Valuation, w: Valuation) {
    && (forall x: Symbol :: g.number(x) in s ==> v.tri(x) == w.tri(x))
    && forall a: Symbol, b: Symbol :: g.number(a) in s && g.number(b) in s ==> v.cmp(a, b) == w.cmp(a, b)
  }

  lemma SameValueOf(g: SymbolTable, s: set<nat>, e: Option<Expr>, v: Valuation, w: Valuation)
    requires Agree(g, s, v, w) && g.MentionsIn(e) <= s
    ensures ValueOf(e, v) == ValueOf(e, w)
    ensures forall boolean :: Forced(e, boolean, v) == Forced(e, boolean, w)
  {
    if e.Some? { MentionsSuffice(g, e.value, v, w); }
  }

  lemma {:induction false} PropMentioned(g: SymbolTable, props: seq<Property>, t: nat)
    ensures t in g.PropsMention(props) <==> exists i :: 0 <= i < |props| && t in g.PropMentions(props[i])
  {
    if props != [] { PropMentioned(g, props[..|props| - 1], t); }
  }

  /** What the properties say depends on the symbols of prompts' conditions, and of defaults' conditions and
      values. */
  lemma {:induction false} SameProps(g: SymbolTable, s: set<nat>, props: seq<Property>, v: Valuation, w: Valuation)
    requires Agree(g, s, v, w) && forall i :: 0 <= i < |props| ==> g.PropMentions(props[i]) <= s
    ensures Visible(props, v) == Visible(props, w) && DefaultOf(props, v) == DefaultOf(props, w)
    ensures DefaultOf(props, v).Some? ==>
              DefaultOf(props, v).value in props && DefaultOf(props, v).value.kind == Default
  {
    if props != [] {
      var p := props[0];
      assert g.PropMentions(p) <= s;
      if p.kind == Prompt || p.kind == Default { SameValueOf(g, s, p.visible, v, w); }
      SameProps(g, s, props[1..], v, w);
    }
  }

  /** The value of a symbol, and the symbol whose text it takes over, are the same under valuations that agree
      on what it needs. */
  lemma NeedsSuffice(g: SymbolTable, n: nat, boolean: bool, user: Option<Tristate>, v: Valuation, w: Valuation)
    requires n < |g.decls| && Agree(g, g.Needs(n), v, w)
    ensures Calculated(g.decls[n], boolean, user, v) == Calculated(g.decls[n], boolean, user, w)
    ensures DefaultSymbol(g.decls[n], v) == DefaultSymbol(g.decls[n], w)
    ensures DefaultSymbol(g.decls[n], v).Some? ==> g.number(DefaultSymbol(g.decls[n], v).value) in g.Needs(n)
  {
    var d, s := g.decls[n], g.Needs(n);
    forall i | 0 <= i < |d.props| ensures g.PropMentions(d.props[i]) <= s {
      PropInProps(g, d.props, i);
    }
    SameProps(g, s, d.props, v, w);
    SameValueOf(g, s, d.dirDep, v, w);
    SameValueOf(g, s, d.revDep, v, w);
    SameValueOf(g, s, d.implied, v, w);
    if p: Property :| DefaultOf(d.props, v) == Some(p) {
      assert g.PropMentions(p) <= s;
      SameValueOf(g, s, p.value, v, w);
      SameValueOf(g, s, p.visible, v, w);
    }
  }

  /** The symbol with this number occurs in the expression. */
  ghost predicate Occurs(g: SymbolTable, e: Option<Expr>, t: nat) {
    e.Some? && exists x: Symbol :: ContainsSymbol(e.value, x) && g.number(x) == t
  }

  lemma {:induction false} MentionsAre(g: SymbolTable, e: Expr, t: nat)
    ensures t in g.Mentions(e) <==> Occurs(g, Some(e), t)
  {
    match e
    case Bin(_, l, r) =>
      MentionsAre(g, l, t);
      MentionsAre(g, r, t);
      if x: Symbol :| ContainsSymbol(l, x) && g.number(x) == t { assert ContainsSymbol(e, x); }
      if x: Symbol :| ContainsSymbol(r, x) && g.number(x) == t { assert ContainsSymbol(e, x); }
    case Not(y) =>
      MentionsAre(g, y, t);
      if x: Symbol :| ContainsSymbol(y, x) && g.number(x) == t { assert ContainsSymbol(e, x); }
    case Rel(_, a, b) => assert ContainsSymbol(e, a) && ContainsSymbol(e, b);
    case Sym(s) => assert ContainsSymbol(e, s);
  }

  /** Property `p` needs the symbol: by its condition unless it is a select, an imply or a choice, and a default
      by its value too. */
  ghost predicate PropNeeds(g: SymbolTable, p: Property, t: nat) {
    p.kind !in {Select, Imply, Choice} && (Occurs(g, p.visible, t) || (p.kind == Default && Occurs(g, p.value, t)))
  }

  /** A symbol needs those that occur in its dependencies, reverse dependencies and weak ones, and what its
      properties need, and no others. */
  lemma NeedsExactly(g: SymbolTable, n: nat, t: nat)
    requires n < |g.decls|
    ensures var d := g.decls[n];
            t in g.Needs(n) <==>
              || Occurs(g, d.dirDep, t) || Occurs(g, d.revDep, t) || Occurs(g, d.implied, t)
              || exists i :: 0 <= i < |d.props| && PropNeeds(g, d.props[i], t)
  {
    var d := g.decls[n];
    MentionsInAre(g, d.dirDep, t);
    MentionsInAre(g, d.revDep, t);
    MentionsInAre(g, d.implied, t);
    PropMentioned(g, d.props, t);
    forall i | 0 <= i < |d.props| ensures t in g.PropMentions(d.props[i]) <==> PropNeeds(g, d.props[i], t) {
      MentionsInAre(g, d.props[i].visible, t);
      MentionsInAre(g, d.props[i].value, t);
    }
  }

  lemma MentionsInAre(g: SymbolTable, e: Option<Expr>, t: nat)
    ensures t in g.MentionsIn(e) <==> Occurs(g, e, t)
  {
    if e.Some? { MentionsAre(g, e.value, t); }
  }

  // ---------------------------------------------------------------------------
  // Without cycles values are determined
  // ---------------------------------------------------------------------------

  /** Every symbol of the table has the value that is calculated for it. */
  ghost predicate IsCalculated(g: SymbolTable, boolean: nat -> bool, user: nat -> Option<Tristate>, v: Valuation) {
    forall x: Symbol :: g.number(x) < |g.decls| ==>
      v.tri(x) == Calculated(g.decls[g.number(x)], boolean(g.number(x)), user(g.number(x)), v)
  }

  /** Two valuations agree on the symbols listed. */
  ghost predicate AgreeOn(g: SymbolTable, order: seq<nat>, v: Valuation, w: Valuation) {
    forall x: Symbol :: g.number(x) in order ==> v.tri(x) == w.tri(x)
  }

  lemma {:induction false} OrderDetermines(g: Graph, order: seq<nat>, k: nat, boolean: nat -> bool,
      user: nat -> Option<Tristate>, v: Valuation, w: Valuation)
    requires Ordered(g, order) && k <= |order| && forall i :: 0 <= i < |order| ==> order[i] < |g.decls|
    requires IsCalculated(g, boolean, user, v) && IsCalculated(g, boolean, user, w) && v.cmp == w.cmp
    ensures AgreeOn(g, order[..k], v, w)
  {
    if k > 0 {
      var n := order[k - 1];
      OrderDetermines(g, order, k - 1, boolean, user, v, w);
      forall x: Symbol | g.number(x) in g.Needs(n) ensures v.tri(x) == w.tri(x) {
        assert Edge(g, order[k - 1], g.number(x));
      }
      NeedsSuffice(g, n, boolean(n), user(n), v, w);
      assert order[..k] == order[..k - 1] + [n];
    }
  }

  /** Where every symbol can be listed after those it needs, there is one value for each: all valuations in
      which the values are the calculated ones agree, if they agree on what user values and texts say. */
  lemma ValuesDetermined(g: Graph, order: seq<nat>, boolean: nat -> bool, user: nat -> Option<Tristate>,
      v: Valuation, w: Valuation)
    requires Ordered(g, order) && forall i :: 0 <= i < |order| ==> order[i] < |g.decls|
    requires forall s: nat :: s < |g.decls| ==> s in order
    requires IsCalculated(g, boolean, user, v) && IsCalculated(g, boolean, user, w) && v.cmp == w.cmp
    ensures forall x: Symbol :: g.number(x) < |g.decls| ==> v.tri(x) == w.tri(x)
  {
    OrderDetermines(g, order, |order|, boolean, user, v, w);
    assert order[..|order|] == order;
  }
}
