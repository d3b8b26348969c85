// What the reverse dependencies collected by menu_finalize mean: every selected symbol has as its
// floor the maximum, over all selects of the parsed tree, of selector && inherited condition.
module Selects {
  import opened Wrappers
  import opened Expr
  import opened Menu
  import opened Config
  import opened Conditions
  import Submenu

  /** sym->rev_dep.tri: without an expression it is n. */
  function RevValue(rd: RevDeps, es: Symbol, v: Valuation): Tristate {
    var d := RevOf(rd, es);
    if d.None? then NO else EvalDep(d, v)
  }

  /** What one property contributes to the floor of es, for an entry of sym whose dependency is d */
  function SelectOf(sym: Option<Symbol>, d: Tristate, p: Prop, es: Symbol, v: Valuation): Tristate {
    if sym.None? || p.select != Some(es) then NO
    else Ap(And, v(sym.value).tri, Ap(And, d, EvalDep(p.visible, v)))
  }

  function SelectsOf(sym: Option<Symbol>, d: Tristate, ps: seq<Prop>, es: Symbol, v: Valuation): Tristate {
    if ps == [] then NO
    else Ap(Or, SelectsOf(sym, d, ps[..|ps| - 1], es, v), SelectOf(sym, d, ps[|ps| - 1], es, v))
  }

  /** The maximum over all entries of a parsed list below entries whose conditions have the value outer */
  function AllSelects(outer: Tristate, f: Forest, es: Symbol, v: Valuation): Tristate {
    match f
    case Nil => NO
    case Cons(_, e, k, r) =>
      var l := LevelBelow(outer, e, v);
      Ap(Or, SelectsOf(e.sym, l.dep, e.props, es, v), Ap(Or, AllSelects(l.cond, k, es, v), AllSelects(outer, r, es, v)))
  }

  /** The part still to come when the list's own entries have inherited already */
  function Pending(f: Forest, es: Symbol, v: Valuation): Tristate {
    match f
    case Nil => NO
    case Cons(_, e, k, r) => Ap(Or, AllSelects(LevelOf(e, v).cond, k, es, v), Pending(r, es, v))
  }

  /** Every plain leaf of the parsed conditions, those of the properties included, is n or y. */
  ghost predicate AllPlain(f: Forest, v: Valuation) {
    f.Cons? ==>
      && TwoValuedDep(f.entry.dep, v) && PlainProps(f.entry.props, v)
      && AllPlain(f.kids, v) && AllPlain(f.rest, v)
  }

  ghost predicate Ready(f: Forest, v: Valuation) {
    f.Cons? ==> Usable(f.entry.Condition(), v) && AllPlain(f.kids, v) && Ready(f.rest, v)
  }

  lemma AddSelectValue(sym: Option<Symbol>, p: Prop, rd: RevDeps, es: Symbol, v: Valuation)
    ensures RevValue(AddSelect(sym, p, rd), es, v) == Ap(Or, RevValue(rd, es, v), SelectOf(sym, YES, p, es, v))
  {
    if p.select.Some? && sym.Some? {
      var one := AllocBin(And, Some(Sym(sym.value)), p.visible);
      assert EvalDep(one, v) == Ap(And, v(sym.value).tri, EvalDep(p.visible, v));
      assert RevOf(AddSelect(sym, p, rd), p.select.value) == AllocBin(Or, RevOf(rd, p.select.value), one);
    }
  }

  lemma AddSnoc(sym: Option<Symbol>, basedep: Dep, ps: seq<Prop>, rd: RevDeps)
    requires ps != []
    ensures var n := |ps| - 1;
            AddSelects(sym, InheritProps(sym, basedep, ps), rd) ==
            AddSelect(sym, InheritProp(sym, basedep, ps[n]), AddSelects(sym, InheritProps(sym, basedep, ps[..n]), rd))
  {
    var n, props := |ps| - 1, InheritProps(sym, basedep, ps);
    assert props[..n] == InheritProps(sym, basedep, ps[..n]);
  }

  /** The properties of an entry add to the floor what they contribute, whatever was collected before. */
  lemma {:induction false} AddSelectsValue(sym: Option<Symbol>, basedep: Dep, ps: seq<Prop>, rd: RevDeps,
                                           es: Symbol, v: Valuation)
    requires Crisp(v) && Usable(basedep, v) && PlainProps(ps, v)
    ensures RevValue(AddSelects(sym, InheritProps(sym, basedep, ps), rd), es, v)
            == Ap(Or, RevValue(rd, es, v), SelectsOf(sym, EvalDep(basedep, v), ps, es, v))
  {
    if ps != [] {
      var n := |ps| - 1;
      AddSelectsValue(sym, basedep, ps[..n], rd, es, v);
      AddSnoc(sym, basedep, ps, rd);
      InheritPropMeans(sym, basedep, ps[n], v);
      AddSelectValue(sym, InheritProp(sym, basedep, ps[n]),
                     AddSelects(sym, InheritProps(sym, basedep, ps[..n]), rd), es, v);
    }
  }

  lemma EntrySelects(outer: Dep, e: Entry, rd: RevDeps, es: Symbol, v: Valuation)
    requires Crisp(v) && Usable(outer, v) && TwoValuedDep(e.dep, v) && PlainProps(e.props, v)
    ensures var l, e' := LevelBelow(EvalDep(outer, v), e, v), InheritEntry(outer, e);
            && LevelOf(e', v) == l && Usable(e'.Condition(), v)
            && RevValue(AddSelects(e.sym, e'.props, rd), es, v)
               == Ap(Or, RevValue(rd, es, v), SelectsOf(e.sym, l.dep, e.props, es, v))
  {
    InheritMeans(outer, e, v);
    InheritSound(outer, e.dep, v);
    AddSelectsValue(e.sym, Inherit(outer, e.dep), e.props, rd, es, v);
  }

  lemma {:induction false} PropagateReady(outer: Dep, f: Forest, rd: RevDeps, v: Valuation)
    requires Crisp(v) && Usable(outer, v) && AllPlain(f, v)
    ensures Ready(Propagate(outer, f, rd).0, v)
  {
    if f.Cons? {
      InheritMeans(outer, f.entry, v);
      PropagateReady(outer, f.rest, AddSelects(f.entry.sym, InheritEntry(outer, f.entry).props, rd), v);
    }
  }

  lemma {:induction false} PropagateSelects(outer: Dep, f: Forest, rd: RevDeps, es: Symbol, v: Valuation)
    requires Crisp(v) && Usable(outer, v) && AllPlain(f, v)
    ensures var r := Propagate(outer, f, rd);
            Ap(Or, RevValue(r.1, es, v), Pending(r.0, es, v))
            == Ap(Or, RevValue(rd, es, v), AllSelects(EvalDep(outer, v), f, es, v))
  {
    if f.Cons? {
      EntrySelects(outer, f.entry, rd, es, v);
      PropagateSelects(outer, f.rest, AddSelects(f.entry.sym, InheritEntry(outer, f.entry).props, rd), es, v);
    }
  }

  /** Finalizing an entry collects the selects below it and, if it adopts, below its siblings. */
  lemma {:induction false} FinalizeSelects(f: Forest, rd: RevDeps, es: Symbol, v: Valuation)
    requires f.Cons? && Crisp(v) && Ready(f, v)
    ensures var g := FinalizeHead(f, rd);
            && Ready(g.0.rest, v)
            && Ap(Or, RevValue(g.1, es, v), Pending(g.0.rest, es, v))
               == Ap(Or, RevValue(rd, es, v), Pending(f, es, v))
    decreases Count(f), 0
  {
    if f.kids.Cons? {
      var a := Propagate(f.entry.Condition(), f.kids, rd);
      PropagateReady(f.entry.Condition(), f.kids, rd, v);
      PropagateSelects(f.entry.Condition(), f.kids, rd, es, v);
      FinalizeListSelects(a.0, a.1, es, v);
    } else if f.entry.sym.Some? {
      AdoptSelects(f.entry.PromptVisible(), f.entry.sym.value, f.rest, rd, es, v);
    }
  }

  lemma {:induction false} FinalizeListSelects(f: Forest, rd: RevDeps, es: Symbol, v: Valuation)
    requires Crisp(v) && Ready(f, v)
    ensures RevValue(FinalizeList(f, rd).1, es, v) == Ap(Or, RevValue(rd, es, v), Pending(f, es, v))
    decreases Count(f), 1
  {
    if f.Cons? {
      var h := FinalizeHead(f, rd);
      FinalizeSelects(f, rd, es, v);
      FinalizeListSelects(h.0.rest, h.1, es, v);
    }
  }

  lemma {:induction false} AdoptSelects(prompt: Dep, sym: Symbol, f: Forest, rd: RevDeps, es: Symbol, v: Valuation)
    requires Crisp(v) && Ready(f, v)
    ensures var r := Adopt(prompt, sym, f, rd);
            && Ready(r.1, v)
            && Ap(Or, RevValue(r.2, es, v), Pending(r.1, es, v)) == Ap(Or, RevValue(rd, es, v), Pending(f, es, v))
    decreases Count(f), 1
  {
    if f.Cons? && Submenu.Adopts(prompt, sym, f.entry.Condition()) {
      var h := FinalizeHead(f, rd);
      FinalizeSelects(f, rd, es, v);
      AdoptSelects(prompt, sym, h.0.rest, h.1, es, v);
    }
  }

  /** From the root down: the reverse dependency of es is the maximum of what it was and, over all
      selects of es in the parsed tree, of the selecting symbol && the inherited condition. */
  lemma FinalizedSelects(f: Forest, rd: RevDeps, es: Symbol, v: Valuation)
    requires f.Cons? && f.rest.Nil? && Crisp(v) && Usable(f.entry.Condition(), v) && AllPlain(f.kids, v)
    ensures RevValue(FinalizeHead(f, rd).1, es, v)
            == Ap(Or, RevValue(rd, es, v), AllSelects(EvalDep(f.entry.Condition(), v), f.kids, es, v))
  {
    var g := FinalizeHead(f, rd).0;
    FinalizeSelects(f, rd, es, v);
    assert g.rest.Nil?;
  }

  /** In a configuration without modules whose reverse dependencies come from the menu tree, this is
      the select floor, which no prompt, default or user value undercuts. */
  lemma SelectedByTree(f: Forest, rd: RevDeps, c: Config, user: map<Symbol, User>, M: Solution, s: Symbol)
    requires f.Cons? && f.rest.Nil? && AllPlain(f.kids, Current(M)) && Usable(f.entry.Condition(), Current(M))
    requires WellFormed(c) && Users(c, user) && Solves(c, user, NO, M)
    requires s in c.symbols && s.IsTristate() && c.revDep[s] == RevOf(FinalizeHead(f, rd).1, s)
    ensures var selects := AllSelects(EvalDep(f.entry.Condition(), Current(M)), f.kids, s, Current(M));
            && M(s).rev == AsType(s, NO, Ap(Or, RevValue(rd, s, Current(M)), selects))
            && selects <= M(s).rev <= M(s).curr.tri
  {
    SolutionCrisp(c, user, M);
    FinalizedSelects(f, rd, s, Current(M));
    SelectHolds(c, user, NO, M, s);
    FloorOf(c, user, NO, M, s);
  }

  lemma FloorOf(c: Config, user: map<Symbol, User>, modulesVal: Tristate, M: Solution, s: Symbol)
    requires WellFormed(c) && Users(c, user) && Solves(c, user, modulesVal, M) && s in c.symbols && s.IsTristate()
    ensures M(s).rev == SelectFloor(c, s, modulesVal, Current(M))
  {
    assert Equation(s);
  }
}
