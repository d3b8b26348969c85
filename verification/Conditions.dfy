// What the conditions of a finalized menu tree mean: every dependency is the conjunction of
// the conditions of the entry's original ancestors and its own.
module Conditions {
  import opened Wrappers
  import opened Expr
  import opened NormalForm
  import opened Join
  import opened Menu
  import opened Config
  import Submenu

  /** Every symbol but the constant m is n or y. */
  ghost predicate Crisp(v: Valuation) {
    WellTyped(v) && forall s: Symbol :: s.typ == Tri ==> v(s).tri != MOD
  }

  /** As they are whenever modules are off */
  lemma SolutionCrisp(c: Config, user: map<Symbol, User>, M: Solution)
    requires WellFormed(c) && Users(c, user) && Solves(c, user, NO, M)
    ensures Crisp(Current(M))
  {
    SolutionWellTyped(c, user, NO, M);
    SolutionNeverMod(c, user, NO, M);
  }

  /** There FOO!=n and FOO are the same. */
  lemma {:induction false} TransBoolCrisp(e: Expr, v: Valuation)
    requires Crisp(v)
    ensures Eval(TransBool(e), v) == Eval(e, v)
    ensures TwoValued(e, v) ==> TwoValued(TransBool(e), v)
  {
    match e
    case Comp(_, l, _) =>
      if l.typ == Tri {
        ConstantStrings(l, v);
      }
    case Not(a) => TransBoolCrisp(a, v);
    case Bin(_, l, r) =>
      TransBoolCrisp(l, v);
      TransBoolCrisp(r, v);
    case Sym(_) =>
  }

  // ----------------------------------------------------------- one entry

  ghost predicate Usable(d: Dep, v: Valuation) {
    NormalDep(d) && TwoValuedDep(d, v)
  }

  lemma InheritPropMeans(sym: Option<Symbol>, basedep: Dep, p: Prop, v: Valuation)
    requires Crisp(v) && Usable(basedep, v) && TwoValuedDep(p.visible, v)
    ensures var d := InheritProp(sym, basedep, p).visible;
            Usable(d, v) && EvalDep(d, v) == Ap(And, EvalDep(basedep, v), EvalDep(p.visible, v))
  {
    var d := Inherit(basedep, p.visible);
    InheritSound(basedep, p.visible, v);
    if d.Some? {
      TransBoolCrisp(d.value, v);
      TransBoolNormal(d.value);
    }
  }

  lemma {:induction false} InheritPropsAt(sym: Option<Symbol>, basedep: Dep, ps: seq<Prop>, i: nat)
    requires i < |ps|
    ensures InheritProps(sym, basedep, ps)[i] == InheritProp(sym, basedep, ps[i])
  {
    if i < |ps| - 1 {
      InheritPropsAt(sym, basedep, ps[..|ps| - 1], i);
    }
  }

  /** The value of an entry's dependency, and of the condition its children inherit */
  datatype Level = Level(dep: Tristate, cond: Tristate)

  function LevelOf(e: Entry, v: Valuation): Level {
    Level(EvalDep(e.dep, v), EvalDep(e.Condition(), v))
  }

  /** What they are to be below entries whose conditions have the value outer. */
  function LevelBelow(outer: Tristate, e: Entry, v: Valuation): Level {
    var d := Ap(And, outer, EvalDep(e.dep, v));
    Level(d, if e.HasPrompt() then Ap(And, d, EvalDep(e.PromptVisible(), v)) else d)
  }

  lemma InheritMeans(outer: Dep, e: Entry, v: Valuation)
    requires Crisp(v) && Usable(outer, v) && TwoValuedDep(e.dep, v) && TwoValuedDep(e.PromptVisible(), v)
    ensures var e' := InheritEntry(outer, e);
            LevelOf(e', v) == LevelBelow(EvalDep(outer, v), e, v) && Usable(e'.Condition(), v)
  {
    var basedep := Inherit(outer, e.dep);
    InheritSound(outer, e.dep, v);
    if e.HasPrompt() {
      InheritPropsAt(e.sym, basedep, e.props, e.prompt.value);
      InheritPropMeans(e.sym, basedep, e.props[e.prompt.value], v);
    }
  }

  // ------------------------------------------------------------ whole trees

  /** The levels of all entries, in preorder */
  function Levels(f: Forest, v: Valuation): seq<Level> {
    match f
    case Nil => []
    case Cons(_, e, k, r) => [LevelOf(e, v)] + (Levels(k, v) + Levels(r, v))
  }

  /** What they are to be below outer: each entry adds its own dependency and prompt condition. */
  function Expected(outer: Tristate, f: Forest, v: Valuation): seq<Level> {
    match f
    case Nil => []
    case Cons(_, e, k, r) =>
      [LevelBelow(outer, e, v)] + (Expected(LevelBelow(outer, e, v).cond, k, v) + Expected(outer, r, v))
  }

  /** The same for a list whose own entries have inherited already. */
  function Settled(f: Forest, v: Valuation): seq<Level> {
    match f
    case Nil => []
    case Cons(_, e, k, r) => [LevelOf(e, v)] + (Expected(LevelOf(e, v).cond, k, v) + Settled(r, v))
  }

  /** Every plain leaf of the parsed conditions is n or y. */
  ghost predicate Plain(f: Forest, v: Valuation) {
    f.Cons? ==>
      && TwoValuedDep(f.entry.dep, v) && TwoValuedDep(f.entry.PromptVisible(), v)
      && Plain(f.kids, v) && Plain(f.rest, v)
  }

  ghost predicate Inherited(f: Forest, v: Valuation) {
    f.Cons? ==> Usable(f.entry.Condition(), v) && Plain(f.kids, v) && Inherited(f.rest, v)
  }

  lemma {:induction false} PropagateLevels(outer: Dep, f: Forest, rd: RevDeps, v: Valuation)
    requires Crisp(v) && Usable(outer, v) && Plain(f, v)
    ensures var g := Propagate(outer, f, rd).0;
            Inherited(g, v) && Settled(g, v) == Expected(EvalDep(outer, v), f, v)
  {
    if f.Cons? {
      InheritMeans(outer, f.entry, v);
      PropagateLevels(outer, f.rest, AddSelects(f.entry.sym, InheritEntry(outer, f.entry).props, rd), v);
    }
  }

  lemma {:induction false} AppendLevels(f: Forest, g: Forest, v: Valuation)
    ensures Levels(Append(f, g), v) == Levels(f, v) + Levels(g, v)
  {
    if f.Cons? {
      AppendLevels(f.rest, g, v);
      Assoc(Levels(f.kids, v), Levels(f.rest, v), Levels(g, v));
      Assoc([LevelOf(f.entry, v)], Levels(f.kids, v) + Levels(f.rest, v), Levels(g, v));
    }
  }

  lemma {:induction false} FlattenLevels(f: Forest, v: Valuation)
    ensures Levels(Flatten(f), v) == Levels(f, v)
    decreases Count(f)
  {
    if f.Cons? {
      FlattenLevels(FlattenStep(f).rest, v);
      AppendLevels(f.kids, f.rest, v);
    }
  }

  /** The levels of a finalized entry, what is below it, and the siblings it has left */
  function HeadLevels(g: Forest, v: Valuation): seq<Level>
    requires g.Cons?
  {
    [LevelOf(g.entry, v)] + (Levels(g.kids, v) + Settled(g.rest, v))
  }

  lemma {:induction false} FinalizeLevels(f: Forest, rd: RevDeps, v: Valuation)
    requires f.Cons? && Crisp(v) && Inherited(f, v)
    ensures var g := FinalizeHead(f, rd).0; HeadLevels(g, v) == Settled(f, v) && Inherited(g.rest, v)
    decreases Count(f), 0
  {
    if f.kids.Cons? {
      var a := Propagate(f.entry.Condition(), f.kids, rd);
      PropagateLevels(f.entry.Condition(), f.kids, rd, v);
      FinalizeListLevels(a.0, a.1, v);
      FlattenLevels(FinalizeList(a.0, a.1).0, v);
    } else if f.entry.sym.Some? {
      var a := Adopt(f.entry.PromptVisible(), f.entry.sym.value, f.rest, rd);
      AdoptLevels(f.entry.PromptVisible(), f.entry.sym.value, f.rest, rd, v);
      FlattenLevels(a.0, v);
      assert [] + Settled(f.rest, v) == Settled(f.rest, v);
    }
  }

  lemma {:induction false} FinalizeListLevels(f: Forest, rd: RevDeps, v: Valuation)
    requires Crisp(v) && Inherited(f, v)
    ensures Levels(FinalizeList(f, rd).0, v) == Settled(f, v)
    decreases Count(f), 1
  {
    if f.Cons? {
      var h := FinalizeHead(f, rd);
      FinalizeLevels(f, rd, v);
      FinalizeListLevels(h.0.rest, h.1, v);
    }
  }

  lemma {:induction false} AdoptLevels(prompt: Dep, sym: Symbol, f: Forest, rd: RevDeps, v: Valuation)
    requires Crisp(v) && Inherited(f, v)
    ensures var r := Adopt(prompt, sym, f, rd); Levels(r.0, v) + Settled(r.1, v) == Settled(f, v) && Inherited(r.1, v)
    decreases Count(f), 1
  {
    if f.Cons? && Submenu.Adopts(prompt, sym, f.entry.Condition()) {
      var h := FinalizeHead(f, rd);
      var t := Adopt(prompt, sym, h.0.rest, h.1);
      FinalizeLevels(f, rd, v);
      AdoptLevels(prompt, sym, h.0.rest, h.1, v);
      Assoc(Levels(h.0.kids, v), Levels(t.0, v), Settled(t.1, v));
      Assoc([LevelOf(h.0.entry, v)], Levels(h.0.kids, v) + Levels(t.0, v), Settled(t.1, v));
    } else {
      assert [] + Settled(f, v) == Settled(f, v);
    }
  }

  /** From the root down: the i-th entry of the preorder, which finalizing keeps, has as its
      dependency the conjunction of its parsed ancestors' conditions and its own. */
  lemma FinalizedConditions(f: Forest, rd: RevDeps, v: Valuation)
    requires f.Cons? && f.rest.Nil? && Crisp(v) && Usable(f.entry.Condition(), v) && Plain(f.kids, v)
    ensures var g := FinalizeHead(f, rd).0;
            && Levels(g.kids, v) == Expected(EvalDep(f.entry.Condition(), v), f.kids, v)
            && Preorder(g.kids) == Preorder(f.kids) && |Levels(g.kids, v)| == |Preorder(g.kids)|
  {
    var g := FinalizeHead(f, rd).0;
    FinalizeLevels(f, rd, v);
    FinalizePreorder(f, rd);
    assert g.rest.Nil? && HeadLevels(g, v)[1..] == Levels(g.kids, v);
    assert Settled(f, v)[1..] == Expected(LevelOf(f.entry, v).cond, f.kids, v);
    assert Preorder(g)[1..] == Preorder(g.kids) && Preorder(f)[1..] == Preorder(f.kids);
    LevelsAlign(g.kids, v);
  }

  lemma {:induction false} LevelsAlign(f: Forest, v: Valuation)
    ensures |Levels(f, v)| == |Preorder(f)|
  {
    if f.Cons? {
      LevelsAlign(f.kids, v);
      LevelsAlign(f.rest, v);
    }
  }
}
