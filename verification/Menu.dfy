// The menu tree as a value, and what menu_finalize turns it into (no choice groups).
module Menu {
  import opened Wrappers
  import opened Expr
  import opened NormalForm
  import opened Dups
  import opened Submenu

  type Id = nat

  /** A property of this entry: its condition, and the selected symbol of a P_SELECT. */
  datatype Prop = Prop(visible: Dep, select: Option<Symbol>)

  /** struct menu without its links; prompt is the index of the prompt among props. */
  datatype Entry = Entry(sym: Option<Symbol>, dep: Dep, props: seq<Prop>, prompt: Option<nat>) {
    predicate HasPrompt() {
      prompt.Some? && prompt.value < |props|
    }

    /** menu->prompt->visible.expr, which is only read when there is a prompt */
    function PromptVisible(): Dep {
      if HasPrompt() then props[prompt.value].visible else None
    }

    /** prompt ? prompt->visible.expr : dep */
    function Condition(): Dep {
      if HasPrompt() then PromptVisible() else dep
    }
  }

  /** A sibling list: an entry, the list below it, and the entries after it. */
  datatype Forest = Nil | Cons(id: Id, entry: Entry, kids: Forest, rest: Forest)

  /** sym->rev_dep.expr of every selected symbol */
  type RevDeps = map<Symbol, Dep>

  function Preorder(f: Forest): seq<Id> {
    match f
    case Nil => []
    case Cons(id, _, k, r) => [id] + Preorder(k) + Preorder(r)
  }

  function Count(f: Forest): nat {
    match f
    case Nil => 0
    case Cons(_, _, k, r) => 1 + Count(k) + Count(r)
  }

  function Append(f: Forest, g: Forest): (r: Forest)
    ensures Count(r) == Count(f) + Count(g)
  {
    match f
    case Nil => g
    case Cons(id, e, k, rest) => Cons(id, e, k, Append(rest, g))
  }

  lemma {:induction false} AppendPreorder(f: Forest, g: Forest)
    ensures Preorder(Append(f, g)) == Preorder(f) + Preorder(g)
  {
    if f.Cons? {
      AppendPreorder(f.rest, g);
    }
  }

  lemma {:induction false} AppendAssociative(f: Forest, g: Forest, h: Forest)
    ensures Append(Append(f, g), h) == Append(f, Append(g, h))
    ensures Append(f, Nil) == f
  {
    if f.Cons? {
      AppendAssociative(f.rest, g, h);
    }
  }

  // ------------------------------------------------ dependency propagation

  function TransformDep(d: Dep): Dep {
    if d.None? then None else Some(Transform(d.value))
  }

  function DupsDep(d: Dep): Dep {
    if d.None? then None else Some(EliminateDups(d.value))
  }

  /** expr_eliminate_dups(expr_alloc_and(expr_copy(outer), expr_transform(d))) */
  function Inherit(outer: Dep, d: Dep): Dep {
    DupsDep(AllocBin(And, outer, TransformDep(d)))
  }

  function BoolDep(d: Dep): Dep {
    if d.None? then None else Some(TransBool(d.value))
  }

  /** The new condition of one property of an entry whose dependency is basedep. */
  function InheritProp(sym: Option<Symbol>, basedep: Dep, p: Prop): Prop {
    var d := Inherit(basedep, p.visible);
    p.(visible := if sym.Some? && sym.value.typ != Tri then BoolDep(d) else d)
  }

  function InheritProps(sym: Option<Symbol>, basedep: Dep, ps: seq<Prop>): (r: seq<Prop>)
    ensures |r| == |ps|
  {
    if ps == [] then []
    else InheritProps(sym, basedep, ps[..|ps| - 1]) + [InheritProp(sym, basedep, ps[|ps| - 1])]
  }

  function InheritEntry(outer: Dep, e: Entry): Entry {
    var basedep := Inherit(outer, e.dep);
    e.(dep := basedep, props := InheritProps(e.sym, basedep, e.props))
  }

  function RevOf(rd: RevDeps, s: Symbol): Dep {
    if s in rd then rd[s] else None
  }

  /** es->rev_dep.expr ||= sym && dep, for a P_SELECT property */
  function AddSelect(sym: Option<Symbol>, p: Prop, rd: RevDeps): RevDeps {
    if p.select.None? || sym.None? then rd
    else rd[p.select.value := AllocBin(Or, RevOf(rd, p.select.value), AllocBin(And, Some(Sym(sym.value)), p.visible))]
  }

  function AddSelects(sym: Option<Symbol>, ps: seq<Prop>, rd: RevDeps): RevDeps {
    if ps == [] then rd
    else AddSelect(sym, ps[|ps| - 1], AddSelects(sym, ps[..|ps| - 1], rd))
  }

  /** The first loop of menu_finalize: every entry of the list takes over outer. */
  function Propagate(outer: Dep, f: Forest, rd: RevDeps): (r: (Forest, RevDeps))
    ensures Count(r.0) == Count(f)
  {
    match f
    case Nil => (Nil, rd)
    case Cons(id, e, k, rest) =>
      var e' := InheritEntry(outer, e);
      var r := Propagate(outer, rest, AddSelects(e.sym, e'.props, rd));
      (Cons(id, e', k, r.0), r.1)
  }

  // ------------------------------------------------------------ restructuring

  /** Entries below a first entry without a prompt move up, right behind it. */
  function FlattenStep(f: Forest): (r: Forest)
    requires f.Cons?
    ensures r.Cons? && Count(r) == Count(f)
  {
    if f.kids.Cons? && !f.entry.HasPrompt() then f.(kids := Nil, rest := Append(f.kids, f.rest)) else f
  }

  function Flatten(f: Forest): (r: Forest)
    ensures Count(r) == Count(f)
    decreases Count(f)
  {
    if f.Nil? then Nil
    else
      var g := FlattenStep(f);
      g.(rest := Flatten(g.rest))
  }

  /** menu_finalize of the first entry of f; the entries after it may become its children. */
  function FinalizeHead(f: Forest, rd: RevDeps): (r: (Forest, RevDeps))
    requires f.Cons?
    ensures r.0.Cons? && r.0.id == f.id && r.0.entry == f.entry
    ensures Count(r.0) == Count(f)
    decreases Count(f), 0
  {
    if f.kids.Cons? then
      var a := Propagate(f.entry.Condition(), f.kids, rd);
      var b := FinalizeList(a.0, a.1);
      (f.(kids := Flatten(b.0)), b.1)
    else if f.entry.sym.Some? then
      var a := Adopt(f.entry.PromptVisible(), f.entry.sym.value, f.rest, rd);
      (f.(kids := Flatten(a.0), rest := a.1), a.2)
    else
      (f, rd)
  }

  /** for (menu = parent->list; menu; menu = menu->next) menu_finalize(menu); */
  function FinalizeList(f: Forest, rd: RevDeps): (r: (Forest, RevDeps))
    ensures Count(r.0) == Count(f)
    decreases Count(f), 1
  {
    if f.Nil? then (Nil, rd)
    else
      var h := FinalizeHead(f, rd);
      var t := FinalizeList(h.0.rest, h.1);
      (h.0.(rest := t.0), t.1)
  }

  /** The following entries that are adopted (each finalized first), and the ones left. */
  function Adopt(prompt: Dep, sym: Symbol, f: Forest, rd: RevDeps): (r: (Forest, Forest, RevDeps))
    ensures Count(r.0) + Count(r.1) == Count(f)
    decreases Count(f), 1
  {
    if f.Nil? || !Adopts(prompt, sym, f.entry.Condition()) then (Nil, f, rd)
    else
      var h := FinalizeHead(f, rd);
      var t := Adopt(prompt, sym, h.0.rest, h.1);
      (h.0.(rest := t.0), t.1, t.2)
  }

  // ------------------------------------------------------------ conservation

  lemma {:induction false} PropagatePreorder(outer: Dep, f: Forest, rd: RevDeps)
    ensures Preorder(Propagate(outer, f, rd).0) == Preorder(f)
  {
    if f.Cons? {
      PropagatePreorder(outer, f.rest, AddSelects(f.entry.sym, InheritEntry(outer, f.entry).props, rd));
    }
  }

  lemma {:induction false} FlattenPreorder(f: Forest)
    ensures Preorder(Flatten(f)) == Preorder(f)
    decreases Count(f)
  {
    if f.Cons? {
      if f.kids.Cons? && !f.entry.HasPrompt() {
        FlattenPreorder(Append(f.kids, f.rest));
        AppendPreorder(f.kids, f.rest);
      } else {
        FlattenPreorder(f.rest);
      }
    }
  }

  /** No entry is lost, duplicated or moved past another one. */
  lemma {:induction false} FinalizePreorder(f: Forest, rd: RevDeps)
    requires f.Cons?
    ensures Preorder(FinalizeHead(f, rd).0) == Preorder(f)
    decreases Count(f), 0
  {
    if f.kids.Cons? {
      var a := Propagate(f.entry.Condition(), f.kids, rd);
      PropagatePreorder(f.entry.Condition(), f.kids, rd);
      FinalizeListPreorder(a.0, a.1);
      FlattenPreorder(FinalizeList(a.0, a.1).0);
    } else if f.entry.sym.Some? {
      var a := Adopt(f.entry.PromptVisible(), f.entry.sym.value, f.rest, rd);
      AdoptPreorder(f.entry.PromptVisible(), f.entry.sym.value, f.rest, rd);
      FlattenPreorder(a.0);
      assert [f.id] + Preorder(a.0) + Preorder(a.1) == [f.id] + (Preorder(a.0) + Preorder(a.1));
      assert [f.id] + Preorder(f.kids) + Preorder(f.rest) == [f.id] + Preorder(f.rest);
    }
  }

  lemma {:induction false} FinalizeListPreorder(f: Forest, rd: RevDeps)
    ensures Preorder(FinalizeList(f, rd).0) == Preorder(f)
    decreases Count(f), 1
  {
    if f.Cons? {
      var h := FinalizeHead(f, rd);
      FinalizePreorder(f, rd);
      FinalizeListPreorder(h.0.rest, h.1);
    }
  }

  lemma {:induction false} AdoptPreorder(prompt: Dep, sym: Symbol, f: Forest, rd: RevDeps)
    ensures var r := Adopt(prompt, sym, f, rd); Preorder(r.0) + Preorder(r.1) == Preorder(f)
    decreases Count(f), 1
  {
    if f.Cons? && Adopts(prompt, sym, f.entry.Condition()) {
      var h := FinalizeHead(f, rd);
      var t := Adopt(prompt, sym, h.0.rest, h.1);
      FinalizePreorder(f, rd);
      AdoptPreorder(prompt, sym, h.0.rest, h.1);
      Assoc([f.id] + Preorder(h.0.kids), Preorder(t.0), Preorder(t.1));
    }
  }

  // ------------------------------------------------------- structure reached

  /** No entry of the list keeps children unless it has a prompt. */
  ghost predicate Flat(f: Forest) {
    f.Cons? ==> (f.kids.Cons? ==> f.entry.HasPrompt()) && Flat(f.rest)
  }

  lemma {:induction false} FlattenFlat(f: Forest)
    ensures Flat(Flatten(f))
    decreases Count(f)
  {
    if f.Cons? {
      FlattenFlat(if f.kids.Cons? && !f.entry.HasPrompt() then Append(f.kids, f.rest) else f.rest);
    }
  }

  /** What stands in a list: each entry with the list below it */
  function Heads(f: Forest): seq<(Id, Entry, Forest)> {
    match f
    case Nil => []
    case Cons(id, e, k, r) => [(id, e, k)] + Heads(r)
  }

  /** What is to stand there: entries with a prompt keep what is below them, and of the others that
      follows right behind them, on every level. */
  function Lifted(f: Forest): seq<(Id, Entry, Forest)> {
    match f
    case Nil => []
    case Cons(id, e, k, r) =>
      if e.HasPrompt() then [(id, e, k)] + Lifted(r) else [(id, e, Nil)] + (Lifted(k) + Lifted(r))
  }

  lemma {:induction false} AppendLifted(f: Forest, g: Forest)
    ensures Lifted(Append(f, g)) == Lifted(f) + Lifted(g)
  {
    if f.Cons? {
      AppendLifted(f.rest, g);
      Assoc(Lifted(f.kids), Lifted(f.rest), Lifted(g));
      Assoc([(f.id, f.entry, Nil)], Lifted(f.kids) + Lifted(f.rest), Lifted(g));
      Assoc([(f.id, f.entry, f.kids)], Lifted(f.rest), Lifted(g));
    }
  }

  lemma {:induction false} FlattenLifted(f: Forest)
    ensures Heads(Flatten(f)) == Lifted(f)
    decreases Count(f)
  {
    if f.Cons? {
      FlattenLifted(FlattenStep(f).rest);
      AppendLifted(f.kids, f.rest);
      assert [] + Lifted(f.rest) == Lifted(f.rest);
    }
  }

  /** Nowhere does an entry without a prompt have children. */
  ghost predicate AllFlat(f: Forest) {
    f.Cons? ==> (f.kids.Cons? ==> f.entry.HasPrompt()) && AllFlat(f.kids) && AllFlat(f.rest)
  }

  /** At least not below the entries of this list */
  ghost predicate FlatBelow(f: Forest) {
    f.Cons? ==> AllFlat(f.kids) && FlatBelow(f.rest)
  }

  lemma {:induction false} AppendFlatBelow(f: Forest, g: Forest)
    requires (AllFlat(f) || FlatBelow(f)) && FlatBelow(g)
    ensures FlatBelow(Append(f, g))
  {
    if f.Cons? {
      AppendFlatBelow(f.rest, g);
    }
  }

  lemma {:induction false} FlattenAllFlat(f: Forest)
    requires FlatBelow(f)
    ensures AllFlat(Flatten(f))
    decreases Count(f)
  {
    if f.Cons? {
      AppendFlatBelow(f.kids, f.rest);
      FlattenAllFlat(FlattenStep(f).rest);
    }
  }

  /** So it is everywhere below a finalized entry. */
  lemma {:induction false} FinalizeAllFlat(f: Forest, rd: RevDeps)
    requires f.Cons?
    ensures AllFlat(FinalizeHead(f, rd).0.kids)
    decreases Count(f), 0
  {
    if f.kids.Cons? {
      var a := Propagate(f.entry.Condition(), f.kids, rd);
      FinalizeListFlat(a.0, a.1);
      FlattenAllFlat(FinalizeList(a.0, a.1).0);
    } else if f.entry.sym.Some? {
      var prompt, sym := f.entry.PromptVisible(), f.entry.sym.value;
      AdoptFlat(prompt, sym, f.rest, rd);
      FlattenAllFlat(Adopt(prompt, sym, f.rest, rd).0);
    }
  }

  lemma {:induction false} FinalizeListFlat(f: Forest, rd: RevDeps)
    ensures FlatBelow(FinalizeList(f, rd).0)
    decreases Count(f), 1
  {
    if f.Cons? {
      var h := FinalizeHead(f, rd);
      FinalizeAllFlat(f, rd);
      FinalizeListFlat(h.0.rest, h.1);
    }
  }

  lemma {:induction false} AdoptFlat(prompt: Dep, sym: Symbol, f: Forest, rd: RevDeps)
    ensures FlatBelow(Adopt(prompt, sym, f, rd).0)
    decreases Count(f), 1
  {
    if f.Cons? && Adopts(prompt, sym, f.entry.Condition()) {
      var h := FinalizeHead(f, rd);
      FinalizeAllFlat(f, rd);
      AdoptFlat(prompt, sym, h.0.rest, h.1);
    }
  }

  /** An entry of a symbol without children takes the siblings behind it as long as they pass the test. */
  lemma FinalizeTakes(f: Forest, rd: RevDeps)
    requires f.Cons? && f.kids.Nil? && f.entry.sym.Some?
    ensures var g, sym := FinalizeHead(f, rd).0, f.entry.sym.value;
            && (f.rest.Cons? && Adopts(f.entry.PromptVisible(), sym, f.rest.entry.Condition()) ==>
                  g.kids.Cons? && g.kids.id == f.rest.id)
            && (g.rest.Cons? ==> !Adopts(f.entry.PromptVisible(), sym, g.rest.entry.Condition()))
  {
    AdoptMaximal(f.entry.PromptVisible(), f.entry.sym.value, f.rest, rd);
  }

  /** Every entry that was adopted passed the test, and the first one left did not. */
  ghost predicate AllAdoptable(prompt: Dep, sym: Symbol, f: Forest) {
    f.Cons? ==> Adopts(prompt, sym, f.entry.Condition()) && AllAdoptable(prompt, sym, f.rest)
  }

  lemma {:induction false} AdoptMaximal(prompt: Dep, sym: Symbol, f: Forest, rd: RevDeps)
    ensures var r := Adopt(prompt, sym, f, rd);
            && AllAdoptable(prompt, sym, r.0)
            && (r.1.Cons? ==> !Adopts(prompt, sym, r.1.entry.Condition()))
    decreases Count(f), 1
  {
    if f.Cons? && Adopts(prompt, sym, f.entry.Condition()) {
      var h := FinalizeHead(f, rd);
      AdoptMaximal(prompt, sym, h.0.rest, h.1);
    }
  }

  /** Each entry of the list is enabled only if the parent symbol or its prompt is, as far as its
      condition reads as it counts. */
  ghost predicate Guarded(prompt: Dep, sym: Symbol, f: Forest, v: Valuation) {
    f.Cons? ==>
      && (OverDep(f.entry.Condition(), v) && EvalDep(f.entry.Condition(), v) != NO ==>
            v(sym).tri != NO || EvalDep(prompt, v) != NO)
      && Guarded(prompt, sym, f.rest, v)
  }

  lemma {:induction false} AdoptableGuarded(prompt: Dep, sym: Symbol, f: Forest, v: Valuation)
    requires WellTyped(v) && ReadsAsItCounts(sym, v) && UnderDep(prompt, v)
    requires AllAdoptable(prompt, sym, f)
    ensures Guarded(prompt, sym, f, v)
  {
    if f.Cons? {
      var d := f.entry.Condition();
      if OverDep(d, v) && EvalDep(d, v) != NO {
        AdoptionSound(prompt, sym, d, v);
      }
      AdoptableGuarded(prompt, sym, f.rest, v);
    }
  }

  /** The children that menu_finalize gives to a symbol's entry are enabled only if the symbol or
      its prompt is. */
  lemma AdoptGuarded(prompt: Dep, sym: Symbol, f: Forest, rd: RevDeps, v: Valuation)
    requires WellTyped(v) && ReadsAsItCounts(sym, v) && UnderDep(prompt, v)
    ensures Guarded(prompt, sym, Adopt(prompt, sym, f, rd).0, v)
  {
    AdoptMaximal(prompt, sym, f, rd);
    AdoptableGuarded(prompt, sym, Adopt(prompt, sym, f, rd).0, v);
  }

  // ------------------------------------------------- meaning of the conditions

  ghost predicate NormalDep(d: Dep) {
    d.Some? ==> Normal(d.value)
  }

  ghost predicate TwoValuedDep(d: Dep, v: Valuation) {
    d.Some? ==> TwoValued(d.value, v)
  }

  ghost predicate PlainProps(ps: seq<Prop>, v: Valuation) {
    forall i :: 0 <= i < |ps| ==> TwoValuedDep(ps[i].visible, v)
  }

  /** A propagated condition is the conjunction of the outer and the own one, in normal form. */
  lemma InheritSound(outer: Dep, d: Dep, v: Valuation)
    requires WellTyped(v) && NormalDep(outer) && TwoValuedDep(outer, v) && TwoValuedDep(d, v)
    ensures NormalDep(Inherit(outer, d)) && TwoValuedDep(Inherit(outer, d), v)
    ensures EvalDep(Inherit(outer, d), v) == Ap(And, EvalDep(outer, v), EvalDep(d, v))
  {
    if d.Some? {
      TransformSound(d.value, v);
      TransformTwoValued(d.value, v);
      TransformNormal(d.value);
    }
    var both := AllocBin(And, outer, TransformDep(d));
    if both.Some? {
      EliminateDupsSound(both.value);
    }
  }

  lemma InheritNormal(outer: Dep, d: Dep)
    requires NormalDep(outer)
    ensures NormalDep(Inherit(outer, d))
  {
    if d.Some? {
      TransformNormal(d.value);
    }
    var both := AllocBin(And, outer, TransformDep(d));
    if both.Some? {
      EliminateDupsSound(both.value);
    }
  }
}
