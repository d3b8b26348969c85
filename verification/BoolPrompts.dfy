// Conditions of a finalized menu tree are in normal form; there expr_trans_bool is harmless,
// because sym_calc_visibility promotes m to y for a symbol that cannot be m.
module BoolPrompts {
  import opened Wrappers
  import opened Expr
  import opened NormalForm
  import opened Menu
  import opened Config
  import Submenu
  import Dups
  import Clean

  // ------------------------------------------- normal forms all over the tree

  ghost predicate NormalEntry(e: Entry) {
    NormalDep(e.dep) && forall i :: 0 <= i < |e.props| ==> NormalDep(e.props[i].visible)
  }

  /** The entries of this sibling list, not those below them. */
  ghost predicate HeadsNormal(f: Forest) {
    f.Cons? ==> NormalEntry(f.entry) && HeadsNormal(f.rest)
  }

  /** The entries on every level. */
  ghost predicate AllNormal(f: Forest) {
    f.Cons? ==> NormalEntry(f.entry) && AllNormal(f.kids) && AllNormal(f.rest)
  }

  lemma {:induction false} InheritPropsNormal(sym: Option<Symbol>, basedep: Dep, ps: seq<Prop>)
    requires NormalDep(basedep)
    ensures forall i :: 0 <= i < |ps| ==> NormalDep(InheritProps(sym, basedep, ps)[i].visible)
  {
    if ps != [] {
      var d := ps[|ps| - 1].visible;
      InheritPropsNormal(sym, basedep, ps[..|ps| - 1]);
      InheritNormal(basedep, d);
      if Inherit(basedep, d).Some? {
        TransBoolNormal(Inherit(basedep, d).value);
      }
    }
  }

  lemma {:induction false} PropagateNormal(outer: Dep, f: Forest, rd: RevDeps)
    requires NormalDep(outer)
    ensures HeadsNormal(Propagate(outer, f, rd).0)
  {
    if f.Cons? {
      var e' := InheritEntry(outer, f.entry);
      InheritNormal(outer, f.entry.dep);
      InheritPropsNormal(f.entry.sym, e'.dep, f.entry.props);
      PropagateNormal(outer, f.rest, AddSelects(f.entry.sym, e'.props, rd));
    }
  }

  lemma {:induction false} AppendNormal(f: Forest, g: Forest)
    ensures AllNormal(Append(f, g)) <==> AllNormal(f) && AllNormal(g)
  {
    if f.Cons? {
      AppendNormal(f.rest, g);
    }
  }

  lemma {:induction false} FlattenNormal(f: Forest)
    requires AllNormal(f)
    ensures AllNormal(Flatten(f))
    decreases Count(f)
  {
    if f.Cons? {
      AppendNormal(f.kids, f.rest);
      FlattenNormal(FlattenStep(f).rest);
    }
  }

  /** Whatever menu_finalize puts below an entry has its conditions in normal form. */
  lemma {:induction false} FinalizeNormal(f: Forest, rd: RevDeps)
    requires f.Cons? && HeadsNormal(f)
    ensures AllNormal(FinalizeHead(f, rd).0.kids) && HeadsNormal(FinalizeHead(f, rd).0)
    decreases Count(f), 0
  {
    if f.kids.Cons? {
      var a := Propagate(f.entry.Condition(), f.kids, rd);
      PropagateNormal(f.entry.Condition(), f.kids, rd);
      FinalizeListNormal(a.0, a.1);
      FlattenNormal(FinalizeList(a.0, a.1).0);
    } else if f.entry.sym.Some? {
      var a := Adopt(f.entry.PromptVisible(), f.entry.sym.value, f.rest, rd);
      AdoptNormal(f.entry.PromptVisible(), f.entry.sym.value, f.rest, rd);
      FlattenNormal(a.0);
    }
  }

  lemma {:induction false} FinalizeListNormal(f: Forest, rd: RevDeps)
    requires HeadsNormal(f)
    ensures AllNormal(FinalizeList(f, rd).0)
    decreases Count(f), 1
  {
    if f.Cons? {
      var h := FinalizeHead(f, rd);
      FinalizeNormal(f, rd);
      FinalizeListNormal(h.0.rest, h.1);
    }
  }

  lemma {:induction false} AdoptNormal(prompt: Dep, sym: Symbol, f: Forest, rd: RevDeps)
    requires HeadsNormal(f)
    ensures var r := Adopt(prompt, sym, f, rd); AllNormal(r.0) && HeadsNormal(r.1)
    decreases Count(f), 1
  {
    if f.Cons? && Submenu.Adopts(prompt, sym, f.entry.Condition()) {
      var h := FinalizeHead(f, rd);
      FinalizeNormal(f, rd);
      AdoptNormal(prompt, sym, h.0.rest, h.1);
    }
  }

  /** The condition a property ends up with is n exactly when the inherited or its own one is. */
  lemma InheritPropSound(sym: Option<Symbol>, basedep: Dep, p: Prop, v: Valuation)
    requires WellTyped(v) && NormalDep(basedep) && TwoValuedDep(basedep, v) && TwoValuedDep(p.visible, v)
    ensures EvalDep(InheritProp(sym, basedep, p).visible, v) == NO <==>
            EvalDep(basedep, v) == NO || EvalDep(p.visible, v) == NO
  {
    var d := Inherit(basedep, p.visible);
    InheritSound(basedep, p.visible, v);
    if d.Some? {
      TransBoolKeepsN(d.value, v);
    }
  }

  // ------------------------------------------------------ form of the conditions

  /** A propagated condition is not only normal but has nothing left to join or cancel. */
  lemma InheritClean(outer: Dep, d: Dep)
    ensures var i := Inherit(outer, d); i.Some? ==> Clean.Clean(i.value)
  {
    var both := AllocBin(And, outer, TransformDep(d));
    if both.Some? {
      Clean.EliminateDupsClean(both.value);
    }
  }

  /** So is the condition that the adoption test compares. */
  lemma EnabledForm(d: Dep)
    ensures Normal(Submenu.Enabled(d)) && Clean.Clean(Submenu.Enabled(d))
  {
    var c := Transform(Submenu.TransCompareDep(d, false, SYM_NO));
    TransformNormal(Submenu.TransCompareDep(d, false, SYM_NO));
    Dups.EliminateDupsSound(c);
    Clean.EliminateDupsClean(c);
  }

  /** Only the properties of a symbol that is no tristate are rewritten, and those completely. */
  lemma InheritPropExact(sym: Option<Symbol>, basedep: Dep, p: Prop)
    ensures var d := InheritProp(sym, basedep, p).visible;
            if sym.Some? && sym.value.typ != Tri then d.Some? ==> !TestsNotN(d.value)
            else d == Inherit(basedep, p.visible) && (d.Some? ==> Clean.Clean(d.value))
  {
    var d := Inherit(basedep, p.visible);
    if d.Some? {
      TransBoolExact(d.value);
      InheritClean(basedep, p.visible);
    }
  }

  // ------------------------------------------------------------- visibility

  /** menu_finalize's rewrite of the conditions of a symbol that is not a tristate */
  function BoolProps(ps: seq<Property>): (r: seq<Property>)
    ensures |r| == |ps|
  {
    if ps == [] then []
    else
      var p := ps[|ps| - 1];
      BoolProps(ps[..|ps| - 1]) + [p.(visible := BoolDep(p.visible))]
  }

  ghost predicate NormalProps(ps: seq<Property>) {
    forall i :: 0 <= i < |ps| ==> NormalDep(ps[i].visible)
  }

  lemma {:induction false} BoolPropsKeepN(ps: seq<Property>, v: Valuation)
    requires Sane(v) && NormalProps(ps)
    ensures PromptVisibility(BoolProps(ps), v) <= PromptVisibility(ps, v)
    ensures PromptVisibility(BoolProps(ps), v) == NO <==> PromptVisibility(ps, v) == NO
  {
    if ps != [] {
      var init, p := ps[..|ps| - 1], ps[|ps| - 1];
      BoolPropsKeepN(init, v);
      assert BoolProps(ps)[..|ps| - 1] == BoolProps(init);
      if p.visible.Some? {
        TransBoolKeepsN(p.visible.value, v);
      }
    }
  }

  /** A symbol other than a tristate is exactly as visible with the rewritten prompts: the
      rewrite turns y into m at most, and the promotion turns that back. */
  lemma VisibilityKept(s: Symbol, modulesVal: Tristate, ps: seq<Property>, v: Valuation)
    requires Sane(v) && NormalProps(ps) && s.typ != Tri
    ensures Promote(s, modulesVal, PromptVisibility(BoolProps(ps), v)) ==
            Promote(s, modulesVal, PromptVisibility(ps, v))
    ensures Promote(s, modulesVal, PromptVisibility(ps, v)) != MOD
  {
    BoolPropsKeepN(ps, v);
  }

  /** The properties qs of a symbol, with the conditions that menu_finalize left in ps */
  function Carry(qs: seq<Property>, ps: seq<Prop>): (r: seq<Property>)
    requires |qs| == |ps|
    ensures |r| == |qs|
  {
    if qs == [] then []
    else Carry(qs[..|qs| - 1], ps[..|ps| - 1]) + [qs[|qs| - 1].(visible := ps[|ps| - 1].visible)]
  }

  lemma CarrySnoc(sym: Option<Symbol>, basedep: Dep, qs: seq<Property>, ps: seq<Prop>)
    requires |qs| == |ps| > 0
    ensures var n := |qs| - 1;
            Carry(qs, InheritProps(sym, basedep, ps)) ==
            Carry(qs[..n], InheritProps(sym, basedep, ps[..n]))
            + [qs[n].(visible := InheritProp(sym, basedep, ps[n]).visible)]
  {
    var n, props := |qs| - 1, InheritProps(sym, basedep, ps);
    var before := InheritProps(sym, basedep, ps[..n]);
    assert props == before + [InheritProp(sym, basedep, ps[n])];
    assert props[..n] == before;
  }

  /** The rewritten conditions are the inherited ones, which an entry without a symbol would get,
      rewritten by expr_trans_bool. */
  lemma {:induction false} CarryBool(s: Symbol, basedep: Dep, qs: seq<Property>, ps: seq<Prop>)
    requires s.typ != Tri && NormalDep(basedep) && |qs| == |ps|
    ensures NormalProps(Carry(qs, InheritProps(None, basedep, ps)))
    ensures Carry(qs, InheritProps(Some(s), basedep, ps)) == BoolProps(Carry(qs, InheritProps(None, basedep, ps)))
  {
    if qs != [] {
      var n := |qs| - 1;
      CarryBool(s, basedep, qs[..n], ps[..n]);
      InheritNormal(basedep, ps[n].visible);
      CarrySnoc(None, basedep, qs, ps);
      CarrySnoc(Some(s), basedep, qs, ps);
      var d := Inherit(basedep, ps[n].visible);
      BoolSnoc(Carry(qs[..n], InheritProps(None, basedep, ps[..n])), qs[n].(visible := d));
    }
  }

  lemma BoolSnoc(qs: seq<Property>, q: Property)
    ensures BoolProps(qs + [q]) == BoolProps(qs) + [q.(visible := BoolDep(q.visible))]
  {
    assert (qs + [q])[..|qs|] == qs;
  }

  /** So a symbol that is no tristate is exactly as visible as with the conditions it inherits. */
  lemma InheritedVisibility(s: Symbol, modulesVal: Tristate, basedep: Dep, qs: seq<Property>, ps: seq<Prop>,
                            v: Valuation)
    requires Sane(v) && s.typ != Tri && NormalDep(basedep) && |qs| == |ps|
    ensures Promote(s, modulesVal, PromptVisibility(Carry(qs, InheritProps(Some(s), basedep, ps)), v)) ==
            Promote(s, modulesVal, PromptVisibility(Carry(qs, InheritProps(None, basedep, ps)), v))
  {
    CarryBool(s, basedep, qs, ps);
    VisibilityKept(s, modulesVal, Carry(qs, InheritProps(None, basedep, ps)), v);
  }

  /** One of the prompts has a condition of its own that is not n. */
  ghost predicate SomeOpen(qs: seq<Property>, ps: seq<Prop>, v: Valuation)
    requires |qs| == |ps|
  {
    exists i :: 0 <= i < |qs| && qs[i].Prompt? && EvalDep(ps[i].visible, v) != NO
  }

  lemma SomeOpenSnoc(qs: seq<Property>, ps: seq<Prop>, v: Valuation)
    requires |qs| == |ps| > 0
    ensures var n := |qs| - 1;
            SomeOpen(qs, ps, v) <==>
              SomeOpen(qs[..n], ps[..n], v) || (qs[n].Prompt? && EvalDep(ps[n].visible, v) != NO)
  {
    var n := |qs| - 1;
    var before, all := qs[..n], ps[..n];
    if SomeOpen(before, all, v) {
      var i :| 0 <= i < n && before[i].Prompt? && EvalDep(all[i].visible, v) != NO;
      assert qs[i].Prompt? && EvalDep(ps[i].visible, v) != NO;
    }
    if SomeOpen(qs, ps, v) {
      var i :| 0 <= i < |qs| && qs[i].Prompt? && EvalDep(ps[i].visible, v) != NO;
      assert i < n ==> before[i].Prompt? && EvalDep(all[i].visible, v) != NO;
    }
  }

  function InheritedPrompts(s: Symbol, basedep: Dep, qs: seq<Property>, ps: seq<Prop>, v: Valuation): Tristate
    requires |qs| == |ps|
  {
    PromptVisibility(Carry(qs, InheritProps(Some(s), basedep, ps)), v)
  }

  lemma PromptSnoc(qs: seq<Property>, q: Property, v: Valuation)
    ensures PromptVisibility(qs + [q], v) ==
            if q.Prompt? then Ap(Or, PromptVisibility(qs, v), EvalDep(q.visible, v)) else PromptVisibility(qs, v)
  {
    assert (qs + [q])[..|qs|] == qs;
  }

  lemma InheritedSnoc(s: Symbol, basedep: Dep, qs: seq<Property>, ps: seq<Prop>, v: Valuation)
    requires |qs| == |ps| > 0
    ensures var n := |qs| - 1;
            var before := InheritedPrompts(s, basedep, qs[..n], ps[..n], v);
            InheritedPrompts(s, basedep, qs, ps, v) ==
            if qs[n].Prompt? then Ap(Or, before, EvalDep(InheritProp(Some(s), basedep, ps[n]).visible, v)) else before
  {
    var n := |qs| - 1;
    CarrySnoc(Some(s), basedep, qs, ps);
    var carried := Carry(qs[..n], InheritProps(Some(s), basedep, ps[..n]));
    PromptSnoc(carried, qs[n].(visible := InheritProp(Some(s), basedep, ps[n]).visible), v);
  }

  lemma {:induction false} SomePrompt(s: Symbol, basedep: Dep, qs: seq<Property>, ps: seq<Prop>, v: Valuation)
    requires WellTyped(v) && NormalDep(basedep) && |qs| == |ps|
    requires TwoValuedDep(basedep, v) && PlainProps(ps, v)
    ensures InheritedPrompts(s, basedep, qs, ps, v) != NO <==> EvalDep(basedep, v) != NO && SomeOpen(qs, ps, v)
  {
    if qs == [] {
      assert InheritProps(Some(s), basedep, ps) == [];
    } else {
      var n := |qs| - 1;
      SomePrompt(s, basedep, qs[..n], ps[..n], v);
      SomeOpenSnoc(qs, ps, v);
      InheritPropSound(Some(s), basedep, ps[n], v);
      InheritedSnoc(s, basedep, qs, ps, v);
    }
  }

  /** With conditions whose plain leaves are n or y: it is visible exactly when, for one of its
      prompts, neither the inherited condition nor the prompt's own one is n. */
  lemma VisibleExactly(s: Symbol, modulesVal: Tristate, basedep: Dep, qs: seq<Property>, ps: seq<Prop>, v: Valuation)
    requires WellTyped(v) && s.typ != Tri && NormalDep(basedep) && |qs| == |ps|
    requires TwoValuedDep(basedep, v) && PlainProps(ps, v)
    ensures Promote(s, modulesVal, PromptVisibility(Carry(qs, InheritProps(Some(s), basedep, ps)), v)) ==
            if EvalDep(basedep, v) != NO && SomeOpen(qs, ps, v) then YES else NO
  {
    SomePrompt(s, basedep, qs, ps, v);
  }
}
