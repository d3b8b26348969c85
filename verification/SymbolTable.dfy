// The memoised evaluator: sym_calc_value and its helpers, updating the symbols in place.
// Invalid entries are recomputed on demand; SYMBOL_VALID entries are returned as they are.
module SymbolTable {
  import opened Wrappers
  import opened Expr
  import opened Submenu
  import opened Config

  /** A fixed setting: M is the meaning of every symbol under these user values. */
  datatype Env = Env(c: Config, user: map<Symbol, User>, modulesVal: Tristate, M: Solution, rank: Symbol -> nat)

  ghost predicate Setting(E: Env) {
    && WellFormed(E.c) && Users(E.c, E.user)
    && Ranked(E.c, E.rank)
    && Solves(E.c, E.user, E.modulesVal, E.M)
    && E.M(E.c.modules).curr.tri == E.modulesVal
  }

  /** Everything read while busy is being computed ranks strictly below it. */
  ghost predicate Below(E: Env, t: Symbol, busy: set<Symbol>) {
    t in E.c.symbols && forall b: Symbol :: b in busy ==> E.rank(t) < E.rank(b)
  }

  ghost predicate BelowExpr(E: Env, e: Expr, busy: set<Symbol>) {
    forall t: Symbol :: Contains(e, t) ==> Below(E, t, busy)
  }

  ghost predicate BelowDep(E: Env, d: Dep, busy: set<Symbol>) {
    d.Some? ==> BelowExpr(E, d.value, busy)
  }

  /** s is being computed, and nothing busy ranks below it. */
  ghost predicate Computing(E: Env, s: Symbol, busy: set<Symbol>) {
    && s in E.c.symbols && HasType(s) && s in busy
    && forall b: Symbol :: b in busy ==> E.rank(s) <= E.rank(b)
  }

  lemma PropBelow(E: Env, s: Symbol, i: nat, busy: set<Symbol>)
    requires WellFormed(E.c) && Ranked(E.c, E.rank) && Computing(E, s, busy) && i < |E.c.props[s]|
    ensures var p := E.c.props[s][i];
            && (p.Prompt? || p.Default? || p.Range? ==> BelowDep(E, p.visible, busy))
            && (p.Default? ==> BelowExpr(E, p.value, busy))
            && (p.Range? ==> Below(E, p.lo, busy) && Below(E, p.hi, busy))
  {
    var p := E.c.props[s][i];
    assert p in E.c.props[s];
    forall t: Symbol | PropReads(p, t)
      ensures Below(E, t, busy)
    {
      assert Reads(E.c, s, t);
    }
    if p.Range? {
      assert PropReads(p, p.lo) && PropReads(p, p.hi);
    }
    if p.Default? {
      assert forall t: Symbol :: Contains(p.value, t) ==> PropReads(p, t);
    }
    if (p.Prompt? || p.Default? || p.Range?) && p.visible.Some? {
      assert forall t: Symbol :: Contains(p.visible.value, t) ==> PropReads(p, t);
    }
  }

  lemma RevBelow(E: Env, s: Symbol, busy: set<Symbol>)
    requires WellFormed(E.c) && Ranked(E.c, E.rank) && Computing(E, s, busy)
    ensures BelowDep(E, E.c.revDep[s], busy)
  {
    if E.c.revDep[s].Some? {
      forall t: Symbol | Contains(E.c.revDep[s].value, t)
        ensures Below(E, t, busy)
      {
        assert Reads(E.c, s, t);
      }
    }
  }

  lemma PromptSnoc(ps: seq<Property>, i: nat, v: Valuation)
    requires i < |ps|
    ensures PromptVisibility(ps[..i + 1], v) ==
            if ps[i].Prompt? then Ap(Or, PromptVisibility(ps[..i], v), EvalDep(ps[i].visible, v))
            else PromptVisibility(ps[..i], v)
  {
    assert ps[..i + 1][..i] == ps[..i];
  }

  class Table {
    const c: Config
    var valid: set<Symbol>
    var cache: map<Symbol, Cached>
    var user: map<Symbol, User>
    var modulesVal: Tristate

    constructor (c: Config, user: map<Symbol, User>, cache: map<Symbol, Cached>)
      requires WellFormed(c) && Users(c, user) && cache.Keys == c.symbols
      ensures Valid()
      ensures this.c == c && this.user == user && this.cache == cache
      ensures this.valid == {SYM_YES, SYM_MOD, SYM_NO} && modulesVal == NO
    {
      this.c := c;
      this.user := user;
      this.cache := cache;
      this.valid := {SYM_YES, SYM_MOD, SYM_NO};
      this.modulesVal := NO;
    }

    ghost predicate Valid()
      reads this
    {
      && WellFormed(c) && Users(c, user) && cache.Keys == c.symbols
      && {SYM_YES, SYM_MOD, SYM_NO} <= valid <= c.symbols
    }

    /** The table evaluates under the user values and modules_val that E gives meaning to. */
    ghost predicate InEnv(E: Env)
      reads this
    {
      c == E.c && user == E.user && modulesVal == E.modulesVal && Setting(E)
    }

    /** A cached entry agrees with the meaning; an untyped symbol only has a value. */
    ghost predicate Matches(s: Symbol, m: Cached)
      reads this
    {
      s in cache && cache[s].curr == m.curr && (HasType(s) ==> cache[s] == m)
    }

    /** Every VALID entry that is not still being computed agrees with its meaning. */
    ghost predicate Coherent(E: Env, busy: set<Symbol>)
      reads this
    {
      forall s: Symbol :: s in valid && s !in busy ==> Matches(s, E.M(s))
    }

    /** What an evaluation may change: it only adds VALID entries. */
    twostate predicate OnlyAdds()
      reads this
    {
      && old(valid) <= valid
      && user == old(user) && modulesVal == old(modulesVal)
      && (forall s: Symbol :: s in old(valid) && s in old(cache) ==> s in cache && cache[s] == old(cache[s]))
    }

    /** The same, except that the entry of s itself is being filled in. */
    twostate predicate OnlyAddsBut(s: Symbol)
      reads this
    {
      && old(valid) <= valid
      && user == old(user) && modulesVal == old(modulesVal)
      && (forall t: Symbol :: t != s && t in old(valid) && t in old(cache) ==> t in cache && cache[t] == old(cache[t]))
    }

    /** expr_calc_value */
    method CalcExpr(e: Expr, ghost E: Env, ghost busy: set<Symbol>)
      returns (t: Tristate)
      requires Valid() && InEnv(E) && Coherent(E, busy) && busy <= valid
      requires BelowExpr(E, e, busy)
      modifies this
      ensures Valid() && Coherent(E, busy) && OnlyAdds()
      ensures t == Eval(e, Current(E.M))
      decreases c.symbols - valid, 0, Size(e)
    {
      match e
      case Sym(s) =>
        assert Contains(e, s);
        CalcValue(s, E, busy);
        t := cache[s].curr.tri;
      case Comp(eq, l, r) =>
        assert Contains(e, l) && Contains(e, r);
        CalcValue(l, E, busy);
        CalcValue(r, E, busy);
        var str1, str2 := StringOf(l, cache[l].curr), StringOf(r, cache[r].curr);
        t := if (str1 == str2) == eq then YES else NO;
      case Not(a) =>
        assert forall x: Symbol :: Contains(a, x) ==> Contains(e, x);
        var val1 := CalcExpr(a, E, busy);
        t := 2 - val1;
      case Bin(op, l, r) =>
        assert forall x: Symbol :: Contains(l, x) || Contains(r, x) ==> Contains(e, x);
        var val1 := CalcExpr(l, E, busy);
        var val2 := CalcExpr(r, E, busy);
        t := Ap(op, val1, val2);
    }

    method CalcDep(d: Dep, ghost E: Env, ghost busy: set<Symbol>)
      returns (t: Tristate)
      requires Valid() && InEnv(E) && Coherent(E, busy) && busy <= valid
      requires BelowDep(E, d, busy)
      modifies this
      ensures Valid() && Coherent(E, busy) && OnlyAdds()
      ensures t == EvalDep(d, Current(E.M))
      decreases c.symbols - valid, 0, if d.Some? then Size(d.value) + 1 else 0
    {
      if d.None? {
        return YES;
      }
      t := CalcExpr(d.value, E, busy);
    }

    /** Write one field group of a symbol that is being computed. */
    method Store(s: Symbol, x: Cached, ghost E: Env, ghost busy: set<Symbol>)
      requires Valid() && Coherent(E, busy) && s in busy && busy <= valid && HasType(s)
      modifies this`cache
      ensures Valid() && Coherent(E, busy) && OnlyAddsBut(s)
      ensures cache[s] == x
    {
      cache := cache[s := x];
    }

    /** "any prompt visible?" */
    method CalcPrompts(s: Symbol, ghost E: Env, ghost busy: set<Symbol>) returns (tri: Tristate)
      requires Valid() && InEnv(E) && Coherent(E, busy) && busy <= valid
      requires Computing(E, s, busy)
      modifies this
      ensures Valid() && Coherent(E, busy) && OnlyAdds()
      ensures tri == PromptVisibility(c.props[s], Current(E.M))
      decreases c.symbols - valid, 1, 1
    {
      tri := NO;
      var ps := c.props[s];
      var i := 0;
      while i < |ps|
        invariant 0 <= i <= |ps|
        invariant Valid() && Coherent(E, busy) && OnlyAdds()
        invariant tri == PromptVisibility(ps[..i], Current(E.M))
      {
        PromptSnoc(ps, i, Current(E.M));
        if ps[i].Prompt? {
          PropBelow(E, s, i, busy);
          var t := CalcDep(ps[i].visible, E, busy);
          tri := Ap(Or, tri, t);
        }
        i := i + 1;
      }
      assert ps[..|ps|] == ps;
    }

    /** The value of rev_dep.expr, where NULL counts as n */
    method CalcRevDep(s: Symbol, ghost E: Env, ghost busy: set<Symbol>) returns (tri: Tristate)
      requires Valid() && InEnv(E) && Coherent(E, busy) && busy <= valid
      requires Computing(E, s, busy)
      modifies this
      ensures Valid() && Coherent(E, busy) && OnlyAdds()
      ensures tri == if c.revDep[s].None? then NO else EvalDep(c.revDep[s], Current(E.M))
      decreases c.symbols - valid, 1, 1
    {
      tri := NO;
      if c.revDep[s].Some? {
        RevBelow(E, s, busy);
        tri := CalcDep(c.revDep[s], E, busy);
      }
    }

    /** sym_calc_visibility */
    method CalcVisibility(s: Symbol, ghost E: Env, ghost busy: set<Symbol>)
      requires Valid() && InEnv(E) && Coherent(E, busy) && busy <= valid
      requires Computing(E, s, busy)
      modifies this
      ensures Valid() && Coherent(E, busy) && OnlyAddsBut(s)
      ensures cache[s] == old(cache[s]).(visible := Visibility(c, s, modulesVal, Current(E.M)),
                                         rev := SelectFloor(c, s, modulesVal, Current(E.M)))
      decreases c.symbols - valid, 1, 2
    {
      var tri := CalcPrompts(s, E, busy);
      tri := Promote(s, modulesVal, tri);
      Store(s, cache[s].(visible := tri), E, busy);
      var rev := CalcRevDep(s, E, busy);
      Store(s, cache[s].(rev := AsType(s, modulesVal, rev)), E, busy);
    }

    /** sym_get_default_prop / sym_get_range_prop, with the condition's value */
    method GetProp(s: Symbol, default: bool, ghost E: Env, ghost busy: set<Symbol>)
      returns (r: Option<Property>, tri: Tristate)
      requires Valid() && InEnv(E) && Coherent(E, busy) && busy <= valid
      requires Computing(E, s, busy)
      modifies this
      ensures Valid() && Coherent(E, busy) && OnlyAdds()
      ensures r == FirstVisible(c.props[s], default, Current(E.M))
      ensures r.Some? ==> r.value in c.props[s] && tri == EvalDep(r.value.visible, Current(E.M))
      decreases c.symbols - valid, 1, 1
    {
      var ps := c.props[s];
      var i := 0;
      while i < |ps|
        invariant 0 <= i <= |ps|
        invariant Valid() && Coherent(E, busy) && OnlyAdds()
        invariant FirstVisible(ps, default, Current(E.M)) == FirstVisible(ps[i..], default, Current(E.M))
      {
        if IsKind(ps[i], default) {
          PropBelow(E, s, i, busy);
          tri := CalcDep(ps[i].visible, E, busy);
          if tri != NO {
            return Some(ps[i]), tri;
          }
        }
        i := i + 1;
      }
      return None, NO;
    }

    /** sym_get_range_val */
    method GetRangeVal(t: Symbol, base: nat, ghost E: Env, ghost busy: set<Symbol>)
      returns (n: int)
      requires Valid() && InEnv(E) && Coherent(E, busy) && busy <= valid
      requires Below(E, t, busy)
      modifies this
      ensures Valid() && Coherent(E, busy) && OnlyAdds()
      ensures n == (c.strtol)(Current(E.M)(t).val, Base(t, base))
      decreases c.symbols - valid, 1, 1
    {
      CalcValue(t, E, busy);
      n := (c.strtol)(cache[t].curr.val, Base(t, base));
    }

    /** sym_validate_range on the value val */
    method ClampToRange(s: Symbol, val: string, ghost E: Env, ghost busy: set<Symbol>) returns (r: string)
      requires Valid() && InEnv(E) && Coherent(E, busy) && busy <= valid
      requires Computing(E, s, busy)
      modifies this
      ensures Valid() && Coherent(E, busy) && OnlyAdds()
      ensures r == InRangeValue(c, s, val, Current(E.M))
      decreases c.symbols - valid, 1, 3
    {
      if s.typ != Int && s.typ != Hex {
        return val;
      }
      var base := Base(s, 0);
      var prop, _ := GetProp(s, false, E, busy);
      if prop.None? {
        return val;
      }
      var i :| 0 <= i < |c.props[s]| && c.props[s][i] == prop.value;
      PropBelow(E, s, i, busy);
      var n := (c.strtol)(val, base);
      var bound, inside := FindBound(n, prop.value.lo, prop.value.hi, base, E, busy);
      r := if inside then val else (c.format)(s.typ, bound);
    }

    /** Compare n with lo and then with hi; bound is the limit that n violates. */
    method FindBound(n: int, lo: Symbol, hi: Symbol, base: nat, ghost E: Env, ghost busy: set<Symbol>)
      returns (bound: int, inside: bool)
      requires Valid() && InEnv(E) && Coherent(E, busy) && busy <= valid
      requires Below(E, lo, busy) && Below(E, hi, busy)
      modifies this
      ensures Valid() && Coherent(E, busy) && OnlyAdds()
      ensures var l := (c.strtol)(Current(E.M)(lo).val, Base(lo, base));
              var h := (c.strtol)(Current(E.M)(hi).val, Base(hi, base));
              && inside == (l <= n <= h)
              && (!inside ==> bound == if n < l then l else h)
      decreases c.symbols - valid, 1, 2
    {
      inside := false;
      bound := GetRangeVal(lo, base, E, busy);
      if n >= bound {
        bound := GetRangeVal(hi, base, E, busy);
        inside := n <= bound;
      }
    }

    /** The first visible default, evaluated and limited by its condition */
    method DefaultTristate(s: Symbol, ghost E: Env, ghost busy: set<Symbol>) returns (found: bool, tri: Tristate)
      requires Valid() && InEnv(E) && Coherent(E, busy) && busy <= valid
      requires Computing(E, s, busy)
      modifies this
      ensures Valid() && Coherent(E, busy) && OnlyAdds()
      ensures var d := FirstVisible(c.props[s], true, Current(E.M));
              found == d.Some? && tri == DefaultTri(c, s, Current(E.M))
      decreases c.symbols - valid, 1, 2
    {
      var prop, cond := GetProp(s, true, E, busy);
      if prop.None? {
        return false, NO;
      }
      var i :| 0 <= i < |c.props[s]| && c.props[s][i] == prop.value;
      PropBelow(E, s, i, busy);
      var t := CalcExpr(prop.value.value, E, busy);
      return true, Ap(And, t, cond);
    }

    /** The text of the symbol that the first visible default names */
    method DefaultText(s: Symbol, ghost E: Env, ghost busy: set<Symbol>) returns (found: bool, val: string)
      requires Valid() && InEnv(E) && Coherent(E, busy) && busy <= valid
      requires Computing(E, s, busy)
      modifies this
      ensures Valid() && Coherent(E, busy) && OnlyAdds()
      ensures var d := FirstVisible(c.props[s], true, Current(E.M));
              && found == (d.Some? && d.value.value.Sym?)
              && val == if found then Current(E.M)(d.value.value.sym).val else ""
      decreases c.symbols - valid, 1, 2
    {
      var prop, _ := GetProp(s, true, E, busy);
      if prop.None? || !prop.value.value.Sym? {
        return false, "";
      }
      var ds := prop.value.value.sym;
      var i :| 0 <= i < |c.props[s]| && c.props[s][i] == prop.value;
      PropBelow(E, s, i, busy);
      assert Contains(prop.value.value, ds);
      CalcValue(ds, E, busy);
      return true, cache[ds].curr.val;
    }

    /** The user value limited by the visibility, or else the default; write is SYMBOL_WRITE. */
    method ChooseTristate(s: Symbol, ghost E: Env, ghost busy: set<Symbol>) returns (tri: Tristate, write: bool)
      requires Valid() && InEnv(E) && Coherent(E, busy) && busy <= valid
      requires Computing(E, s, busy)
      modifies this
      ensures Valid() && Coherent(E, busy) && OnlyAdds()
      ensures tri == if old(cache[s]).visible != NO && user[s].has then Ap(And, user[s].tri, old(cache[s]).visible)
                     else DefaultTri(c, s, Current(E.M))
      ensures write == (|| old(cache[s]).visible != NO || old(cache[s]).rev != NO
                        || FirstVisible(c.props[s], true, Current(E.M)).Some?)
      decreases c.symbols - valid, 1, 3
    {
      write := cache[s].visible != NO;
      if write && user[s].has {
        tri := Ap(And, user[s].tri, cache[s].visible);
      } else {
        write := write || cache[s].rev != NO;
        var found;
        found, tri := DefaultTristate(s, E, busy);
        write := write || found;
      }
    }

    /** The boolean and tristate cases of sym_calc_value */
    method CalcTristate(s: Symbol, ghost E: Env, ghost busy: set<Symbol>)
      requires Valid() && InEnv(E) && Coherent(E, busy) && busy <= valid
      requires Computing(E, s, busy)
      requires s.IsTristate()
      requires cache[s].visible == Visibility(c, s, modulesVal, Current(E.M))
      requires cache[s].rev == SelectFloor(c, s, modulesVal, Current(E.M)) && !cache[s].write
      modifies this
      ensures Valid() && Coherent(E, busy) && OnlyAddsBut(s)
      ensures cache[s].(write := false) == Meaning(c, user[s], modulesVal, s, Current(E.M)).(write := false)
      ensures s !in c.auto ==> cache[s].write == Writes(c, user[s], modulesVal, s, Current(E.M))
      decreases c.symbols - valid, 1, 4
    {
      Store(s, cache[s].(curr := Value("n", NO)), E, busy);
      var tri, write := ChooseTristate(s, E, busy);
      tri := AsType(s, modulesVal, Ap(Or, tri, cache[s].rev));
      Store(s, cache[s].(curr := Value("n", tri), write := write), E, busy);
    }

    /** The user value, or else the text of the default; write is SYMBOL_WRITE. */
    method ChooseText(s: Symbol, ghost E: Env, ghost busy: set<Symbol>) returns (val: string, write: bool)
      requires Valid() && InEnv(E) && Coherent(E, busy) && busy <= valid
      requires Computing(E, s, busy)
      modifies this
      ensures Valid() && Coherent(E, busy) && OnlyAdds()
      ensures var d, visible := FirstVisible(c.props[s], true, Current(E.M)), old(cache[s]).visible != NO;
              && val == (if visible && user[s].has then user[s].val
                         else if d.Some? && d.value.value.Sym? then Current(E.M)(d.value.value.sym).val
                         else "")
              && write == (visible || (d.Some? && d.value.value.Sym?))
      decreases c.symbols - valid, 1, 3
    {
      write := cache[s].visible != NO;
      if write && user[s].has {
        val := user[s].val;
      } else {
        var found;
        found, val := DefaultText(s, E, busy);
        write := write || found;
      }
    }

    /** The string, int and hex cases of sym_calc_value */
    method CalcText(s: Symbol, ghost E: Env, ghost busy: set<Symbol>)
      requires Valid() && InEnv(E) && Coherent(E, busy) && busy <= valid
      requires Computing(E, s, busy)
      requires !s.IsTristate()
      requires cache[s].visible == Visibility(c, s, modulesVal, Current(E.M))
      requires cache[s].rev == SelectFloor(c, s, modulesVal, Current(E.M)) && !cache[s].write
      modifies this
      ensures Valid() && Coherent(E, busy) && OnlyAddsBut(s)
      ensures cache[s].(write := false) == Meaning(c, user[s], modulesVal, s, Current(E.M)).(write := false)
      ensures s !in c.auto ==> cache[s].write == Writes(c, user[s], modulesVal, s, Current(E.M))
      decreases c.symbols - valid, 1, 4
    {
      Store(s, cache[s].(curr := Value("", NO)), E, busy);
      var val, write := ChooseText(s, E, busy);
      Store(s, cache[s].(curr := Value(val, NO), write := write), E, busy);
      val := ClampToRange(s, val, E, busy);
      Store(s, cache[s].(curr := Value(val, NO)), E, busy);
    }

    /** sym_calc_value of a typed symbol whose SYMBOL_VALID flag has just been set */
    method CalcTyped(s: Symbol, ghost E: Env, ghost busy: set<Symbol>)
      requires Valid() && InEnv(E) && Coherent(E, busy) && busy <= valid
      requires Computing(E, s, busy)
      modifies this
      ensures Valid() && Coherent(E, busy) && OnlyAddsBut(s)
      ensures cache[s] == Meaning(c, user[s], modulesVal, s, Current(E.M))
      decreases c.symbols - valid, 1, 5
    {
      Store(s, cache[s].(write := false), E, busy);
      CalcVisibility(s, E, busy);
      if s.IsTristate() {
        CalcTristate(s, E, busy);
      } else {
        CalcText(s, E, busy);
      }
      if s in c.auto {
        Store(s, cache[s].(write := false), E, busy);
      }
    }

    /** sym_calc_value of a typed symbol that is not VALID */
    method CalcInvalid(s: Symbol, ghost E: Env, ghost busy: set<Symbol>)
      requires Valid() && InEnv(E) && Coherent(E, busy) && busy <= valid
      requires Below(E, s, busy) && HasType(s) && s !in valid
      modifies this
      ensures Valid() && Coherent(E, busy) && OnlyAdds()
      ensures s in valid && Matches(s, E.M(s))
      decreases c.symbols - valid, 0, 0, 0
    {
      var oldval := cache[s].curr;
      valid := valid + {s};
      CalcTyped(s, E, busy + {s});
      assert Equation(s);
      if oldval != cache[s].curr && s == c.modules {
        modulesVal := cache[s].curr.tri;
      }
    }

    /** sym_calc_value: afterwards s is VALID and holds its meaning. */
    method CalcValue(s: Symbol, ghost E: Env, ghost busy: set<Symbol>)
      requires Valid() && InEnv(E) && Coherent(E, busy) && busy <= valid
      requires Below(E, s, busy)
      modifies this
      ensures Valid() && Coherent(E, busy) && OnlyAdds()
      ensures s in valid && s !in busy && Matches(s, E.M(s))
      decreases c.symbols - valid, 0, 0, 1
    {
      if s in valid {
        return;
      }
      if HasType(s) {
        CalcInvalid(s, E, busy);
      } else {
        assert Equation(s);
        valid := valid + {s};
        cache := cache[s := cache[s].(curr := Value(s.name, NO))];
      }
    }

    /** Whatever the order of evaluation, every symbol gets its one meaning. */
    method CalcAll(order: seq<Symbol>, ghost E: Env)
      requires Valid() && InEnv(E) && Coherent(E, {})
      requires forall s <- order :: s in c.symbols
      modifies this
      ensures Valid() && InEnv(E) && Coherent(E, {}) && OnlyAdds()
      ensures forall s <- order :: s in valid && Matches(s, E.M(s))
    {
      for i := 0 to |order|
        invariant Valid() && InEnv(E) && Coherent(E, {}) && OnlyAdds()
        invariant forall j :: 0 <= j < i ==> order[j] in valid
      {
        assert order[i] in order;
        CalcValue(order[i], E, {});
      }
    }

    /** sym_clear_all_valid, after which MODULES is evaluated again */
    method ClearAllValid(ghost E0: Env, ghost E: Env)
      requires Valid() && E0.c == c && Setting(E0) && Coherent(E0, {})
      requires InEnv(E)
      modifies this
      ensures Valid() && InEnv(E) && Coherent(E, {})
      ensures c.modules in valid
    {
      valid := set s | s in valid && (IsYMN(s) || s.typ == SymbolType.Other);
      forall s: Symbol | s in valid
        ensures Matches(s, E.M(s))
      {
        ConstantMeaning(E0, E, s);
      }
      CalcValue(c.modules, E, {});
    }

    /** sym_tristate_within_range */
    predicate TristateWithinRange(s: Symbol, val: Tristate)
      reads this
      requires s in cache
    {
      var x := cache[s];
      && x.visible != NO
      && s.IsTristate()
      && !(GetType(s, modulesVal) == Boolean && val == MOD)
      && x.visible > x.rev
      && x.rev <= val <= x.visible
    }

    /** sym_set_tristate_value; E1 gives the meaning under the new user value */
    method SetTristateValue(s: Symbol, val: Tristate, ghost E: Env, ghost E1: Env) returns (ok: bool)
      requires Valid() && InEnv(E) && Coherent(E, {})
      requires s in valid && s.IsTristate()
      requires Changed(E, E1, s, val)
      modifies this
      ensures ok == (old(cache[s]).curr.tri == val || old(TristateWithinRange(s, val)))
      ensures ok == (|| old(cache[s]).curr.tri == val
                     || (old(cache[s]).visible > old(cache[s]).rev && E1.M(s).curr.tri == val))
      ensures !ok ==> user == old(user) && cache == old(cache) && valid == old(valid)
      ensures ok ==> Valid() && InEnv(E1) && user == old(user)[s := User(true, old(user)[s].val, val)]
      ensures ok ==> (Coherent(E1, {}) <==> Reachable(old(cache[s]), val))
      ensures ok && Reachable(old(cache[s]), val) ==> E1.M(s).curr.tri == val
    {
      var oldval := cache[s].curr.tri;
      SetMeaning(E, E1, s, val);
      SolutionNeverMod(E.c, E.user, E.modulesVal, E.M);
      if oldval != val && !TristateWithinRange(s, val) {
        return false;
      }
      user := user[s := User(true, user[s].val, val)];
      if oldval != val {
        ClearAllValid(E, E1);
      } else if Reachable(cache[s], val) {
        forall t: Symbol | t in valid
          ensures Matches(t, E1.M(t))
        {
          SetSameMeaning(E, E1, s, val, t);
        }
      }
      return true;
    }
  }

  /** The value of an untyped symbol is its name, whatever the user set. */
  lemma ConstantMeaning(E0: Env, E: Env, s: Symbol)
    requires Setting(E0) && Setting(E) && E0.c == E.c && s in E.c.symbols
    requires IsYMN(s) || s.typ == SymbolType.Other
    ensures !HasType(s) && E0.M(s).curr == E.M(s).curr
  {
    assert Equation(s);
  }

  /** E1 is the setting after s got the user value val; modules_val is held fixed. */
  ghost predicate Changed(E: Env, E1: Env, s: Symbol, val: Tristate) {
    && Setting(E1) && Users(E.c, E.user) && s in E.user
    && E1.c == E.c && E1.rank == E.rank && E1.modulesVal == E.modulesVal
    && E1.user == E.user[s := User(true, E.user[s].val, val)]
  }

  /** The value val can be produced for a symbol with these bounds. */
  predicate Reachable(x: Cached, val: Tristate) {
    x.visible == NO || val <= x.visible || val <= x.rev
  }

  lemma {:induction false} PathRank(c: Config, rank: Symbol -> nat, s: Symbol, t: Symbol, path: seq<Symbol>)
    requires WellFormed(c) && Ranked(c, rank) && s in c.symbols && Reaches(c, s, t, path)
    ensures rank(t) <= rank(s)
    decreases |path|
  {
    if |path| > 1 {
      assert Reads(c, path[0], path[1]);
      assert Reaches(c, path[1], t, path[1..]) by {
        var tail := path[1..];
        forall i | 0 <= i < |tail| - 1
          ensures Reads(c, tail[i], tail[i + 1])
        {
          assert Reads(c, path[i + 1], path[i + 2]);
        }
      }
      PathRank(c, rank, path[1], t, path[1..]);
    }
  }

  /** What s reads does not depend on s, so only the user value changes its meaning. */
  lemma ReadsUnchanged(E: Env, E1: Env, s: Symbol, val: Tristate)
    requires Setting(E) && Changed(E, E1, s, val)
    ensures forall r: Symbol :: Reads(E.c, s, r) ==> Current(E.M)(r) == Current(E1.M)(r)
  {
    forall r: Symbol | Reads(E.c, s, r)
      ensures Current(E.M)(r) == Current(E1.M)(r)
    {
      assert !DependsOn(E.c, r, s) by {
        if DependsOn(E.c, r, s) {
          var path: seq<Symbol> :| Reaches(E.c, r, s, path);
          PathRank(E.c, E.rank, r, s, path);
        }
      }
      UnaffectedKeepsMeaning(E.c, E.user, E1.user, E.modulesVal, E.M, E1.M, E.rank, r, s);
    }
  }

  /** The new meaning of s, and when it is val. */
  lemma SetMeaning(E: Env, E1: Env, s: Symbol, val: Tristate)
    requires Setting(E) && Changed(E, E1, s, val) && s.IsTristate()
    ensures var x, x' := E.M(s), E1.M(s);
            && x'.visible == x.visible && x'.rev == x.rev
            && (x.visible == NO ==> x' == x)
            && (x.visible != NO ==> x'.curr.tri == AsType(s, E.modulesVal, Ap(Or, Ap(And, val, x.visible), x.rev)))
            && (x.visible != NO && x'.curr.tri == x.curr.tri ==> x' == x)
            && (x.curr.tri == val ==> (x'.curr.tri == val <==> Reachable(x, val)))
  {
    ReadsUnchanged(E, E1, s, val);
    assert Equation(s);
    MeaningFrame(E.c, E1.user[s], E.modulesVal, s, Current(E.M), Current(E1.M));
    MeaningFrame(E.c, E.user[s], E.modulesVal, s, Current(E.M), Current(E1.M));
  }

  /** Re-setting the current value keeps every meaning when the value is reachable. */
  lemma {:induction false} SetSameMeaning(E: Env, E1: Env, s: Symbol, val: Tristate, t: Symbol)
    requires Setting(E) && Changed(E, E1, s, val) && s.IsTristate()
    requires E.M(s).curr.tri == val && Reachable(E.M(s), val) && t in E.c.symbols
    ensures E1.M(t) == E.M(t)
    decreases E.rank(t)
  {
    if t == s {
      SetMeaning(E, E1, s, val);
    } else {
      forall r: Symbol | Reads(E.c, t, r)
        ensures Current(E.M)(r) == Current(E1.M)(r)
      {
        SetSameMeaning(E, E1, s, val, r);
      }
      assert Equation(t);
      MeaningFrame(E.c, E.user[t], E.modulesVal, t, Current(E.M), Current(E1.M));
    }
  }

  /** After an accepted change the symbol has exactly the value, and nothing unrelated moved. */
  lemma SetThenRecalculate(E: Env, E1: Env, s: Symbol, val: Tristate, t: Symbol)
    requires Setting(E) && Changed(E, E1, s, val) && s.IsTristate()
    requires t in E.c.symbols && !DependsOn(E.c, t, s)
    ensures E1.M(t) == E.M(t)
    ensures (&& E.M(s).rev <= val <= E.M(s).visible && E.M(s).visible != NO
             && !(GetType(s, E.modulesVal) == Boolean && val == MOD)) ==> E1.M(s).curr.tri == val
  {
    SetMeaning(E, E1, s, val);
    UnaffectedKeepsMeaning(E.c, E.user, E1.user, E.modulesVal, E.M, E1.M, E.rank, t, s);
  }
}
