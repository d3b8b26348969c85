// Which user value, default, range and prompt decides what a symbol is: by position in the list
// of its properties, for every solution of the equations.
module Values {
  import opened Wrappers
  import opened Expr
  import opened Config

  /** The i-th property is the one that counts: it is of the kind, its condition is not n, and every
      earlier one of the kind is switched off. */
  ghost predicate Decides(ps: seq<Property>, default: bool, v: Valuation, i: nat) {
    && i < |ps| && IsKind(ps[i], default) && EvalDep(ps[i].visible, v) != NO
    && forall j :: 0 <= j < i && IsKind(ps[j], default) ==> EvalDep(ps[j].visible, v) == NO
  }

  ghost predicate AllOff(ps: seq<Property>, default: bool, v: Valuation) {
    forall j :: 0 <= j < |ps| && IsKind(ps[j], default) ==> EvalDep(ps[j].visible, v) == NO
  }

  /** sym_get_default_prop and sym_get_range_prop find the first property that is switched on. */
  lemma {:induction false} FirstVisibleExact(ps: seq<Property>, default: bool, v: Valuation)
    ensures FirstVisible(ps, default, v).None? <==> AllOff(ps, default, v)
    ensures forall i: nat :: Decides(ps, default, v, i) ==> FirstVisible(ps, default, v) == Some(ps[i])
    ensures FirstVisible(ps, default, v).Some? ==>
              exists i: nat :: Decides(ps, default, v, i) && FirstVisible(ps, default, v) == Some(ps[i])
  {
    if ps != [] {
      var rest := ps[1..];
      FirstVisibleExact(rest, default, v);
      if IsKind(ps[0], default) && EvalDep(ps[0].visible, v) != NO {
        assert Decides(ps, default, v, 0);
      } else {
        AllOffCons(ps, default, v);
        forall i: nat
          ensures Decides(ps, default, v, i) <==> i > 0 && Decides(rest, default, v, i - 1)
        {
          DecidesCons(ps, default, v, i);
        }
        if FirstVisible(rest, default, v).Some? {
          var i: nat :| Decides(rest, default, v, i) && FirstVisible(rest, default, v) == Some(rest[i]);
          assert Decides(ps, default, v, i + 1);
        }
      }
    }
  }

  lemma AllOffCons(ps: seq<Property>, default: bool, v: Valuation)
    requires ps != [] && (IsKind(ps[0], default) ==> EvalDep(ps[0].visible, v) == NO)
    ensures AllOff(ps, default, v) <==> AllOff(ps[1..], default, v)
  {
    var rest := ps[1..];
    assert forall j :: 0 < j < |ps| ==> ps[j] == rest[j - 1];
  }

  lemma DecidesCons(ps: seq<Property>, default: bool, v: Valuation, i: nat)
    requires ps != [] && (IsKind(ps[0], default) ==> EvalDep(ps[0].visible, v) == NO)
    ensures Decides(ps, default, v, i) <==> i > 0 && Decides(ps[1..], default, v, i - 1)
  {
    var rest := ps[1..];
    assert forall j :: 0 < j < |ps| ==> ps[j] == rest[j - 1];
    if i > 0 && Decides(rest, default, v, i - 1) {
      forall j | 0 <= j < i && IsKind(ps[j], default)
        ensures EvalDep(ps[j].visible, v) == NO
      {
        assert j > 0 ==> ps[j] == rest[j - 1];
      }
    }
    if Decides(ps, default, v, i) && i > 0 {
      forall j | 0 <= j < i - 1 && IsKind(rest[j], default)
        ensures EvalDep(rest[j].visible, v) == NO
      {
        assert rest[j] == ps[j + 1];
      }
    }
  }

  /** The visibility is the maximum over the prompts. */
  lemma {:induction false} PromptVisibilityExact(ps: seq<Property>, v: Valuation, t: Tristate)
    requires t != NO
    ensures PromptVisibility(ps, v) >= t <==>
            exists i :: 0 <= i < |ps| && ps[i].Prompt? && EvalDep(ps[i].visible, v) >= t
  {
    if ps != [] {
      var n := |ps| - 1;
      var rest := ps[..n];
      PromptVisibilityExact(rest, v, t);
      assert forall i :: 0 <= i < n ==> rest[i] == ps[i];
    }
  }

  // ---------------------------------------------------- what a solution makes of it

  ghost predicate Means(c: Config, user: map<Symbol, User>, modulesVal: Tristate, M: Solution, s: Symbol) {
    WellFormed(c) && Users(c, user) && Solves(c, user, modulesVal, M) && s in c.symbols && HasType(s)
  }

  /** m counts as y for what is not a tristate, and for everything without modules. */
  function Rounded(s: Symbol, modulesVal: Tristate, t: Tristate): Tristate {
    if t == MOD && (s.typ == Boolean || modulesVal == NO) then YES else t
  }

  function Raised(s: Symbol, modulesVal: Tristate, t: Tristate, floor: Tristate): Tristate {
    Rounded(s, modulesVal, if t < floor then floor else t)
  }

  function Limited(t: Tristate, limit: Tristate): Tristate {
    if limit < t then limit else t
  }

  ghost predicate ShowsYes(d: Dep, s: Symbol, modulesVal: Tristate, M: Solution) {
    EvalDep(d, Current(M)) == YES || (EvalDep(d, Current(M)) == MOD && (s.typ != Tri || modulesVal == NO))
  }

  /** A symbol is visible exactly if one of its prompts is, and as y if one is y or counts so. */
  lemma VisibleExactly(c: Config, user: map<Symbol, User>, modulesVal: Tristate, M: Solution, s: Symbol)
    requires Means(c, user, modulesVal, M, s)
    ensures M(s).visible != NO <==> exists p <- c.props[s] :: p.Prompt? && EvalDep(p.visible, Current(M)) != NO
    ensures M(s).visible == YES <==> exists p <- c.props[s] :: p.Prompt? && ShowsYes(p.visible, s, modulesVal, M)
  {
    var ps, v := c.props[s], Current(M);
    assert Equation(s);
    PromptVisibilityExact(ps, v, MOD);
    PromptVisibilityExact(ps, v, YES);
    assert forall i :: 0 <= i < |ps| ==> ps[i] in ps;
  }

  /** The user's value decides wherever the symbol is visible: limited by the visibility, raised to
      the select floor. */
  lemma TristateByUser(c: Config, user: map<Symbol, User>, modulesVal: Tristate, M: Solution, s: Symbol)
    requires Means(c, user, modulesVal, M, s) && s.IsTristate()
    requires user[s].has && M(s).visible != NO
    ensures M(s).curr.tri == Raised(s, modulesVal, Limited(user[s].tri, M(s).visible), M(s).rev)
  {
    assert Equation(s);
  }

  ghost predicate ByDefault(user: map<Symbol, User>, M: Solution, s: Symbol)
    requires s in user
  {
    user[s].has ==> M(s).visible == NO
  }

  /** Otherwise the first default whose condition is not n does, limited by that condition. */
  lemma TristateByDefault(c: Config, user: map<Symbol, User>, modulesVal: Tristate, M: Solution, s: Symbol, i: nat)
    requires Means(c, user, modulesVal, M, s) && s.IsTristate() && ByDefault(user, M, s)
    requires Decides(c.props[s], true, Current(M), i)
    ensures var d, v := c.props[s][i], Current(M);
            M(s).curr.tri == Raised(s, modulesVal, Limited(Eval(d.value, v), EvalDep(d.visible, v)), M(s).rev)
  {
    assert Equation(s);
    FirstVisibleExact(c.props[s], true, Current(M));
  }

  /** And without such a default the floor is the value. */
  lemma TristateByNothing(c: Config, user: map<Symbol, User>, modulesVal: Tristate, M: Solution, s: Symbol)
    requires Means(c, user, modulesVal, M, s) && s.IsTristate() && ByDefault(user, M, s)
    requires AllOff(c.props[s], true, Current(M))
    ensures M(s).curr.tri == M(s).rev
  {
    assert Equation(s);
    FirstVisibleExact(c.props[s], true, Current(M));
  }

  /** The text of a string or number before its range is looked at: the user's where it is visible,
      else that of the symbol named by the first default that is switched on, else none. */
  ghost predicate HasText(c: Config, user: map<Symbol, User>, M: Solution, s: Symbol, text: string)
    requires s in user && s in c.props
  {
    && (user[s].has && M(s).visible != NO ==> text == user[s].val)
    && (ByDefault(user, M, s) ==>
          && (forall i: nat :: Decides(c.props[s], true, Current(M), i) ==>
                var e := c.props[s][i].value; text == if e.Sym? then M(e.sym).curr.val else "")
          && (AllOff(c.props[s], true, Current(M)) ==> text == ""))
  }

  /** A string has this text, and so has a number of which no range is switched on. */
  lemma TextExactly(c: Config, user: map<Symbol, User>, modulesVal: Tristate, M: Solution, s: Symbol)
    requires Means(c, user, modulesVal, M, s) && !s.IsTristate()
    requires s.typ == Str || AllOff(c.props[s], false, Current(M))
    ensures HasText(c, user, M, s, M(s).curr.val)
  {
    assert Equation(s);
    FirstVisibleExact(c.props[s], true, Current(M));
    FirstVisibleExact(c.props[s], false, Current(M));
  }

  function Bound(c: Config, M: Solution, limit: Symbol, base: nat): int {
    (c.strtol)(M(limit).curr.val, Base(limit, base))
  }

  /** The first range that is switched on decides about a number: its text stands if it is inside, and
      is replaced by the limit that it violates otherwise. */
  lemma NumberExactly(c: Config, user: map<Symbol, User>, modulesVal: Tristate, M: Solution, s: Symbol, k: nat)
    requires Means(c, user, modulesVal, M, s) && (s.typ == Int || s.typ == Hex)
    requires Decides(c.props[s], false, Current(M), k)
    ensures var r, base := c.props[s][k], if s.typ == Int then 10 else 16;
            var lo, hi := Bound(c, M, r.lo, base), Bound(c, M, r.hi, base);
            exists text: string :: HasText(c, user, M, s, text) &&
              var n := (c.strtol)(text, base);
              M(s).curr.val == if n < lo then (c.format)(s.typ, lo) else if n > hi then (c.format)(s.typ, hi) else text
  {
    assert Equation(s);
    var v := Current(M);
    FirstVisibleExact(c.props[s], true, v);
    FirstVisibleExact(c.props[s], false, v);
    assert HasText(c, user, M, s, TextOf(c, user[s], modulesVal, s, v));
  }

  // ------------------------------------------------------------- what is written

  ghost predicate HasDefault(c: Config, M: Solution, s: Symbol)
    requires s in c.props
  {
    exists i: nat :: Decides(c.props[s], true, Current(M), i) && (s.IsTristate() || c.props[s][i].value.Sym?)
  }

  /** SYMBOL_WRITE: a symbol goes to the file if it is visible, selected or has a default (a text only
      if it is that of a symbol), unless it is automatic. */
  lemma WrittenExactly(c: Config, user: map<Symbol, User>, modulesVal: Tristate, M: Solution, s: Symbol)
    requires Means(c, user, modulesVal, M, s)
    ensures M(s).write <==>
            && s !in c.auto
            && (M(s).visible != NO || (s.IsTristate() && M(s).rev != NO) || HasDefault(c, M, s))
  {
    assert Equation(s);
    FirstVisibleExact(c.props[s], true, Current(M));
  }

  /** Nothing is lost: what is not written is n or empty, but for a number raised into its range. */
  lemma UnwrittenIsEmpty(c: Config, user: map<Symbol, User>, modulesVal: Tristate, M: Solution, s: Symbol)
    requires Means(c, user, modulesVal, M, s) && !M(s).write && s !in c.auto
    ensures s.IsTristate() ==> M(s).curr.tri == NO
    ensures s.typ == Str || (!s.IsTristate() && AllOff(c.props[s], false, Current(M))) ==> M(s).curr.val == ""
  {
    assert Equation(s);
    FirstVisibleExact(c.props[s], false, Current(M));
  }
}
