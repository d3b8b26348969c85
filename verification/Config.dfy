// The static part of a choice-free symbol graph (struct symbol, struct property) and
// the meaning of its symbols: the equations that sym_calc_value evaluates.
module Config {
  import opened Wrappers
  import opened Expr
  import opened Cancel
  import opened Submenu

  /** struct property: the conditions and operands sym_calc_value and sym_check_deps read. */
  datatype Property =
    | Prompt(visible: Dep)
    | Default(visible: Dep, value: Expr)
    | Range(visible: Dep, lo: Symbol, hi: Symbol)
    | Select(visible: Dep)
    | Other(visible: Dep)

  /** strtol and sprintf belong to the C library and are parameters of the model. */
  datatype Config = Config(symbols: set<Symbol>,
                           props: map<Symbol, seq<Property>>,
                           revDep: map<Symbol, Dep>,
                           modules: Symbol,
                           auto: set<Symbol>,
                           strtol: (string, nat) -> int,
                           format: (SymbolType, int) -> string)

  /** sym->def[S_DEF_USER] and its SYMBOL_DEF_USER flag */
  datatype User = User(has: bool, val: string, tri: Tristate)

  /** What sym_calc_value stores: curr, visible, rev_dep.tri and SYMBOL_WRITE. */
  datatype Cached = Cached(curr: Value, visible: Tristate, rev: Tristate, write: bool)

  type Solution = Symbol -> Cached

  function Current(M: Solution): Valuation {
    (s: Symbol) => M(s).curr
  }

  predicate HasType(s: Symbol) {
    s.IsTristate() || s.typ == Int || s.typ == Hex || s.typ == Str
  }

  /** sym_get_type, choices left aside: without modules a tristate is a boolean. */
  function GetType(s: Symbol, modulesVal: Tristate): SymbolType {
    if s.typ == Tri && modulesVal == NO then Boolean else s.typ
  }

  // ---------------------------------------------------------- the equations

  function PromptVisibility(ps: seq<Property>, v: Valuation): Tristate {
    if ps == [] then NO
    else
      var p := ps[|ps| - 1];
      var rest := PromptVisibility(ps[..|ps| - 1], v);
      if p.Prompt? then Ap(Or, rest, EvalDep(p.visible, v)) else rest
  }

  /** The m-to-y promotion of sym_calc_visibility. */
  function Promote(s: Symbol, modulesVal: Tristate, t: Tristate): Tristate {
    if t == MOD && (s.typ != Tri || modulesVal == NO) then YES else t
  }

  /** "newval.tri == mod && sym_get_type(sym) == S_BOOLEAN": a boolean cannot be m. */
  function AsType(s: Symbol, modulesVal: Tristate, t: Tristate): Tristate {
    if t == MOD && GetType(s, modulesVal) == Boolean then YES else t
  }

  function Visibility(c: Config, s: Symbol, modulesVal: Tristate, v: Valuation): Tristate
    requires s in c.props
  {
    Promote(s, modulesVal, PromptVisibility(c.props[s], v))
  }

  function SelectFloor(c: Config, s: Symbol, modulesVal: Tristate, v: Valuation): Tristate
    requires s in c.revDep
  {
    AsType(s, modulesVal, if c.revDep[s].None? then NO else EvalDep(c.revDep[s], v))
  }

  predicate IsKind(p: Property, default: bool) {
    if default then p.Default? else p.Range?
  }

  /** The first default (or range) property whose condition is not n. */
  function FirstVisible(ps: seq<Property>, default: bool, v: Valuation): (r: Option<Property>)
    ensures r.Some? ==> IsKind(r.value, default)
  {
    if ps == [] then None
    else if IsKind(ps[0], default) && EvalDep(ps[0].visible, v) != NO then Some(ps[0])
    else FirstVisible(ps[1..], default, v)
  }

  function Base(s: Symbol, base: nat): nat {
    if s.typ == Int then 10 else if s.typ == Hex then 16 else base
  }

  /** sym_validate_range on the value val */
  function InRangeValue(c: Config, s: Symbol, val: string, v: Valuation): string
    requires s in c.props
  {
    var r := FirstVisible(c.props[s], false, v);
    if (s.typ != Int && s.typ != Hex) || r.None? then val
    else
      var base := Base(s, 0);
      var n := (c.strtol)(val, base);
      var lo := (c.strtol)(v(r.value.lo).val, Base(r.value.lo, base));
      var hi := (c.strtol)(v(r.value.hi).val, Base(r.value.hi, base));
      if n < lo then (c.format)(s.typ, lo)
      else if n > hi then (c.format)(s.typ, hi)
      else val
  }

  /** The value of the first visible default, limited by its condition. */
  function DefaultTri(c: Config, s: Symbol, v: Valuation): Tristate
    requires s in c.props
  {
    var d := FirstVisible(c.props[s], true, v);
    if d.None? then NO else Ap(And, Eval(d.value.value, v), EvalDep(d.value.visible, v))
  }

  /** The tristate value of s, from its user value or else its default, raised to the floor. */
  function TristateOf(c: Config, user: User, modulesVal: Tristate, s: Symbol, v: Valuation): Tristate
    requires s in c.props && s in c.revDep
  {
    var visible := Visibility(c, s, modulesVal, v);
    var t := if visible != NO && user.has then Ap(And, user.tri, visible) else DefaultTri(c, s, v);
    AsType(s, modulesVal, Ap(Or, t, SelectFloor(c, s, modulesVal, v)))
  }

  function TextOf(c: Config, user: User, modulesVal: Tristate, s: Symbol, v: Valuation): string
    requires s in c.props
  {
    var d := FirstVisible(c.props[s], true, v);
    if Visibility(c, s, modulesVal, v) != NO && user.has then user.val
    else if d.Some? && d.value.value.Sym? then v(d.value.value.sym).val
    else ""
  }

  predicate Writes(c: Config, user: User, modulesVal: Tristate, s: Symbol, v: Valuation)
    requires s in c.props && s in c.revDep
  {
    var d := FirstVisible(c.props[s], true, v);
    && s !in c.auto
    && (|| Visibility(c, s, modulesVal, v) != NO
        || (s.IsTristate() && SelectFloor(c, s, modulesVal, v) != NO)
        || (d.Some? && (s.IsTristate() || d.value.value.Sym?)))
  }

  /** The meaning of s, given the values of the symbols it reads. */
  function Meaning(c: Config, user: User, modulesVal: Tristate, s: Symbol, v: Valuation): Cached
    requires s in c.props && s in c.revDep
  {
    if s == SYM_YES then Cached(Value("y", YES), NO, NO, false)
    else if s == SYM_MOD then Cached(Value("m", MOD), NO, NO, false)
    else if s == SYM_NO then Cached(Value("n", NO), NO, NO, false)
    else if !HasType(s) then Cached(Value(s.name, NO), NO, NO, false)
    else
      var curr := if s.IsTristate() then Value("n", TristateOf(c, user, modulesVal, s, v))
                  else Value(InRangeValue(c, s, TextOf(c, user, modulesVal, s, v), v), NO);
      Cached(curr, Visibility(c, s, modulesVal, v), SelectFloor(c, s, modulesVal, v),
             Writes(c, user, modulesVal, s, v))
  }

  // ------------------------------------------------------------ dependencies

  predicate ReadsDep(d: Dep, t: Symbol) {
    d.Some? && Contains(d.value, t)
  }

  /** The evaluation of a property of s may call sym_calc_value(t). */
  predicate PropReads(p: Property, t: Symbol) {
    match p
    case Prompt(d) => ReadsDep(d, t)
    case Default(d, e) => ReadsDep(d, t) || Contains(e, t)
    case Range(d, lo, hi) => ReadsDep(d, t) || lo == t || hi == t
    case _ => false
  }

  /** sym_calc_value(s) may call sym_calc_value(t). */
  predicate Reads(c: Config, s: Symbol, t: Symbol) {
    && HasType(s) && s in c.props && s in c.revDep
    && (ReadsDep(c.revDep[s], t) || exists p <- c.props[s] :: PropReads(p, t))
  }

  ghost predicate WellFormed(c: Config) {
    && c.symbols == c.props.Keys == c.revDep.Keys
    && {SYM_YES, SYM_MOD, SYM_NO} <= c.symbols
    && c.modules in c.symbols
    && (forall s: Symbol, t: Symbol :: s in c.symbols && Reads(c, s, t) ==> t in c.symbols)
  }

  /** rank decreases along every read: the graph is acyclic. */
  ghost predicate Ranked(c: Config, rank: Symbol -> nat) {
    forall s: Symbol, t: Symbol :: s in c.symbols && Reads(c, s, t) ==> rank(t) < rank(s)
  }

  ghost predicate Users(c: Config, user: map<Symbol, User>) {
    user.Keys == c.symbols
  }

  /** Always true; it marks the symbols whose equation a proof asks for. */
  ghost predicate Equation(s: Symbol) {
    true
  }

  /** What stands for the value of a symbol that the configuration does not have */
  function Absent(s: Symbol): Cached {
    Cached(Value(s.name, NO), NO, NO, false)
  }

  /** M satisfies the equation of every symbol. */
  ghost predicate Solves(c: Config, user: map<Symbol, User>, modulesVal: Tristate, M: Solution)
    requires WellFormed(c) && Users(c, user)
  {
    forall s: Symbol {:trigger Equation(s)} ::
      Equation(s) ==>
        M(s) == if s in c.symbols then Meaning(c, user[s], modulesVal, s, Current(M)) else Absent(s)
  }

  // The meaning of a symbol depends only on the symbols it reads.

  lemma {:induction false} EvalFrame(e: Expr, v: Valuation, w: Valuation)
    requires forall t: Symbol :: Contains(e, t) ==> v(t) == w(t)
    ensures Eval(e, v) == Eval(e, w)
  {
    match e
    case Sym(s) => assert Contains(e, s);
    case Comp(_, l, r) => assert Contains(e, l) && Contains(e, r);
    case Not(a) =>
      assert forall t: Symbol :: Contains(a, t) ==> Contains(e, t);
      EvalFrame(a, v, w);
    case Bin(_, l, r) =>
      assert forall t: Symbol :: Contains(l, t) || Contains(r, t) ==> Contains(e, t);
      EvalFrame(l, v, w);
      EvalFrame(r, v, w);
  }

  ghost predicate AgreeOnProps(ps: seq<Property>, v: Valuation, w: Valuation) {
    forall p: Property, t: Symbol :: p in ps && PropReads(p, t) ==> v(t) == w(t)
  }

  lemma DepFrame(p: Property, v: Valuation, w: Valuation)
    requires AgreeOnProps([p], v, w)
    ensures p.Prompt? || p.Default? || p.Range? ==> EvalDep(p.visible, v) == EvalDep(p.visible, w)
    ensures p.Default? ==> Eval(p.value, v) == Eval(p.value, w)
    ensures p.Default? && p.value.Sym? ==> v(p.value.sym) == w(p.value.sym)
    ensures p.Range? ==> v(p.lo) == w(p.lo) && v(p.hi) == w(p.hi)
  {
    assert forall t: Symbol :: PropReads(p, t) ==> p in [p] && v(t) == w(t);
    if (p.Prompt? || p.Default? || p.Range?) && p.visible.Some? {
      assert forall t: Symbol :: Contains(p.visible.value, t) ==> PropReads(p, t);
      EvalFrame(p.visible.value, v, w);
    }
    if p.Default? {
      assert forall t: Symbol :: Contains(p.value, t) ==> PropReads(p, t);
      EvalFrame(p.value, v, w);
      if p.value.Sym? {
        assert Contains(p.value, p.value.sym);
      }
    }
    if p.Range? {
      assert PropReads(p, p.lo) && PropReads(p, p.hi);
    }
  }

  lemma {:induction false} PromptFrame(ps: seq<Property>, v: Valuation, w: Valuation)
    requires AgreeOnProps(ps, v, w)
    ensures PromptVisibility(ps, v) == PromptVisibility(ps, w)
  {
    if ps != [] {
      DepFrame(ps[|ps| - 1], v, w);
      PromptFrame(ps[..|ps| - 1], v, w);
    }
  }

  lemma {:induction false} FirstVisibleFrame(ps: seq<Property>, default: bool, v: Valuation, w: Valuation)
    requires AgreeOnProps(ps, v, w)
    ensures FirstVisible(ps, default, v) == FirstVisible(ps, default, w)
    ensures FirstVisible(ps, default, v).Some? ==> FirstVisible(ps, default, v).value in ps
  {
    if ps != [] {
      DepFrame(ps[0], v, w);
      FirstVisibleFrame(ps[1..], default, v, w);
    }
  }

  lemma MeaningFrame(c: Config, user: User, modulesVal: Tristate, s: Symbol, v: Valuation, w: Valuation)
    requires WellFormed(c) && s in c.symbols
    requires forall t: Symbol :: Reads(c, s, t) ==> v(t) == w(t)
    ensures Meaning(c, user, modulesVal, s, v) == Meaning(c, user, modulesVal, s, w)
  {
    if HasType(s) {
      var ps := c.props[s];
      forall p: Property, t: Symbol | p in ps && PropReads(p, t)
        ensures v(t) == w(t)
      {
        assert Reads(c, s, t);
      }
      PromptFrame(ps, v, w);
      if c.revDep[s].Some? {
        assert forall t: Symbol :: Contains(c.revDep[s].value, t) ==> Reads(c, s, t);
        EvalFrame(c.revDep[s].value, v, w);
      }
      FirstVisibleFrame(ps, true, v, w);
      FirstVisibleFrame(ps, false, v, w);
      var d, r := FirstVisible(ps, true, v), FirstVisible(ps, false, v);
      if d.Some? {
        DepFrame(d.value, v, w);
      }
      if r.Some? {
        DepFrame(r.value, v, w);
      }
    }
  }

  // ------------------------------------------- existence and uniqueness

  /** The plain recursive meaning, well founded on an acyclic graph. */
  ghost function Recursive(c: Config, user: map<Symbol, User>, modulesVal: Tristate,
                           rank: Symbol -> nat, s: Symbol): Cached
    requires WellFormed(c) && Users(c, user) && s in c.symbols
    decreases rank(s)
  {
    Meaning(c, user[s], modulesVal, s,
            (t: Symbol) => if t in c.symbols && rank(t) < rank(s)
                           then Recursive(c, user, modulesVal, rank, t).curr else Value("", NO))
  }

  ghost function Total(c: Config, user: map<Symbol, User>, modulesVal: Tristate, rank: Symbol -> nat): Solution
    requires WellFormed(c) && Users(c, user)
  {
    (s: Symbol) => if s in c.symbols then Recursive(c, user, modulesVal, rank, s) else Absent(s)
  }

  /** On an acyclic graph the recursive meaning satisfies every equation. */
  lemma RecursiveSolves(c: Config, user: map<Symbol, User>, modulesVal: Tristate, rank: Symbol -> nat)
    requires WellFormed(c) && Users(c, user) && Ranked(c, rank)
    ensures Solves(c, user, modulesVal, Total(c, user, modulesVal, rank))
  {
    var M := Total(c, user, modulesVal, rank);
    forall s: Symbol | Equation(s) && s in c.symbols
      ensures M(s) == Meaning(c, user[s], modulesVal, s, Current(M))
    {
      var v := (t: Symbol) => if t in c.symbols && rank(t) < rank(s)
                              then Recursive(c, user, modulesVal, rank, t).curr else Value("", NO);
      MeaningFrame(c, user[s], modulesVal, s, v, Current(M));
    }
  }

  /** s is changed or reads, directly or not, a changed symbol. */
  ghost predicate Reaches(c: Config, s: Symbol, t: Symbol, path: seq<Symbol>) {
    && |path| >= 1 && path[0] == s && path[|path| - 1] == t
    && forall i :: 0 <= i < |path| - 1 ==> Reads(c, path[i], path[i + 1])
  }

  ghost predicate DependsOn(c: Config, s: Symbol, t: Symbol) {
    exists path: seq<Symbol> :: Reaches(c, s, t, path)
  }

  lemma ReadsThenDepends(c: Config, s: Symbol, r: Symbol, t: Symbol)
    requires Reads(c, s, r) && DependsOn(c, r, t)
    ensures DependsOn(c, s, t)
  {
    var path: seq<Symbol> :| Reaches(c, r, t, path);
    assert Reaches(c, s, t, [s] + path);
  }

  /** A symbol that does not depend on the changed user value keeps its meaning. */
  lemma {:induction false} UnaffectedKeepsMeaning(c: Config, user: map<Symbol, User>, user': map<Symbol, User>,
                                 modulesVal: Tristate, M: Solution, M': Solution,
                                 rank: Symbol -> nat, s: Symbol, t: Symbol)
    requires WellFormed(c) && Users(c, user) && Users(c, user') && Ranked(c, rank)
    requires Solves(c, user, modulesVal, M) && Solves(c, user', modulesVal, M')
    requires forall x: Symbol :: x in c.symbols && x != t ==> user[x] == user'[x]
    requires s in c.symbols && !DependsOn(c, s, t)
    ensures M(s) == M'(s)
    decreases rank(s)
  {
    assert s != t by {
      if s == t {
        assert Reaches(c, s, t, [s]);
      }
    }
    forall r: Symbol | Reads(c, s, r)
      ensures Current(M)(r) == Current(M')(r)
    {
      assert !DependsOn(c, r, t) by {
        if DependsOn(c, r, t) {
          ReadsThenDepends(c, s, r, t);
        }
      }
      UnaffectedKeepsMeaning(c, user, user', modulesVal, M, M', rank, r, t);
    }
    assert Equation(s);
    MeaningFrame(c, user[s], modulesVal, s, Current(M), Current(M'));
  }

  /** Two solutions for the same user values are equal. */
  lemma {:induction false} SolutionUnique(c: Config, user: map<Symbol, User>, modulesVal: Tristate,
                         M: Solution, M': Solution, rank: Symbol -> nat, s: Symbol)
    requires WellFormed(c) && Users(c, user) && Ranked(c, rank)
    requires Solves(c, user, modulesVal, M) && Solves(c, user, modulesVal, M')
    requires s in c.symbols
    ensures M(s) == M'(s)
    decreases rank(s)
  {
    forall r: Symbol | Reads(c, s, r)
      ensures Current(M)(r) == Current(M')(r)
    {
      SolutionUnique(c, user, modulesVal, M, M', rank, r);
    }
    assert Equation(s);
    MeaningFrame(c, user[s], modulesVal, s, Current(M), Current(M'));
  }

  /** Equal meaning at t makes the two solutions equal everywhere. */
  lemma {:induction false} SameAtChange(c: Config, user: map<Symbol, User>, user': map<Symbol, User>,
                       modulesVal: Tristate, M: Solution, M': Solution,
                       rank: Symbol -> nat, s: Symbol, t: Symbol)
    requires WellFormed(c) && Users(c, user) && Users(c, user') && Ranked(c, rank)
    requires Solves(c, user, modulesVal, M) && Solves(c, user', modulesVal, M')
    requires forall x: Symbol :: x in c.symbols && x != t ==> user[x] == user'[x]
    requires s in c.symbols && t in c.symbols
    requires forall v: Valuation :: (forall r: Symbol :: Reads(c, t, r) ==> v(r) == Current(M)(r)) ==>
               Meaning(c, user[t], modulesVal, t, v) == Meaning(c, user'[t], modulesVal, t, v)
    ensures M(s) == M'(s)
    decreases rank(s)
  {
    forall r: Symbol | Reads(c, s, r)
      ensures Current(M)(r) == Current(M')(r)
    {
      SameAtChange(c, user, user', modulesVal, M, M', rank, r, t);
    }
    assert Equation(s);
    MeaningFrame(c, user[s], modulesVal, s, Current(M), Current(M'));
  }

  // --------------------------------------------------- what every solution keeps

  /** The values are as the simplifier needs them: the fixed constants hold their own values, other
      constants their names, and no boolean symbol is m. */
  lemma SolutionWellTyped(c: Config, user: map<Symbol, User>, modulesVal: Tristate, M: Solution)
    requires WellFormed(c) && Users(c, user) && Solves(c, user, modulesVal, M)
    ensures WellTyped(Current(M))
  {
    var v := Current(M);
    assert Equation(SYM_YES) && Equation(SYM_MOD) && Equation(SYM_NO);
    forall s: Symbol | s.typ == Boolean
      ensures v(s).tri != MOD
    {
      assert Equation(s);
    }
    forall s: Symbol | s.isConst
      ensures StringValue(v, s) == s.name
    {
      assert Equation(s);
    }
  }

  /** What counts as boolean is never m, nor is its visibility or its select floor; without modules
      no symbol but the constant m is. */
  lemma SolutionNeverMod(c: Config, user: map<Symbol, User>, modulesVal: Tristate, M: Solution)
    requires WellFormed(c) && Users(c, user) && Solves(c, user, modulesVal, M)
    ensures forall s: Symbol :: GetType(s, modulesVal) == Boolean ==>
              M(s).curr.tri != MOD && M(s).visible != MOD && M(s).rev != MOD
    ensures modulesVal == NO ==> forall s: Symbol :: s != SYM_MOD ==> M(s).curr.tri != MOD
  {
    forall s: Symbol | GetType(s, modulesVal) == Boolean || (modulesVal == NO && s != SYM_MOD)
      ensures M(s).curr.tri != MOD
      ensures GetType(s, modulesVal) == Boolean ==> M(s).visible != MOD && M(s).rev != MOD
    {
      assert Equation(s);
    }
  }

  /** A select is a lower bound, whatever the prompts, defaults and user values say; and without a
      user value or default the bound is the value. */
  lemma SelectHolds(c: Config, user: map<Symbol, User>, modulesVal: Tristate, M: Solution, s: Symbol)
    requires WellFormed(c) && Users(c, user) && Solves(c, user, modulesVal, M)
    requires s in c.symbols && s.IsTristate()
    ensures M(s).rev <= M(s).curr.tri
    ensures c.revDep[s].Some? ==> EvalDep(c.revDep[s], Current(M)) <= M(s).curr.tri
    ensures !user[s].has && FirstVisible(c.props[s], true, Current(M)).None? ==> M(s).curr.tri == M(s).rev
    ensures user[s].has && M(s).visible != NO ==>
              M(s).curr.tri <= Ap(Or, M(s).visible, M(s).rev)
              || (M(s).curr.tri == YES && GetType(s, modulesVal) == Boolean)
  {
    assert Equation(s);
  }

  /** A number stays within its range, as long as the range is not empty and its limits survive
      being printed and read again. */
  lemma RangeHolds(c: Config, user: map<Symbol, User>, modulesVal: Tristate, M: Solution, s: Symbol)
    requires WellFormed(c) && Users(c, user) && Solves(c, user, modulesVal, M)
    requires s in c.symbols && (s.typ == Int || s.typ == Hex)
    requires FirstVisible(c.props[s], false, Current(M)).Some?
    ensures var r := FirstVisible(c.props[s], false, Current(M)).value;
            var base := Base(s, 0);
            var lo := (c.strtol)(M(r.lo).curr.val, Base(r.lo, base));
            var hi := (c.strtol)(M(r.hi).curr.val, Base(r.hi, base));
            lo <= hi && (c.strtol)((c.format)(s.typ, lo), base) == lo && (c.strtol)((c.format)(s.typ, hi), base) == hi
            ==> lo <= (c.strtol)(M(s).curr.val, base) <= hi
  {
    assert Equation(s);
  }
}
