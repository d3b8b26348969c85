// Joining two members of a chain: expr_join_or and expr_join_and.
module Join {
  import opened Wrappers
  import opened Expr
  import opened Cancel
  import opened NormalForm

  /** The symbol a term talks about; as second term, E_NOT is accepted only over a symbol. */
  function Subject(e: Expr, second: bool): Option<Symbol> {
    match e
    case Sym(s) => Some(s)
    case Comp(_, l, _) => Some(l)
    case Not(a) =>
      if a.Sym? then Some(a.sym)
      else if a.Comp? && !second then Some(a.lhs)
      else None
    case Bin(_, _, _) => None
  }

  /** The common subject of two terms, when it is boolean or tristate. */
  function CommonSubject(e1: Expr, e2: Expr): Option<Symbol> {
    var s1, s2 := Subject(e1, false), Subject(e2, true);
    if s1.Some? && s1 == s2 && s1.value.IsTristate() then s1 else None
  }

  /** e is lhs=s (eq) or lhs!=s (!eq) */
  predicate Tests(e: Expr, eq: bool, s: Symbol) {
    e.Comp? && e.eq == eq && e.rhs == s
  }

  predicate TestPair(e1: Expr, e2: Expr, eq: bool, a: Symbol, b: Symbol) {
    (Tests(e1, eq, a) && Tests(e2, eq, b)) || (Tests(e1, eq, b) && Tests(e2, eq, a))
  }

  predicate SymbolAndTest(e1: Expr, e2: Expr, eq: bool, s: Symbol) {
    (e1.Sym? && Tests(e2, eq, s)) || (e2.Sym? && Tests(e1, eq, s))
  }

  predicate Complementary(e1: Expr, e2: Expr) {
    (e1.Not? && e1.arg.Sym? && e2.Sym?) || (e2.Not? && e2.arg.Sym? && e1.Sym?)
  }

  /** expr_join_or: None is a NULL result, "no simplification found". */
  function JoinOr(e1: Expr, e2: Expr): Option<Expr> {
    if ExprEq(e1, e2) then Some(e1)
    else
      var subject := CommonSubject(e1, e2);
      if subject.None? then None
      else
        var s := subject.value;
        if s.typ == Tri && TestPair(e1, e2, true, SYM_YES, SYM_MOD) then Some(Comp(false, s, SYM_NO))
        else if s.typ == Tri && TestPair(e1, e2, true, SYM_YES, SYM_NO) then Some(Comp(false, s, SYM_MOD))
        else if s.typ == Tri && TestPair(e1, e2, true, SYM_MOD, SYM_NO) then Some(Comp(false, s, SYM_YES))
        else if s.typ == Boolean && Complementary(e1, e2) then Some(Sym(SYM_YES))
        else None
  }

  /** (a='b') && (a!='c') for constants b and c */
  function JoinTests(s: Symbol, b: Symbol, c: Symbol): Expr {
    if b != c then Comp(true, s, b) else Sym(SYM_NO)
  }

  /** expr_join_and */
  function JoinAnd(e1: Expr, e2: Expr): Option<Expr> {
    if ExprEq(e1, e2) then Some(e1)
    else
      var subject := CommonSubject(e1, e2);
      if subject.None? then None
      else
        var s := subject.value;
        if SymbolAndTest(e1, e2, true, SYM_YES) then Some(Comp(true, s, SYM_YES))
        else if SymbolAndTest(e1, e2, false, SYM_NO) then Some(Sym(s))
        else if SymbolAndTest(e1, e2, false, SYM_MOD) then Some(Comp(true, s, SYM_YES))
        else if s.typ != Tri then None
        else if e1.Comp? && e1.eq && e2.Comp? && !e2.eq && e2.rhs.isConst && e1.rhs.isConst then
          Some(JoinTests(s, e1.rhs, e2.rhs))
        else if e1.Comp? && !e1.eq && e2.Comp? && e2.eq && e1.rhs.isConst && e2.rhs.isConst then
          Some(JoinTests(s, e2.rhs, e1.rhs))
        else if TestPair(e1, e2, false, SYM_YES, SYM_NO) then Some(Comp(true, s, SYM_MOD))
        else if TestPair(e1, e2, false, SYM_YES, SYM_MOD) then Some(Comp(true, s, SYM_NO))
        else if TestPair(e1, e2, false, SYM_MOD, SYM_NO) then Some(Comp(true, s, SYM_YES))
        else None
  }

  function JoinTerms(op: Op, e1: Expr, e2: Expr): Option<Expr> {
    if op == Or then JoinOr(e1, e2) else JoinAnd(e1, e2)
  }

  /** The strings of a tristate symbol are "n", "m" and "y", those of the constants. */
  lemma ConstantStrings(s: Symbol, v: Valuation)
    requires Sane(v) && s.IsTristate()
    ensures StringValue(v, s) == StringValue(v, SYM_NO) <==> v(s).tri == NO
    ensures StringValue(v, s) == StringValue(v, SYM_MOD) <==> v(s).tri == MOD
    ensures StringValue(v, s) == StringValue(v, SYM_YES) <==> v(s).tri == YES
  {
    assert "n"[0] != "m"[0] && "m"[0] != "y"[0] && "n"[0] != "y"[0];
  }

  lemma {:induction false} JoinOrSound(e1: Expr, e2: Expr, v: Valuation)
    requires WellTyped(v) && JoinOr(e1, e2).Some?
    ensures Eval(JoinOr(e1, e2).value, v) == Ap(Or, Eval(e1, v), Eval(e2, v))
  {
    if ExprEq(e1, e2) {
      ExprEqSound(e1, e2);
    } else {
      ConstantStrings(CommonSubject(e1, e2).value, v);
    }
  }

  lemma {:induction false} JoinAndSound(e1: Expr, e2: Expr, v: Valuation)
    requires WellTyped(v) && JoinAnd(e1, e2).Some?
    ensures Eval(JoinAnd(e1, e2).value, v) == Ap(And, Eval(e1, v), Eval(e2, v))
  {
    if ExprEq(e1, e2) {
      ExprEqSound(e1, e2);
    } else {
      ConstantStrings(CommonSubject(e1, e2).value, v);
    }
  }

  /** A join has the three-valued value of the two terms it replaces. */
  lemma JoinSound(op: Op, e1: Expr, e2: Expr, v: Valuation)
    requires WellTyped(v) && JoinTerms(op, e1, e2).Some?
    ensures Eval(JoinTerms(op, e1, e2).value, v) == Ap(op, Eval(e1, v), Eval(e2, v))
  {
    if op == Or {
      JoinOrSound(e1, e2, v);
    } else {
      JoinAndSound(e1, e2, v);
    }
  }

  /** A join is one of its terms or a single leaf built from their symbols. */
  lemma JoinForm(op: Op, e1: Expr, e2: Expr)
    requires JoinTerms(op, e1, e2).Some?
    ensures var j := JoinTerms(op, e1, e2).value;
            && (j == e1 || j.Sym? || j.Comp?)
            && Size(j) <= Size(e1)
            && (Normal(e1) && Normal(e2) ==> Normal(j))
            && (forall v: Valuation {:trigger TwoValued(j, v)} ::
                  Sane(v) && TwoValued(e1, v) && TwoValued(e2, v) ==> TwoValued(j, v))
  {
  }

  // ------------------------------------------------------------ what is joined

  /** The three constants, in any order */
  predicate Three(a: Symbol, b: Symbol, c: Symbol) {
    IsYMN(a) && IsYMN(b) && IsYMN(c) && a != b && b != c && a != c
  }

  /** (s='a') || (s='b') -> (s!='c') and (s!='a') && (s!='b') -> (s='c'), where c is the third constant */
  lemma JoinThirdConstant(s: Symbol, a: Symbol, b: Symbol, c: Symbol)
    requires s.typ == Tri && Three(a, b, c)
    ensures JoinOr(Comp(true, s, a), Comp(true, s, b)) == Some(Comp(false, s, c))
    ensures JoinAnd(Comp(false, s, a), Comp(false, s, b)) == Some(Comp(true, s, c))
  {
    assert !ExprEq(Comp(true, s, a), Comp(true, s, b)) && !ExprEq(Comp(false, s, a), Comp(false, s, b));
  }

  /** (s='a') && (s!='b') -> (s='a'), or n if b is a */
  lemma JoinEqualUnequal(s: Symbol, a: Symbol, b: Symbol)
    requires s.typ == Tri && a.isConst && b.isConst
    ensures var j := JoinAnd(Comp(true, s, a), Comp(false, s, b));
            && (a != b ==> j == Some(Comp(true, s, a))) && (a == b ==> j == Some(Sym(SYM_NO)))
            && JoinAnd(Comp(false, s, b), Comp(true, s, a)) == j
  {
    assert !ExprEq(Comp(true, s, a), Comp(false, s, b)) && !ExprEq(Comp(false, s, b), Comp(true, s, a));
  }

  /** A symbol and a test of it: s && (s='y') -> (s='y'), s && (s!='n') -> s, s && (s!='m') -> (s='y'); the
      tests that would need a third value are left alone. */
  lemma JoinSymbolTest(s: Symbol, eq: bool, a: Symbol)
    requires s.IsTristate() && IsYMN(a)
    ensures JoinAnd(Comp(eq, s, a), Sym(s)) == JoinAnd(Sym(s), Comp(eq, s, a))
    ensures JoinAnd(Sym(s), Comp(eq, s, a)) ==
            if eq then (if a == SYM_YES then Some(Comp(true, s, SYM_YES)) else None)
            else if a == SYM_NO then Some(Sym(s))
            else if a == SYM_MOD then Some(Comp(true, s, SYM_YES))
            else None
    ensures JoinOr(Sym(s), Comp(eq, s, a)) == None && JoinOr(Comp(eq, s, a), Sym(s)) == None
  {
    assert !ExprEq(Sym(s), Comp(eq, s, a)) && !ExprEq(Comp(eq, s, a), Sym(s));
  }

  /** s || !s -> y for a boolean; for a tristate, where it may be m, it is kept. */
  lemma JoinExcludedMiddle(s: Symbol)
    requires s.IsTristate()
    ensures var j := JoinOr(Sym(s), Not(Sym(s)));
            && (j == if s.typ == Boolean then Some(Sym(SYM_YES)) else None)
            && JoinOr(Not(Sym(s)), Sym(s)) == j
  {
    assert !ExprEq(Sym(s), Not(Sym(s))) && !ExprEq(Not(Sym(s)), Sym(s));
  }
}
