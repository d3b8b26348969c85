// What the pairwise searches of expr.c are sure to find: expr_eq knows every expression again, and
// of chains of leaves exactly the permutations; a chain and its negation contradict each other.
module Matching {
  import opened Wrappers
  import opened Expr
  import opened Cancel
  import opened NormalForm
  import opened Join
  import opened Dups
  import opened Submenu

  // ------------------------------------------------------ a chain against itself

  /** A chain with a place for one of its parts */
  datatype Context = Hole | OnLeft(inner: Context, right: Expr) | OnRight(left: Expr, inner: Context)

  function Plug(op: Op, c: Context, x: Expr): Expr {
    match c
    case Hole => x
    case OnLeft(d, r) => Bin(op, Plug(op, d, x), r)
    case OnRight(l, d) => Bin(op, l, Plug(op, d, x))
  }

  function Within(c: Context, d: Context): Context {
    match c
    case Hole => d
    case OnLeft(c', r) => OnLeft(Within(c', d), r)
    case OnRight(l, c') => OnRight(l, Within(c', d))
  }

  lemma {:induction false} PlugWithin(op: Op, c: Context, d: Context, x: Expr)
    ensures Plug(op, Within(c, d), x) == Plug(op, c, Plug(op, d, x))
  {
    if !c.Hole? {
      PlugWithin(op, c.inner, d, x);
    }
  }

  /** A chain of constants only */
  predicate Constants(op: Op, e: Expr) {
    if IsOp(op, e) then Constants(op, e.left) && Constants(op, e.right) else e.Sym? && IsYN(e.sym)
  }

  /** In front of the place there are only constants. */
  predicate Reached(op: Op, c: Context) {
    match c
    case Hole => true
    case OnLeft(d, _) => Reached(op, d)
    case OnRight(l, d) => Constants(op, l) && Reached(op, d)
  }

  lemma {:induction false} ReachedWithin(op: Op, c: Context, d: Context)
    requires Reached(op, c) && Reached(op, d)
    ensures Reached(op, Within(c, d))
  {
    if !c.Hole? {
      ReachedWithin(op, c.inner, d);
    }
  }

  /** What is left of a chain all of whose terms are cancelled; constants stay. */
  function Blank(op: Op, e: Expr): (r: Expr)
    ensures Constants(op, r)
  {
    if IsOp(op, e) then Bin(op, Blank(op, e.left), Blank(op, e.right))
    else if e.Sym? && IsYN(e.sym) then e
    else Sym(Unit(op))
  }

  lemma {:induction false} BlankFolds(op: Op, e: Expr)
    requires Constants(op, e)
    ensures EliminateYn(e).Sym? && IsYN(EliminateYn(e).sym)
  {
    if IsOp(op, e) {
      BlankFolds(op, e.left);
      BlankFolds(op, e.right);
    }
  }

  /** A constant takes nothing away from a chain. */
  lemma {:induction false} ConstantIdle(op: Op, c: Symbol, e: Expr)
    requires IsYN(c)
    ensures ElimEq(op, Sym(c), e) == (Sym(c), e)
  {
    if IsOp(op, e) {
      ConstantIdle(op, c, e.left);
      ConstantIdle(op, c, e.right);
    }
  }

  /** Nor does a chain of constants lose anything. */
  lemma {:induction false} ConstantsIdle(op: Op, x: Expr, cs: Expr)
    requires !IsOp(op, x) && Constants(op, cs)
    ensures ElimEq(op, x, cs) == (x, cs)
  {
    if x.Sym? && IsYN(x.sym) {
      ConstantIdle(op, x.sym, cs);
    } else if IsOp(op, cs) {
      ConstantsIdle(op, x, cs.left);
      ConstantsIdle(op, x, cs.right);
    }
  }

  /** A member is cancelled with its own copy, if only constants stand before that. */
  lemma {:induction false} MatchMember(op: Op, x: Expr, c: Context)
    requires !IsOp(op, x) && ExprEq(x, x) && Reached(op, c)
    ensures ElimEq(op, x, Plug(op, c, x)) == (Blank(op, x), Plug(op, c, Blank(op, x)))
    decreases c
  {
    match c
    case Hole =>
    case OnLeft(d, r) =>
      MatchMember(op, x, d);
      ConstantIdle(op, Blank(op, x).sym, r);
    case OnRight(l, d) =>
      ConstantsIdle(op, x, l);
      MatchMember(op, x, d);
  }

  /** So each part of a chain is cancelled with its own copy. */
  lemma {:induction false} MatchSelf(op: Op, x: Expr, c: Context)
    requires Reached(op, c)
    ensures ElimEq(op, x, Plug(op, c, x)) == (Blank(op, x), Plug(op, c, Blank(op, x)))
    decreases Size(x), if IsOp(op, x) then 0 else 2
  {
    if IsOp(op, x) {
      var l, r := OnLeft(Hole, x.right), OnRight(Blank(op, x.left), Hole);
      PlugWithin(op, c, l, x.left);
      PlugWithin(op, c, l, Blank(op, x.left));
      PlugWithin(op, c, r, x.right);
      PlugWithin(op, c, r, Blank(op, x.right));
      ReachedWithin(op, c, l);
      ReachedWithin(op, c, r);
      MatchSelf(op, x.left, Within(c, l));
      MatchSelf(op, x.right, Within(c, r));
    } else {
      ExprEqSelf(x);
      MatchMember(op, x, c);
    }
  }

  /** expr_eq knows every expression again. */
  lemma {:induction false} ExprEqSelf(e: Expr)
    ensures ExprEq(e, e)
    decreases Size(e), 1
  {
    match e
    case Not(a) => ExprEqSelf(a);
    case Bin(op, _, _) =>
      MatchSelf(op, e, Hole);
      BlankFolds(op, Blank(op, e));
    case _ =>
  }

  /** So a term joins with its copy. */
  lemma JoinSame(op: Op, e: Expr)
    ensures JoinTerms(op, e, e) == Some(e)
  {
    ExprEqSelf(e);
  }

  // ------------------------------------------------------------ chains of leaves

  /** A leaf other than y and n, or the negation of one */
  predicate Atom(e: Expr) {
    match e
    case Sym(s) => !IsYN(s)
    case Comp(_, _, _) => true
    case Not(a) => Atom(a)
    case Bin(_, _, _) => false
  }

  lemma {:induction false} AtomEq(a: Expr, b: Expr)
    requires Atom(a)
    ensures ExprEq(a, b) <==> a == b
  {
    if a.Not? && b.Not? {
      AtomEq(a.arg, b.arg);
    }
  }

  /** A chain of atoms, in which cancelled ones may have left units */
  predicate Atoms(op: Op, e: Expr) {
    if IsOp(op, e) then Atoms(op, e.left) && Atoms(op, e.right) else Atom(e) || e == Sym(Unit(op))
  }

  /** How often x is a term of the chain, not counting units */
  function Occurs(op: Op, e: Expr, x: Expr): nat {
    if IsOp(op, e) then Occurs(op, e.left, x) + Occurs(op, e.right, x)
    else if e == x && e != Sym(Unit(op)) then 1
    else 0
  }

  function Excess(a: nat, b: nat): nat {
    if a < b then 0 else a - b
  }

  lemma {:induction false} ElimEqAtoms(op: Op, e1: Expr, e2: Expr)
    requires Atoms(op, e1) && Atoms(op, e2)
    ensures var r := ElimEq(op, e1, e2);
            && Atoms(op, r.0) && Atoms(op, r.1)
            && IsOp(op, r.0) == IsOp(op, e1) && IsOp(op, r.1) == IsOp(op, e2)
    decreases Size(e1) + Size(e2)
  {
    if IsOp(op, e1) {
      ElimEqAtoms(op, e1.left, e2);
      ElimEqAtoms(op, e1.right, ElimEq(op, e1.left, e2).1);
    } else if IsOp(op, e2) {
      ElimEqAtoms(op, e1, e2.left);
      ElimEqAtoms(op, ElimEq(op, e1, e2.left).0, e2.right);
    }
  }

  /** __expr_eliminate_eq leaves on each side the terms that the other one does not have, counted. */
  lemma {:induction false} ElimEqTerms(op: Op, e1: Expr, e2: Expr, x: Expr)
    requires Atoms(op, e1) && Atoms(op, e2)
    ensures Occurs(op, ElimEq(op, e1, e2).0, x) == Excess(Occurs(op, e1, x), Occurs(op, e2, x))
    ensures Occurs(op, ElimEq(op, e1, e2).1, x) == Excess(Occurs(op, e2, x), Occurs(op, e1, x))
    decreases Size(e1) + Size(e2)
  {
    if IsOp(op, e1) {
      var a := ElimEq(op, e1.left, e2);
      var b := ElimEq(op, e1.right, a.1);
      ElimEqAtoms(op, e1.left, e2);
      ElimEqTerms(op, e1.left, e2, x);
      ElimEqTerms(op, e1.right, a.1, x);
      SumTerms(op, e1, e2, x, a, b);
    } else if IsOp(op, e2) {
      var a := ElimEq(op, e1, e2.left);
      var b := ElimEq(op, a.0, e2.right);
      ElimEqAtoms(op, e1, e2.left);
      ElimEqTerms(op, e1, e2.left, x);
      ElimEqTerms(op, a.0, e2.right, x);
      SumTerms(op, e2, e1, x, (a.1, a.0), (b.1, b.0));
    } else {
      AtomTerms(op, e1, e2, x);
    }
  }

  /** The two parts of the chain e against f: a is what the first one leaves of itself and of f, and b
      the same of the second one and what was left of f. */
  lemma SumTerms(op: Op, e: Expr, f: Expr, x: Expr, a: (Expr, Expr), b: (Expr, Expr))
    requires IsOp(op, e)
    requires Occurs(op, a.0, x) == Excess(Occurs(op, e.left, x), Occurs(op, f, x))
    requires Occurs(op, a.1, x) == Excess(Occurs(op, f, x), Occurs(op, e.left, x))
    requires Occurs(op, b.0, x) == Excess(Occurs(op, e.right, x), Occurs(op, a.1, x))
    requires Occurs(op, b.1, x) == Excess(Occurs(op, a.1, x), Occurs(op, e.right, x))
    ensures Occurs(op, Bin(op, a.0, b.0), x) == Excess(Occurs(op, e, x), Occurs(op, f, x))
    ensures Occurs(op, b.1, x) == Excess(Occurs(op, f, x), Occurs(op, e, x))
  {
  }

  lemma AtomTerms(op: Op, e1: Expr, e2: Expr, x: Expr)
    requires !IsOp(op, e1) && !IsOp(op, e2) && Atoms(op, e1) && Atoms(op, e2)
    ensures Occurs(op, ElimEq(op, e1, e2).0, x) == Excess(Occurs(op, e1, x), Occurs(op, e2, x))
    ensures Occurs(op, ElimEq(op, e1, e2).1, x) == Excess(Occurs(op, e2, x), Occurs(op, e1, x))
  {
    if Atom(e1) {
      AtomEq(e1, e2);
    } else {
      ConstantIdle(op, e1.sym, e2);
    }
  }

  lemma {:induction false} FoldTerms(op: Op, e: Expr, x: Expr)
    requires Atoms(op, e)
    ensures Atoms(op, EliminateYn(e)) && Occurs(op, EliminateYn(e), x) == Occurs(op, e, x)
  {
    if IsOp(op, e) {
      FoldTerms(op, e.left, x);
      FoldTerms(op, e.right, x);
    }
  }

  /** A folded chain of atoms is the unit or has a term. */
  lemma {:induction false} FoldSome(op: Op, e: Expr) returns (x: Expr)
    requires Atoms(op, e)
    ensures EliminateYn(e) == Sym(Unit(op)) || Occurs(op, e, x) > 0
  {
    if IsOp(op, e) {
      x := FoldSome(op, e.left);
      if EliminateYn(e.left) == Sym(Unit(op)) {
        x := FoldSome(op, e.right);
      }
    } else {
      x := e;
    }
  }

  /** What expr_eq compares for two chains of one operator */
  lemma ChainRemainders(op: Op, e1: Expr, e2: Expr) returns (r1: Expr, r2: Expr)
    requires IsOp(op, e1) && IsOp(op, e2) && Atoms(op, e1) && Atoms(op, e2)
    ensures ExprEq(e1, e2) <==> r1.Sym? && r1 == r2
    ensures Atoms(op, r1) && Atoms(op, r2)
    ensures forall x: Expr :: Occurs(op, r1, x) == Excess(Occurs(op, e1, x), Occurs(op, e2, x))
    ensures forall x: Expr :: Occurs(op, r2, x) == Excess(Occurs(op, e2, x), Occurs(op, e1, x))
    ensures r1 == Sym(Unit(op)) || exists x: Expr :: Occurs(op, r1, x) > 0
    ensures r2 == Sym(Unit(op)) || exists x: Expr :: Occurs(op, r2, x) > 0
  {
    var a := ElimEq(op, e1, e2);
    ElimEqAtoms(op, e1, e2);
    r1, r2 := EliminateYn(a.0), EliminateYn(a.1);
    forall x: Expr
      ensures Atoms(op, r1) && Occurs(op, r1, x) == Excess(Occurs(op, e1, x), Occurs(op, e2, x))
      ensures Atoms(op, r2) && Occurs(op, r2, x) == Excess(Occurs(op, e2, x), Occurs(op, e1, x))
    {
      ElimEqTerms(op, e1, e2, x);
      FoldTerms(op, a.0, x);
      FoldTerms(op, a.1, x);
    }
    var x1 := FoldSome(op, a.0);
    var x2 := FoldSome(op, a.1);
    FoldTerms(op, a.0, x1);
    FoldTerms(op, a.1, x2);
  }

  ghost predicate SameTerms(op: Op, e1: Expr, e2: Expr) {
    forall x: Expr :: Occurs(op, e1, x) == Occurs(op, e2, x)
  }

  /** The remainders r1 and r2 are the same symbol exactly if nothing remained. */
  lemma RemaindersDecide(op: Op, e1: Expr, e2: Expr, r1: Expr, r2: Expr)
    requires forall x: Expr :: Occurs(op, r1, x) == Excess(Occurs(op, e1, x), Occurs(op, e2, x))
    requires forall x: Expr :: Occurs(op, r2, x) == Excess(Occurs(op, e2, x), Occurs(op, e1, x))
    requires r1 == Sym(Unit(op)) || exists x: Expr :: Occurs(op, r1, x) > 0
    requires r2 == Sym(Unit(op)) || exists x: Expr :: Occurs(op, r2, x) > 0
    ensures r1.Sym? && r1 == r2 <==> SameTerms(op, e1, e2)
  {
    if SameTerms(op, e1, e2) {
      assert forall x: Expr :: Occurs(op, r1, x) == 0 && Occurs(op, r2, x) == 0;
    } else {
      var x: Expr :| Occurs(op, e1, x) != Occurs(op, e2, x);
      assert Occurs(op, r1, x) != Occurs(op, r2, x);
    }
  }

  /** Of two chains of atoms, expr_eq finds out exactly whether one is a permutation of the other. */
  lemma ExprEqExact(op: Op, e1: Expr, e2: Expr)
    requires IsOp(op, e1) && IsOp(op, e2) && Atoms(op, e1) && Atoms(op, e2)
    ensures ExprEq(e1, e2) <==> SameTerms(op, e1, e2)
  {
    var r1, r2 := ChainRemainders(op, e1, e2);
    RemaindersDecide(op, e1, e2, r1, r2);
  }

  /** For example: the operands of a chain may be exchanged. */
  lemma ExprEqCommutes(op: Op, a: Expr, b: Expr)
    requires Atom(a) && Atom(b)
    ensures ExprEq(Bin(op, a, b), Bin(op, b, a))
  {
    var e1, e2 := Bin(op, a, b), Bin(op, b, a);
    ExprEqExact(op, e1, e2);
    assert SameTerms(op, e1, e2) by {
      assert forall x: Expr :: Occurs(op, e1, x) == Occurs(op, a, x) + Occurs(op, b, x) == Occurs(op, e2, x);
    }
  }

  /** expr_eliminate_eq leaves the second chain empty exactly if the first one has all its terms. */
  lemma EliminateEqExact(op: Op, e1: Expr, e2: Expr)
    requires IsOp(op, e1) && Atoms(op, e1) && Atoms(op, e2)
    ensures EliminateEq(e1, e2).1 == Sym(Unit(op)) <==> Covers(op, e1, e2)
  {
    var a := ElimEq(op, e1, e2);
    ElimEqAtoms(op, e1, e2);
    assert EliminateEq(e1, e2).1 == EliminateYn(a.1);
    var y := FoldSome(op, a.1);
    ElimEqTerms(op, e1, e2, y);
    if EliminateYn(a.1) == Sym(Unit(op)) {
      forall x: Expr
        ensures Occurs(op, e2, x) <= Occurs(op, e1, x)
      {
        ElimEqTerms(op, e1, e2, x);
        FoldTerms(op, a.1, x);
      }
    }
  }

  ghost predicate Covers(op: Op, e1: Expr, e2: Expr) {
    forall x: Expr :: Occurs(op, e2, x) <= Occurs(op, e1, x)
  }

  /** Where the conditions come down to AND chains of atoms, a sibling that contains the symbol is adopted
      exactly if it depends on it or repeats all terms of the prompt's condition. */
  lemma AdoptsExactly(prompt: Dep, sym: Symbol, dep: Expr)
    requires IsOp(And, Enabled(Some(dep))) && Atoms(And, Enabled(Some(dep))) && Atoms(And, Enabled(prompt))
    ensures Adopts(prompt, sym, Some(dep)) <==>
            && Contains(dep, sym)
            && (Depends(dep, sym) || Covers(And, Enabled(Some(dep)), Enabled(prompt)))
  {
    EliminateEqExact(And, Enabled(Some(dep)), Enabled(prompt));
  }

  // ------------------------------------------------- extracting and contradicting

  /** A chain of which every term has been extracted */
  function Units(op: Op, e: Expr): Expr {
    if IsOp(op, e) then Bin(op, Units(op, e.left), Units(op, e.right)) else Sym(Unit(op))
  }

  predicate AllUnits(op: Op, e: Expr) {
    e == Units(op, e)
  }

  predicate Passed(op: Op, c: Context) {
    match c
    case Hole => true
    case OnLeft(d, _) => Passed(op, d)
    case OnRight(l, d) => AllUnits(op, l) && Passed(op, d)
  }

  lemma {:induction false} PassedWithin(op: Op, c: Context, d: Context)
    requires Passed(op, c) && Passed(op, d)
    ensures Passed(op, Within(c, d))
  {
    if !c.Hole? {
      PassedWithin(op, c.inner, d);
    }
  }

  lemma {:induction false} UnitsFold(op: Op, e: Expr)
    requires AllUnits(op, e)
    ensures EliminateYn(e) == Sym(Unit(op))
  {
    if IsOp(op, e) {
      UnitsFold(op, e.left);
      UnitsFold(op, e.right);
    }
  }

  /** Units change nothing but the accumulator, which is never emptied. */
  lemma {:induction false} UnitExtracts(op: Op, acc: Dep, e: Expr)
    ensures var r := ExtractEq(op, acc, Sym(Unit(op)), e);
            r.1 == Sym(Unit(op)) && r.2 == e && (acc.Some? ==> r.0.Some?)
    decreases e
  {
    if IsOp(op, e) {
      UnitExtracts(op, acc, e.left);
      UnitExtracts(op, ExtractEq(op, acc, Sym(Unit(op)), e.left).0, e.right);
    }
  }

  lemma {:induction false} UnitFound(op: Op, acc: Dep, c: Context)
    ensures ExtractEq(op, acc, Sym(Unit(op)), Plug(op, c, Sym(Unit(op)))).0.Some?
    decreases c
  {
    var unit := Sym(Unit(op));
    match c
    case Hole =>
    case OnLeft(d, r) =>
      UnitFound(op, acc, d);
      UnitExtracts(op, acc, Plug(op, d, unit));
      UnitExtracts(op, ExtractEq(op, acc, unit, Plug(op, d, unit)).0, r);
    case OnRight(l, d) =>
      UnitExtracts(op, acc, l);
      UnitFound(op, ExtractEq(op, acc, unit, l).0, d);
  }

  lemma {:induction false} PassUnits(op: Op, acc: Dep, x: Expr, us: Expr)
    requires !IsOp(op, x) && x != Sym(Unit(op)) && AllUnits(op, us)
    ensures ExtractEq(op, acc, x, us) == (acc, x, us)
  {
    if IsOp(op, us) {
      PassUnits(op, acc, x, us.left);
      PassUnits(op, acc, x, us.right);
    }
  }

  lemma {:induction false} ExtractMember(op: Op, acc: Dep, x: Expr, c: Context)
    requires !IsOp(op, x) && x != Sym(Unit(op)) && Passed(op, c)
    ensures var r := ExtractEq(op, acc, x, Plug(op, c, x));
            r.0.Some? && r.1 == Sym(Unit(op)) && r.2 == Plug(op, c, Sym(Unit(op)))
    decreases c
  {
    match c
    case Hole => ExprEqSelf(x);
    case OnLeft(d, r) =>
      ExtractMember(op, acc, x, d);
      UnitExtracts(op, ExtractEq(op, acc, x, Plug(op, d, x)).0, r);
    case OnRight(l, d) =>
      PassUnits(op, acc, x, l);
      ExtractMember(op, acc, x, d);
  }

  /** All of a chain is extracted from the chain itself. */
  lemma {:induction false} ExtractSelf(op: Op, acc: Dep, x: Expr, c: Context)
    requires Passed(op, c)
    ensures var r := ExtractEq(op, acc, x, Plug(op, c, x));
            && r.0.Some? && r.1 == Units(op, x) && r.2 == Plug(op, c, Units(op, x))
            && AllUnits(op, Units(op, x))
    decreases x
  {
    if IsOp(op, x) {
      var l, r := OnLeft(Hole, x.right), OnRight(Units(op, x.left), Hole);
      PlugWithin(op, c, l, x.left);
      PlugWithin(op, c, l, Units(op, x.left));
      PlugWithin(op, c, r, x.right);
      PlugWithin(op, c, r, Units(op, x.right));
      PassedWithin(op, c, l);
      ExtractSelf(op, acc, x.left, Within(c, l));
      PassedWithin(op, c, r);
      ExtractSelf(op, ExtractEq(op, acc, x.left, Plug(op, c, x)).0, x.right, Within(c, r));
    } else if x == Sym(Unit(op)) {
      UnitExtracts(op, acc, Plug(op, c, x));
      UnitFound(op, acc, c);
    } else {
      ExtractMember(op, acc, x, c);
    }
  }

  /** (FOO || BAR) && (!FOO && !BAR), and the dual: a chain and its negation, written out, contradict
      each other, so dups2 replaces the member by the constant. */
  lemma NegationContradicts(op: Op, e: Expr)
    ensures Contradicts(op, e, Transform(Not(e)))
  {
    var x := Transform(Not(e));
    ExtractSelf(op, None, x, Hole);
    UnitsFold(op, Units(op, x));
  }
}
