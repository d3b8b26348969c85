// Where the C code does not do what one might expect of it: concrete inputs.
module Limits {
  import opened Wrappers
  import opened Expr
  import opened Cancel
  import opened NormalForm
  import opened Chain
  import opened Join
  import opened Dups
  import opened Submenu
  import opened Config
  import opened SymbolTable
  import Choice

  const A := Variable(0, "A", Tri)
  const S := Variable(1, "S", Tri)

  /** Only A (and the constant m) is m; only the constant y is y. */
  function AIsMod(): (v: Valuation)
    ensures Sane(v)
  {
    (s: Symbol) =>
      if s == SYM_YES then Value("y", YES) else if s == SYM_MOD || s == A then Value("m", MOD)
      else if s == SYM_NO then Value("n", NO) else Value(s.name, NO)
  }

  /** It is well typed: no boolean is m, and constants show their names. */
  lemma AIsModWellTyped()
    ensures WellTyped(AIsMod()) && AIsMod()(A).tri == MOD
  {
    var v := AIsMod();
    assert forall s: Symbol :: s.isConst ==> StringValue(v, s) == s.name;
  }

  // ------------------------------------------- searches that find nothing

  /** No two members join, and none has duplicates of its own. */
  ghost predicate Idle(op: Op, t: Expr) {
    forall p1: Path, p2: Path ::
      (In(ShapeOf(op, t), p1) && In(ShapeOf(op, t), p2) && p1 != p2
       && ShapeAt(ShapeOf(op, t), p1).Member? && ShapeAt(ShapeOf(op, t), p2).Member?)
      ==> Inner1(op, At(op, t, p1)) == Pass(At(op, t, p1), 0) && JoinTerms(op, At(op, t, p1), At(op, t, p2)).None?
  }

  lemma {:induction false} Dups1Idle(op: Op, t: Expr, p1: Path, p2: Path)
    requires IsOp(op, t) && In(ShapeOf(op, t), p1) && In(ShapeOf(op, t), p2) && Idle(op, t)
    ensures Dups1(op, t, p1, p2) == Pass(t, 0)
    decreases ShapeSize(ShapeAt(ShapeOf(op, t), p1)) + ShapeSize(ShapeAt(ShapeOf(op, t), p2))
  {
    if IsOp(op, At(op, t, p1)) {
      InExtend(ShapeOf(op, t), p1, L);
      InExtend(ShapeOf(op, t), p1, R);
      Dups1Idle(op, t, p1 + [L], p2);
      Dups1Idle(op, t, p1 + [R], p2);
    } else if IsOp(op, At(op, t, p2)) {
      InExtend(ShapeOf(op, t), p2, L);
      InExtend(ShapeOf(op, t), p2, R);
      Dups1Idle(op, t, p1, p2 + [L]);
      Dups1Idle(op, t, p1, p2 + [R]);
    } else if p1 != p2 {
      PutSame(op, t, p1);
    }
  }

  /** dups2 only looks at members that are chains themselves. */
  lemma {:induction false} Dups2Leaf(op: Op, t: Expr, p1: Path, p2: Path)
    requires IsOp(op, t) && In(ShapeOf(op, t), p1) && In(ShapeOf(op, t), p2) && !At(op, t, p1).Bin?
    ensures Dups2(op, t, p1, p2) == Pass(t, 0)
    decreases ShapeSize(ShapeAt(ShapeOf(op, t), p2))
  {
    if IsOp(op, At(op, t, p2)) {
      InExtend(ShapeOf(op, t), p2, L);
      InExtend(ShapeOf(op, t), p2, R);
      Dups2Leaf(op, t, p1, p2 + [L]);
      Dups2Leaf(op, t, p1, p2 + [R]);
    }
  }

  /** A member that is a chain without duplicates, tested against what is at p2 */
  lemma TestMember(op: Op, t: Expr, p1: Path, p2: Path)
    requires IsOp(op, t) && In(ShapeOf(op, t), p1) && In(ShapeOf(op, t), p2) && p1 != p2
    requires var e1 := At(op, t, p1);
             e1.Bin? && e1.op != op && Dups2(e1.op, e1, [], []) == Pass(e1, 0)
    requires Descend2(op, t, p1, p2) == Pass(t, 0)
    ensures Dups2(op, t, p1, p2) == if Contradicts(op, At(op, t, p1), At(op, t, p2))
                                    then Pass(Put(op, t, p1, Sym(Zero(op))), 1) else Pass(t, 0)
  {
    PutSame(op, t, p1);
  }

  predicate NoJoin(op: Op, x: Expr, y: Expr) {
    JoinTerms(op, x, y).None? && JoinTerms(op, y, x).None?
  }

  /** The slots of a pair x op y of members */
  lemma PairPaths(op: Op, x: Expr, y: Expr, p: Path)
    requires !IsOp(op, x) && !IsOp(op, y)
    requires var s := ShapeOf(op, Bin(op, x, y)); In(s, p) && ShapeAt(s, p).Member?
    ensures p == [L] || p == [R]
    ensures At(op, Bin(op, x, y), p) == if p == [L] then x else y
  {
    assert p[1..] == [];
  }

  lemma PairIdle(op: Op, x: Expr, y: Expr)
    requires !IsOp(op, x) && !IsOp(op, y) && NoJoin(op, x, y)
    requires Inner1(op, x) == Pass(x, 0) && Inner1(op, y) == Pass(y, 0)
    ensures Dups1(op, Bin(op, x, y), [], []) == Pass(Bin(op, x, y), 0)
  {
    var t := Bin(op, x, y);
    var s := ShapeOf(op, t);
    forall p1: Path, p2: Path
      | In(s, p1) && In(s, p2) && p1 != p2 && ShapeAt(s, p1).Member? && ShapeAt(s, p2).Member?
      ensures Inner1(op, At(op, t, p1)) == Pass(At(op, t, p1), 0) && JoinTerms(op, At(op, t, p1), At(op, t, p2)).None?
    {
      PairPaths(op, x, y, p1);
      PairPaths(op, x, y, p2);
    }
    Dups1Idle(op, t, [], []);
  }

  /** Two leaves that do not join */
  lemma PairUntouched(op: Op, x: Expr, y: Expr)
    requires !x.Bin? && !y.Bin? && NoJoin(op, x, y)
    ensures var t := Bin(op, x, y);
            Dups1(op, t, [], []) == Pass(t, 0) && Dups2(op, t, [], []) == Pass(t, 0) && EliminateDups(t) == t
  {
    var t := Bin(op, x, y);
    PairIdle(op, x, y);
    assert [] + [L] == [L] && [] + [R] == [R];
    Dups2Leaf(op, t, [L], []);
    Dups2Leaf(op, t, [R], []);
  }

  /** A chain without duplicates that the other member contradicts */
  lemma PairCleared(op: Op, x: Expr, y: Expr)
    requires x.Bin? && x.op != op && !y.Bin? && Contradicts(op, x, y)
    requires Dups2(x.op, x, [], []) == Pass(x, 0)
    ensures Dups2(op, Bin(op, x, y), [], []) == Pass(Bin(op, Sym(Zero(op)), y), 1)
  {
    var t, t' := Bin(op, x, y), Bin(op, Sym(Zero(op)), y);
    assert [] + [L] == [L] && [] + [R] == [R];
    assert At(op, t, [L]) == x && At(op, t, [R]) == y && At(op, t', [L]) == Sym(Zero(op));
    TestMember(op, t, [L], [R]);
    assert Dups2(op, t, [L], [L]) == Pass(t, 0);
    assert Descend2(op, t, [L], []) == Pass(t', 1);
    Dups2Leaf(op, t', [R], []);
  }

  // ------------------------------------------------------- expr_eliminate_dups

  const NOT_A := Not(Sym(A))
  const A_OR_N := Bin(Or, Sym(A), Sym(SYM_NO))

  /** Every member of !(A || n), which is !A && y, is taken away by !A. */
  lemma NegationMatches()
    ensures Contradicts(And, A_OR_N, NOT_A)
  {
    var y := Sym(SYM_YES);
    assert Transform(Not(A_OR_N)) == Bin(And, NOT_A, y);
    assert ExtractEq(And, None, NOT_A, NOT_A) == (Some(NOT_A), y, y) by {
      assert ExprEq(NOT_A, NOT_A);
    }
    assert ExtractEq(And, Some(NOT_A), y, y).1 == y;
    assert EliminateYn(Bin(And, y, y)) == y;
  }

  lemma ClashIdle(x: Expr, y: Expr)
    requires x == A_OR_N && y == NOT_A
    ensures Dups1(And, Bin(And, x, y), [], []) == Pass(Bin(And, x, y), 0)
    ensures Dups2(Or, x, [], []) == Pass(x, 0)
  {
    PairUntouched(Or, x.left, x.right);
    PairIdle(And, x, y);
  }

  lemma ClashPass(x: Expr, y: Expr)
    requires x == A_OR_N && y == NOT_A
    ensures DupsPass(Bin(And, x, y)) == Pass(Bin(And, Sym(SYM_NO), y), 1)
  {
    NegationMatches();
    ClashIdle(x, y);
    PairCleared(And, x, y);
  }

  /** (A || n) && !A is m wherever A is m, as in AIsMod, but expr_eliminate_dups makes it n. */
  lemma DupsNotThreeValued(e: Expr, v: Valuation)
    requires e == Bin(And, A_OR_N, NOT_A) && Sane(v) && v(A).tri == MOD
    ensures Eval(e, v) == MOD && Eval(EliminateDups(e), v) == NO
  {
    ClashPass(e.left, e.right);
    var n := Sym(SYM_NO);
    assert EliminateYn(Bin(And, n, e.right)) == n;
    assert DupsPass(n) == Pass(n, 0);
  }

  // --------------------------------------------------------- adopting a sibling

  const A_IS_N := Comp(true, A, SYM_NO)
  const S_NOT_Y := Comp(false, S, SYM_YES)
  const DEP := Bin(And, NOT_A, S_NOT_Y)

  lemma EnabledTests()
    ensures Enabled(Some(DEP)) == Bin(And, A_IS_N, S_NOT_Y) && Enabled(Some(A_IS_N)) == A_IS_N
  {
    var test := Bin(Or, Comp(false, A, SYM_NO), Not(S_NOT_Y));
    assert TransCompare(DEP, false, SYM_NO) == Not(test);
    assert Transform(Not(S_NOT_Y)) == Comp(true, S, SYM_YES);
    assert Transform(test) == Bin(Or, Comp(false, A, SYM_NO), Comp(true, S, SYM_YES));
    var dual := Bin(And, Not(Comp(false, A, SYM_NO)), Not(Comp(true, S, SYM_YES)));
    assert Transform(dual) == Bin(And, A_IS_N, S_NOT_Y);
    assert Transform(Not(test)) == Transform(dual);
    PairUntouched(And, A_IS_N, S_NOT_Y);
    assert TransCompare(A_IS_N, false, SYM_NO) == A_IS_N;
    assert EliminateDups(A_IS_N) == A_IS_N;
  }

  lemma TestsCancel()
    ensures EliminateEq(Bin(And, A_IS_N, S_NOT_Y), A_IS_N) == (S_NOT_Y, Sym(SYM_YES))
  {
    var y := Sym(SYM_YES);
    assert ElimEq(And, A_IS_N, A_IS_N) == (y, y) by {
      assert ExprEq(A_IS_N, A_IS_N);
    }
    assert ElimEq(And, S_NOT_Y, y) == (S_NOT_Y, y) by {
      assert !ExprEq(S_NOT_Y, y);
    }
    assert ElimEq(And, Bin(And, A_IS_N, S_NOT_Y), A_IS_N) == (Bin(And, y, S_NOT_Y), y);
    assert EliminateYn(Bin(And, y, S_NOT_Y)) == S_NOT_Y;
  }

  /** "depends on !A && S!=y" is adopted below S with prompt "if A=n", yet where A is m and S is n
      the entry is enabled while neither S nor the prompt is. */
  lemma AdoptionNotThreeValued()
    ensures Adopts(Some(A_IS_N), S, Some(DEP)) && WellTyped(AIsMod())
    ensures EvalDep(Some(DEP), AIsMod()) == MOD
    ensures AIsMod()(S).tri == NO && EvalDep(Some(A_IS_N), AIsMod()) == NO
  {
    EnabledTests();
    TestsCancel();
    AIsModWellTyped();
    DepIsMod(AIsMod());
  }

  lemma DepIsMod(v: Valuation)
    requires v(A) == Value("m", MOD) && v(S) == Value("S", NO) && Sane(v)
    ensures Eval(DEP, v) == MOD && Eval(A_IS_N, v) == NO
  {
    assert StringValue(v, A) == "m" && StringValue(v, SYM_NO) == "n" && "m"[0] != "n"[0];
    assert StringValue(v, S) == "n" && StringValue(v, SYM_YES) == "y" && "n"[0] != "y"[0];
    assert Eval(S_NOT_Y, v) == YES && Eval(A_IS_N, v) == NO && Eval(NOT_A, v) == MOD;
  }

  const U := Variable(4, "U", Unknown)
  const U_NOT_N := Comp(false, U, SYM_NO)

  lemma UndefinedTests()
    ensures Enabled(Some(Bin(And, U_NOT_N, S_NOT_Y))) == Bin(And, U_NOT_N, S_NOT_Y)
    ensures Enabled(Some(Sym(U))) == U_NOT_N
  {
    var test := Bin(Or, Not(U_NOT_N), Not(S_NOT_Y));
    assert TransCompare(Bin(And, U_NOT_N, S_NOT_Y), false, SYM_NO) == Not(test);
    assert Transform(Not(U_NOT_N)) == Comp(true, U, SYM_NO) && Transform(Not(S_NOT_Y)) == Comp(true, S, SYM_YES);
    var dual := Bin(And, Not(Comp(true, U, SYM_NO)), Not(Comp(true, S, SYM_YES)));
    assert Transform(dual) == Bin(And, U_NOT_N, S_NOT_Y);
    assert Transform(Not(test)) == Transform(dual);
    PairUntouched(And, U_NOT_N, S_NOT_Y);
    assert EliminateDups(U_NOT_N) == U_NOT_N;
  }

  /** Below S with prompt "if U", where U is undefined, "depends on U!=n && S!=y" is adopted; where S is n
      the entry is y, but S and the prompt are n, with no symbol at m. */
  lemma AdoptionOnUndefined(v: Valuation)
    requires WellTyped(v) && v(U) == Value("U", NO) && v(S).tri == NO
    ensures var dep := Some(Bin(And, U_NOT_N, S_NOT_Y));
            && Adopts(Some(Sym(U)), S, dep) && EvalDep(dep, v) == YES && EvalDep(Some(Sym(U)), v) == NO
  {
    UndefinedTests();
    UndefinedCancels();
    assert StringValue(v, U) == "U" && StringValue(v, SYM_NO) == "n" && "U"[0] != "n"[0];
    assert StringValue(v, S) == "n" && StringValue(v, SYM_YES) == "y" && "n"[0] != "y"[0];
  }

  lemma UndefinedCancels()
    ensures EliminateEq(Bin(And, U_NOT_N, S_NOT_Y), U_NOT_N) == (S_NOT_Y, Sym(SYM_YES))
  {
    var y := Sym(SYM_YES);
    assert ElimEq(And, U_NOT_N, U_NOT_N) == (y, y) by {
      assert ExprEq(U_NOT_N, U_NOT_N);
    }
    assert ElimEq(And, S_NOT_Y, y) == (S_NOT_Y, y) by {
      assert !ExprEq(S_NOT_Y, y);
    }
    assert ElimEq(And, Bin(And, U_NOT_N, S_NOT_Y), U_NOT_N) == (Bin(And, y, S_NOT_Y), y);
    assert EliminateYn(Bin(And, y, S_NOT_Y)) == S_NOT_Y;
  }

  /** Below the string symbol FOO with prompt "if n", "depends on FOO=y" is adopted; where FOO holds
      "y" the entry is y, but FOO and the prompt count as n. */
  lemma AdoptionBelowString()
    ensures var dep, v := Some(Comp(true, FOO, SYM_YES)), FooReadsY();
            && Adopts(Some(Sym(SYM_NO)), FOO, dep) && WellTyped(v)
            && EvalDep(dep, v) == YES && v(FOO).tri == NO && EvalDep(Some(Sym(SYM_NO)), v) == NO
  {
    DependsOnString();
  }

  // -------------------------------------------------------------- user values

  /** Under modules, re-setting a tristate with default y and a prompt visible as m to its current
      value y is accepted, but the value it then means is m: the VALID entry y is stale. */
  lemma SetSameValueStale(c: Config, v: Valuation, s: Symbol)
    requires s in c.props && s in c.revDep && s.typ == Tri && Sane(v)
    requires c.props[s] == [Prompt(Some(Sym(SYM_MOD))), Default(None, Sym(SYM_YES))] && c.revDep[s] == None
    ensures var before := Meaning(c, User(false, "", NO), YES, s, v);
            var after := Meaning(c, User(true, "", YES), YES, s, v);
            && before.curr.tri == YES && after.curr.tri == MOD && !Reachable(before, YES)
  {
    var ps := c.props[s];
    assert ps[..1] == [Prompt(Some(Sym(SYM_MOD)))] && ps[..1][..0] == [];
    assert PromptVisibility(ps[..1], v) == MOD;
    assert FirstVisible(ps[1..], true, v) == Some(ps[1]);
  }

  const FOO := Variable(2, "FOO", Str)

  function FooReadsY(): Valuation {
    (s: Symbol) => if s == FOO then Value("y", NO) else AIsMod()(s)
  }

  /** A string symbol that holds "y" counts as n, but what depends on FOO=y is enabled. */
  lemma DependsOnString()
    ensures Depends(Comp(true, FOO, SYM_YES), FOO) && WellTyped(FooReadsY())
    ensures FooReadsY()(FOO).tri == NO && Eval(Comp(true, FOO, SYM_YES), FooReadsY()) == YES
  {
    var v := FooReadsY();
    AIsModWellTyped();
    assert forall s: Symbol :: s != FOO ==> v(s) == AIsMod()(s);
    assert forall s: Symbol :: s.isConst ==> StringValue(v, s) == s.name;
  }

  const CHOICE := Variable(3, "", Tri)

  /** A tristate choice, selected as m, whose one value is never visible */
  const GROUP := Choice.Group(CHOICE, None, Some(Sym(SYM_MOD)), [], [Choice.Member(S, Some(Sym(SYM_NO)))])

  /** Under modules, with the user's value y, it is n for want of a visible value.  Setting it to the n
      that it has is accepted without clearing, but then it means m. */
  lemma SetChoiceStale()
    ensures var w := Choice.Setting(GROUP, YES, AIsMod());
            var u := Choice.Users(Choice.UserTri(true, YES), None, [Choice.UserTri(false, NO)]);
            && Choice.Fits(w, u) && Choice.Quiet(u)
            && Choice.ChoiceOf(w, u).tri == NO
            && Choice.ChoiceOf(w, Choice.SetChoiceUsers(u, NO)).tri == MOD
  {
    var w := Choice.Setting(GROUP, YES, AIsMod());
    assert Choice.Condition(GROUP, GROUP.members[0]) == Bin(And, Sym(CHOICE), Sym(SYM_NO));
    assert Choice.MemberVisible(w, 0, YES) == NO;
    assert Choice.FirstMember(w, 1) == None && Choice.FirstMember(w, 0) == None;
  }
}
