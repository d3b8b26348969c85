// The questions menu_finalize asks about dependencies: expr_contains_symbol,
// expr_depends_symbol, expr_trans_compare, and the test that adopts a sibling entry.
module Submenu {
  import opened Wrappers
  import opened Expr
  import opened Cancel
  import opened NormalForm
  import opened Dups
  import opened Join

  /** expr_contains_symbol */
  predicate Contains(e: Expr, s: Symbol) {
    match e
    case Sym(t) => t == s
    case Comp(_, l, r) => l == s || r == s
    case Not(a) => Contains(a, s)
    case Bin(_, l, r) => Contains(l, s) || Contains(r, s)
  }

  /** An expression that does not contain a symbol does not read it. */
  lemma {:induction false} ContainsFrame(e: Expr, s: Symbol, v: Valuation, w: Valuation)
    requires !Contains(e, s)
    requires forall t: Symbol :: t != s ==> v(t) == w(t)
    ensures Eval(e, v) == Eval(e, w)
  {
    match e
    case Not(a) => ContainsFrame(a, s, v, w);
    case Bin(_, l, r) =>
      ContainsFrame(l, s, v, w);
      ContainsFrame(r, s, v, w);
    case _ =>
  }

  /** expr_depends_symbol */
  predicate Depends(e: Expr, s: Symbol) {
    match e
    case Bin(op, l, r) => op == And && (Depends(l, s) || Depends(r, s))
    case Sym(t) => t == s
    case Comp(eq, l, r) => l == s && (if eq then r == SYM_YES || r == SYM_MOD else r == SYM_NO)
    case Not(_) => false
  }

  /** A dependency on s is n whenever s counts as n and reads as "n". */
  lemma {:induction false} DependsOnN(e: Expr, s: Symbol, v: Valuation)
    requires Depends(e, s) && Sane(v) && v(s).tri == NO && StringValue(v, s) == "n"
    ensures Eval(e, v) == NO
  {
    match e
    case Bin(_, l, r) =>
      if Depends(l, s) {
        DependsOnN(l, s, v);
      } else {
        DependsOnN(r, s, v);
      }
    case Comp(_, _, _) => assert "n"[0] != "m"[0] && "n"[0] != "y"[0];
    case Sym(_) =>
  }

  /** For boolean and tristate symbols: whenever s is n. */
  lemma DependsSound(e: Expr, s: Symbol, v: Valuation)
    requires Depends(e, s) && s.IsTristate() && Sane(v) && v(s).tri == NO
    ensures Eval(e, v) == NO
  {
    DependsOnN(e, s, v);
  }

  lemma DependantOn(e: Expr, s: Symbol, v: Valuation)
    requires e == Comp(false, s, SYM_NO) && Sane(v) && StringValue(v, s) != "n"
    ensures Depends(e, s) && Eval(e, v) == YES
  {
  }

  /** For any symbol that counts as n: its dependants are all n exactly when it reads as "n", which
      a string, a number or an undefined symbol usually does not. */
  lemma DependsExact(s: Symbol, v: Valuation)
    requires Sane(v) && v(s).tri == NO
    ensures (forall e: Expr :: Depends(e, s) ==> Eval(e, v) == NO) <==> StringValue(v, s) == "n"
  {
    if StringValue(v, s) == "n" {
      forall e: Expr | Depends(e, s)
        ensures Eval(e, v) == NO
      {
        DependsOnN(e, s, v);
      }
    } else {
      DependantOn(Comp(false, s, SYM_NO), s, v);
    }
  }

  /** m is a member of the AND chain e. */
  predicate Conjunct(e: Expr, m: Expr) {
    if IsOp(And, e) then Conjunct(e.left, m) || Conjunct(e.right, m) else e == m
  }

  /** The four ways in which a condition asks for s */
  predicate AsksFor(m: Expr, s: Symbol) {
    m == Sym(s) || m == Comp(true, s, SYM_YES) || m == Comp(true, s, SYM_MOD) || m == Comp(false, s, SYM_NO)
  }

  /** A dependency is an AND chain that asks for s in one of its members. */
  lemma {:induction false} DependsConjunct(e: Expr, s: Symbol)
    ensures Depends(e, s) <==> exists m: Expr :: Conjunct(e, m) && AsksFor(m, s)
  {
    if IsOp(And, e) {
      DependsConjunct(e.left, s);
      DependsConjunct(e.right, s);
      assert forall m: Expr :: Conjunct(e, m) <==> Conjunct(e.left, m) || Conjunct(e.right, m);
    } else {
      assert Conjunct(e, e) && forall m: Expr :: Conjunct(e, m) ==> m == e;
      assert Depends(e, s) <==> AsksFor(e, s);
    }
  }

  /** Only t and the constants are not n. */
  function OnlyYes(t: Symbol): Valuation {
    (x: Symbol) =>
      if x == SYM_YES then Value("y", YES) else if x == SYM_MOD then Value("m", MOD)
      else if x == SYM_NO then Value("n", NO) else Value(x.name, if x == t then YES else NO)
  }

  lemma OnlyYesWellTyped(t: Symbol)
    ensures WellTyped(OnlyYes(t))
  {
    assert forall x: Symbol :: x.isConst ==> StringValue(OnlyYes(t), x) == x.name;
  }

  /** These are all the leaves of their kind that are n whenever the boolean or tristate s is. */
  lemma DependsLeafExact(e: Expr, s: Symbol)
    requires s.IsTristate()
    requires (e.Sym? && e.sym != SYM_NO) || (e.Comp? && e.lhs == s && IsYMN(e.rhs))
    ensures Depends(e, s) <==> forall v: Valuation :: WellTyped(v) && v(s).tri == NO ==> Eval(e, v) == NO
  {
    if Depends(e, s) {
      forall v: Valuation | WellTyped(v) && v(s).tri == NO
        ensures Eval(e, v) == NO
      {
        DependsSound(e, s, v);
      }
    } else if e.Sym? {
      OnlyYesWellTyped(e.sym);
      assert OnlyYes(e.sym)(s).tri == NO && Eval(e, OnlyYes(e.sym)) != NO;
    } else {
      var v := OnlyYes(SYM_YES);
      OnlyYesWellTyped(SYM_YES);
      assert StringValue(v, s) == "n" && "n"[0] != "m"[0] && "n"[0] != "y"[0];
      assert v(s).tri == NO && Eval(e, v) == YES;
    }
  }

  // ------------------------------------------------------------ expr_trans_compare

  function NegateUnless(eq: bool, e: Expr): Expr {
    if eq then e else Not(e)
  }

  /** expr_trans_compare(e, eq ? E_EQUAL : E_UNEQUAL, sym) against y or n */
  function TransCompare(e: Expr, eq: bool, sym: Symbol): Expr
    requires IsYN(sym)
  {
    match e
    case Bin(op, l, r) =>
      NegateUnless(eq, Bin(if sym == SYM_YES then op else Dual(op),
                           TransCompare(l, true, sym), TransCompare(r, true, sym)))
    case Not(a) => TransCompare(a, !eq, sym)
    case Comp(_, _, _) => NegateUnless(eq == (sym == SYM_YES), e)
    case Sym(s) => Comp(eq, s, sym)
  }

  /** The NULL case */
  function TransCompareDep(d: Dep, eq: bool, sym: Symbol): Expr
    requires IsYN(sym)
  {
    if d.None? then NegateUnless(eq, Sym(sym)) else TransCompare(d.value, eq, sym)
  }

  /** Every plain symbol leaf carries a tristate that its string shows. */
  predicate Logical(e: Expr) {
    match e
    case Sym(s) => s.IsTristate() || IsYMN(s)
    case Comp(_, _, _) => true
    case Not(a) => Logical(a)
    case Bin(_, l, r) => Logical(l) && Logical(r)
  }

  /** E_NOT stands only over subexpressions that are not m. */
  ghost predicate NotsTwoValued(e: Expr, v: Valuation) {
    match e
    case Sym(_) => true
    case Comp(_, _, _) => true
    case Not(a) => Eval(a, v) != MOD && NotsTwoValued(a, v)
    case Bin(_, l, r) => NotsTwoValued(l, v) && NotsTwoValued(r, v)
  }

  lemma {:induction false} TwoValuedNots(e: Expr, v: Valuation)
    requires TwoValued(e, v)
    ensures NotsTwoValued(e, v)
  {
    match e
    case Not(a) =>
      TwoValuedNots(a, v);
      TwoValuedEval(a, v);
    case Bin(_, l, r) =>
      TwoValuedNots(l, v);
      TwoValuedNots(r, v);
    case _ =>
  }

  /** The outcome of comparing the value x with y or n. */
  function Compared(x: Tristate, eq: bool, sym: Symbol, v: Valuation): Tristate {
    if (x == v(sym).tri) == eq then YES else NO
  }

  /** How expr_trans_compare reads e: classically, with a leaf taken for y if its string is "y", in
      a comparison with y, or is not "n", in a comparison with n. */
  function Reading(e: Expr, sym: Symbol, v: Valuation): (r: Tristate)
    ensures r != MOD
  {
    match e
    case Sym(s) => if (StringValue(v, s) == StringValue(v, sym)) == (sym == SYM_YES) then YES else NO
    case Comp(_, _, _) => Eval(e, v)
    case Not(a) => 2 - Reading(a, sym, v)
    case Bin(op, l, r) => Ap(op, Reading(l, sym, v), Reading(r, sym, v))
  }

  /** The rewritten condition compares the reading of e, whatever e is. */
  lemma {:induction false} TransCompareReads(e: Expr, eq: bool, sym: Symbol, v: Valuation)
    requires IsYN(sym) && Sane(v)
    ensures Eval(TransCompare(e, eq, sym), v) ==
            if eq == (sym == SYM_YES) then Reading(e, sym, v) else 2 - Reading(e, sym, v)
  {
    match e
    case Bin(_, l, r) =>
      TransCompareReads(l, true, sym, v);
      TransCompareReads(r, true, sym, v);
    case Not(a) => TransCompareReads(a, !eq, sym, v);
    case _ =>
  }

  /** Comparing with y asks for the value y, comparing with n for at least m. */
  function Level(sym: Symbol): Tristate {
    if sym == SYM_YES then YES else MOD
  }

  /** Where e is at least k, it reads as y: a condition on leaves, reversed below each E_NOT, where
      the threshold matters only if the operand is m. */
  ghost predicate Over(e: Expr, k: Tristate, sym: Symbol, v: Valuation)
    requires 1 <= k
  {
    match e
    case Sym(s) => v(s).tri >= k ==> Reading(e, sym, v) == YES
    case Comp(_, _, _) => true
    case Not(a) => Under(a, 3 - k, sym, v) || (Eval(a, v) != MOD && Under(a, k, sym, v))
    case Bin(_, l, r) => Over(l, k, sym, v) && Over(r, k, sym, v)
  }

  /** Where e reads as y, it is at least k. */
  ghost predicate Under(e: Expr, k: Tristate, sym: Symbol, v: Valuation)
    requires 1 <= k
  {
    match e
    case Sym(s) => Reading(e, sym, v) == YES ==> v(s).tri >= k
    case Comp(_, _, _) => true
    case Not(a) => Over(a, 3 - k, sym, v) || (Eval(a, v) != MOD && Over(a, k, sym, v))
    case Bin(_, l, r) => Under(l, k, sym, v) && Under(r, k, sym, v)
  }

  lemma {:induction false} OverReads(e: Expr, k: Tristate, sym: Symbol, v: Valuation)
    requires 1 <= k && Over(e, k, sym, v)
    ensures Eval(e, v) >= k ==> Reading(e, sym, v) == YES
  {
    match e
    case Not(a) =>
      if Under(a, 3 - k, sym, v) {
        UnderReads(a, 3 - k, sym, v);
      } else {
        UnderReads(a, k, sym, v);
      }
    case Bin(_, l, r) =>
      OverReads(l, k, sym, v);
      OverReads(r, k, sym, v);
    case _ =>
  }

  lemma {:induction false} UnderReads(e: Expr, k: Tristate, sym: Symbol, v: Valuation)
    requires 1 <= k && Under(e, k, sym, v)
    ensures Reading(e, sym, v) == YES ==> Eval(e, v) >= k
  {
    match e
    case Not(a) =>
      if Over(a, 3 - k, sym, v) {
        OverReads(a, 3 - k, sym, v);
      } else {
        OverReads(a, k, sym, v);
      }
    case Bin(_, l, r) =>
      UnderReads(l, k, sym, v);
      UnderReads(r, k, sym, v);
    case _ =>
  }

  /** The rewritten condition is y exactly when the comparison of e's value holds, else n. */
  lemma TransCompareSound(e: Expr, eq: bool, sym: Symbol, v: Valuation)
    requires IsYN(sym) && Sane(v)
    requires Over(e, Level(sym), sym, v) && Under(e, Level(sym), sym, v)
    ensures Eval(TransCompare(e, eq, sym), v) == Compared(Eval(e, v), eq, sym, v)
  {
    TransCompareReads(e, eq, sym, v);
    OverReads(e, Level(sym), sym, v);
    UnderReads(e, Level(sym), sym, v);
  }

  /** For leaves that are tristates, nothing under E_NOT being m is enough. */
  lemma {:induction false} LogicalReads(e: Expr, sym: Symbol, v: Valuation)
    requires IsYN(sym) && Sane(v) && Logical(e) && NotsTwoValued(e, v)
    ensures Over(e, Level(sym), sym, v) && Under(e, Level(sym), sym, v)
  {
    match e
    case Not(a) => LogicalReads(a, sym, v);
    case Bin(_, l, r) =>
      LogicalReads(l, sym, v);
      LogicalReads(r, sym, v);
    case Sym(s) =>
      if s.IsTristate() {
        ConstantStrings(s, v);
      }
    case Comp(_, _, _) =>
  }

  /** Over a negated subexpression the rewrite is right exactly when that is not m. */
  lemma TransCompareNotExact(a: Expr, eq: bool, sym: Symbol, v: Valuation)
    requires IsYN(sym) && Sane(v) && Logical(a) && NotsTwoValued(a, v)
    ensures Eval(TransCompare(Not(a), eq, sym), v) == Compared(Eval(Not(a), v), eq, sym, v)
            <==> Eval(a, v) != MOD
  {
    LogicalReads(a, sym, v);
    TransCompareSound(a, !eq, sym, v);
  }

  /** A leaf that is no tristate counts as n, but its string is what gets compared. */
  lemma TransCompareStringExact(s: Symbol, eq: bool, sym: Symbol, v: Valuation)
    requires IsYN(sym) && Sane(v) && !s.IsTristate() && v(s).tri == NO
    ensures Eval(TransCompare(Sym(s), eq, sym), v) == Compared(Eval(Sym(s), v), eq, sym, v)
            <==> (if sym == SYM_NO then v(s).val == "n" else v(s).val != "y")
  {
  }

  /** Only tests and constants are left as leaves, so the result is never m. */
  lemma {:induction false} TransCompareTwoValued(e: Expr, eq: bool, sym: Symbol, v: Valuation)
    requires IsYN(sym) && Sane(v)
    ensures TwoValued(TransCompare(e, eq, sym), v)
  {
    match e
    case Bin(_, l, r) =>
      TransCompareTwoValued(l, true, sym, v);
      TransCompareTwoValued(r, true, sym, v);
    case Not(a) => TransCompareTwoValued(a, !eq, sym, v);
    case _ =>
  }

  // --------------------------------------------------------- adopting a sibling

  /** expr_eliminate_dups(expr_transform(expr_trans_compare(d, E_UNEQUAL, &symbol_no))) */
  function Enabled(d: Dep): Expr {
    EliminateDups(Transform(TransCompareDep(d, false, SYM_NO)))
  }

  /** The loop body of menu_finalize decides to make the entry a child of sym's entry. */
  predicate Adopts(prompt: Dep, sym: Symbol, dep: Dep) {
    && dep.Some?
    && Contains(dep.value, sym)
    && (Depends(dep.value, sym) || EliminateEq(Enabled(dep), Enabled(prompt)).1 == Sym(SYM_YES))
  }

  /** An entry that asks for the parent's symbol is adopted, whatever the parent's prompt. */
  lemma AdoptsDependant(prompt: Dep, sym: Symbol, dep: Expr, m: Expr)
    requires Conjunct(dep, m) && AsksFor(m, sym)
    ensures Adopts(prompt, sym, Some(dep))
  {
    DependsConjunct(dep, sym);
    DependsContains(dep, sym);
  }

  lemma {:induction false} DependsContains(e: Expr, s: Symbol)
    requires Depends(e, s)
    ensures Contains(e, s)
  {
    if e.Bin? {
      if Depends(e.left, s) {
        DependsContains(e.left, s);
      } else {
        DependsContains(e.right, s);
      }
    }
  }

  function ReadingDep(d: Dep, v: Valuation): (r: Tristate)
    ensures r != MOD
  {
    if d.None? then YES else Reading(d.value, SYM_NO, v)
  }

  /** Enabled(d) has the value that d reads as. */
  lemma EnabledReads(d: Dep, v: Valuation)
    requires WellTyped(v)
    ensures Eval(Enabled(d), v) == ReadingDep(d, v)
  {
    var c := TransCompareDep(d, false, SYM_NO);
    if d.Some? {
      TransCompareReads(d.value, false, SYM_NO, v);
      TransCompareTwoValued(d.value, false, SYM_NO, v);
    }
    TransformSound(c, v);
    TransformTwoValued(c, v);
    EliminateDupsSound(Transform(c));
  }

  /** Where d is not n it reads as y. */
  ghost predicate OverDep(d: Dep, v: Valuation) {
    d.Some? ==> Over(d.value, MOD, SYM_NO, v)
  }

  /** Where d reads as y it is not n. */
  ghost predicate UnderDep(d: Dep, v: Valuation) {
    d.Some? ==> Under(d.value, MOD, SYM_NO, v)
  }

  ghost predicate Comparable(d: Dep, v: Valuation) {
    OverDep(d, v) && UnderDep(d, v)
  }

  /** Enabled(d) is y where d is not n, and n elsewhere. */
  lemma EnabledSound(d: Dep, v: Valuation)
    requires WellTyped(v) && Comparable(d, v)
    ensures Eval(Enabled(d), v) == (if EvalDep(d, v) == NO then NO else YES)
  {
    EnabledReads(d, v);
    if d.Some? {
      OverReads(d.value, MOD, SYM_NO, v);
      UnderReads(d.value, MOD, SYM_NO, v);
    }
  }

  /** The parent symbol reads as "n" where it counts as n, as booleans and tristates do. */
  predicate ReadsAsItCounts(sym: Symbol, v: Valuation) {
    v(sym).tri == NO ==> StringValue(v, sym) == "n"
  }

  lemma {:induction false} DependsReads(e: Expr, s: Symbol, v: Valuation)
    requires Depends(e, s) && Sane(v) && StringValue(v, s) == "n"
    ensures Reading(e, SYM_NO, v) == NO
  {
    match e
    case Bin(_, l, r) =>
      if Depends(l, s) {
        DependsReads(l, s, v);
      } else {
        DependsReads(r, s, v);
      }
    case Comp(_, _, _) => assert "n"[0] != "m"[0] && "n"[0] != "y"[0];
    case Sym(_) =>
  }

  /** What adoption guarantees under every valuation is about how things read: an adopted entry reads
      as n unless the parent's prompt reads as y or the parent's symbol as something other than "n". */
  lemma AdoptionReads(prompt: Dep, sym: Symbol, dep: Dep, v: Valuation)
    requires WellTyped(v) && Adopts(prompt, sym, dep) && ReadingDep(dep, v) == YES
    ensures StringValue(v, sym) != "n" || ReadingDep(prompt, v) == YES
  {
    if Depends(dep.value, sym) {
      if StringValue(v, sym) == "n" {
        DependsReads(dep.value, sym, v);
      }
    } else {
      EnabledReads(dep, v);
      EnabledReads(prompt, v);
      EliminateEqImplies(Enabled(dep), Enabled(prompt), v);
    }
  }

  /** So an adopted entry is enabled only if the parent's symbol or the parent's prompt is: if the entry's
      condition does not read as n where it is not, nor the prompt's as y where it is n. */
  lemma AdoptionSound(prompt: Dep, sym: Symbol, dep: Dep, v: Valuation)
    requires WellTyped(v) && ReadsAsItCounts(sym, v)
    requires UnderDep(prompt, v) && OverDep(dep, v)
    requires Adopts(prompt, sym, dep) && EvalDep(dep, v) != NO
    ensures v(sym).tri != NO || EvalDep(prompt, v) != NO
  {
    OverReads(dep.value, MOD, SYM_NO, v);
    AdoptionReads(prompt, sym, dep, v);
    if prompt.Some? {
      UnderReads(prompt.value, MOD, SYM_NO, v);
    }
  }

  /** Every plain leaf is a boolean, a tristate or y, m or n, and n or y. */
  ghost predicate Classical(d: Dep, v: Valuation) {
    d.Some? ==> Logical(d.value) && TwoValued(d.value, v)
  }

  lemma ClassicalComparable(d: Dep, v: Valuation)
    requires Sane(v) && Classical(d, v)
    ensures Comparable(d, v)
  {
    if d.Some? {
      TwoValuedNots(d.value, v);
      LogicalReads(d.value, SYM_NO, v);
    }
  }

  /** In particular below a boolean or tristate, with such leaves only. */
  lemma AdoptionSoundTwoValued(prompt: Dep, sym: Symbol, dep: Dep, v: Valuation)
    requires WellTyped(v) && sym.IsTristate() && Classical(prompt, v) && Classical(dep, v)
    requires Adopts(prompt, sym, dep) && EvalDep(dep, v) != NO
    ensures v(sym).tri != NO || EvalDep(prompt, v) != NO
  {
    ClassicalComparable(prompt, v);
    ClassicalComparable(dep, v);
    AdoptionSound(prompt, sym, dep, v);
  }
}
