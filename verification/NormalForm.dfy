// Negation normal form: expr_transform, and expr_trans_bool, which runs on its results.
module NormalForm {
  import opened Wrappers
  import opened Expr

  /** De Morgan steps make the tree larger but not heavier. */
  function Weight(e: Expr): (w: nat)
    ensures w >= 1
  {
    match e
    case Sym(_) => 1
    case Comp(_, _, _) => 2
    case Not(a) => 2 * Weight(a)
    case Bin(_, l, r) => 1 + Weight(l) + Weight(r)
  }

  lemma {:induction false} DeMorganLighter(op: Op, a: Expr, b: Expr)
    ensures Weight(Bin(Dual(op), Not(a), Not(b))) < Weight(Not(Bin(op, a, b)))
  {
    assert Weight(Not(a)) == 2 * Weight(a) && Weight(Not(b)) == 2 * Weight(b);
  }

  /** The E_EQUAL and E_UNEQUAL cases: tests of a boolean against y, m or n. */
  function TransformComp(eq: bool, l: Symbol, r: Symbol): (e: Expr)
    ensures Weight(e) <= 2
  {
    if l.typ != Boolean then Comp(eq, l, r)
    else if r == SYM_NO then (if eq then Not(Sym(l)) else Sym(l))
    else if r == SYM_MOD then (if eq then Sym(SYM_NO) else Sym(SYM_YES))
    else if r == SYM_YES then (if eq then Sym(l) else Not(Sym(l)))
    else Comp(eq, l, r)
  }

  /** expr_transform */
  function Transform(e: Expr): (r: Expr)
    ensures Weight(r) <= Weight(e)
    decreases Weight(e)
  {
    match e
    case Sym(_) => e
    case Comp(eq, l, r) => TransformComp(eq, l, r)
    case Bin(op, l, r) => Bin(op, Transform(l), Transform(r))
    case Not(a) =>
      var a' := Transform(a);
      match a'
      case Not(b) => Transform(b)
      case Comp(eq, l, r) => Comp(!eq, l, r)
      case Bin(op, l, r) =>
        DeMorganLighter(op, l, r);
        Transform(Bin(Dual(op), Not(l), Not(r)))
      case Sym(s) =>
        if s == SYM_YES then Sym(SYM_NO)
        else if s == SYM_MOD then Sym(SYM_MOD)
        else if s == SYM_NO then Sym(SYM_YES)
        else Not(a')
  }

  lemma {:induction false} DeMorgan(op: Op, a: Expr, b: Expr, v: Valuation)
    ensures Eval(Bin(Dual(op), Not(a), Not(b)), v) == Eval(Not(Bin(op, a, b)), v)
  {
  }

  /** The three-valued value is kept under every well-typed valuation. */
  lemma {:induction false} TransformSound(e: Expr, v: Valuation)
    requires WellTyped(v)
    ensures Eval(Transform(e), v) == Eval(e, v)
    decreases Weight(e)
  {
    match e
    case Sym(_) =>
    case Comp(_, _, _) =>
    case Bin(_, l, r) =>
      TransformSound(l, v);
      TransformSound(r, v);
    case Not(a) =>
      TransformSound(a, v);
      match Transform(a)
      case Not(b) => TransformSound(b, v);
      case Bin(op, l, r) =>
        DeMorgan(op, l, r, v);
        DeMorganLighter(op, l, r);
        TransformSound(Bin(Dual(op), Not(l), Not(r)), v);
      case _ =>
  }

  /** Tests of booleans become plain boolean leaves, which a well-typed valuation keeps off m. */
  lemma {:induction false} TransformTwoValued(e: Expr, v: Valuation)
    requires WellTyped(v) && TwoValued(e, v)
    ensures TwoValued(Transform(e), v)
    decreases Weight(e)
  {
    match e
    case Sym(_) =>
    case Comp(_, _, _) =>
    case Bin(_, l, r) =>
      TransformTwoValued(l, v);
      TransformTwoValued(r, v);
    case Not(a) =>
      TransformTwoValued(a, v);
      match Transform(a)
      case Not(b) => TransformTwoValued(b, v);
      case Bin(op, l, r) =>
        DeMorganLighter(op, l, r);
        TransformTwoValued(Bin(Dual(op), Not(l), Not(r)), v);
      case _ =>
  }

  /** E_NOT stands only over a symbol other than y/m/n; no boolean is tested against y/m/n. */
  predicate Normal(e: Expr) {
    match e
    case Sym(_) => true
    case Comp(_, l, r) => !(l.typ == Boolean && IsYMN(r))
    case Not(a) => a.Sym? && !IsYMN(a.sym)
    case Bin(_, l, r) => Normal(l) && Normal(r)
  }

  /** What expr_transform leaves is in normal form. */
  lemma {:induction false} TransformNormal(e: Expr)
    ensures Normal(Transform(e))
    decreases Weight(e)
  {
    match e
    case Sym(_) =>
    case Comp(_, _, _) =>
    case Bin(_, l, r) =>
      TransformNormal(l);
      TransformNormal(r);
    case Not(a) =>
      TransformNormal(a);
      match Transform(a)
      case Not(b) => TransformNormal(b);
      case Bin(op, l, r) =>
        DeMorganLighter(op, l, r);
        TransformNormal(Bin(Dual(op), Not(l), Not(r)));
      case _ =>
  }

  lemma {:induction false} NormalFixed(e: Expr)
    requires Normal(e)
    ensures Transform(e) == e
  {
    match e
    case Bin(_, l, r) =>
      NormalFixed(l);
      NormalFixed(r);
    case Not(a) =>
      assert Transform(a) == a;
    case _ =>
  }

  /** The fixed points of expr_transform are exactly the normal forms, so it is idempotent. */
  lemma {:induction false} TransformIdempotent(e: Expr)
    ensures Transform(e) == e <==> Normal(e)
    ensures Transform(Transform(e)) == Transform(e)
  {
    TransformNormal(e);
    if Normal(e) {
      NormalFixed(e);
    }
    NormalFixed(Transform(e));
  }

  // ------------------------------------------------------------ expr_trans_bool

  /** FOO!=n -> FOO for a tristate FOO, also below E_NOT. */
  function TransBool(e: Expr): Expr {
    match e
    case Sym(_) => e
    case Comp(eq, l, r) => if !eq && l.typ == Tri && r == SYM_NO then Sym(l) else e
    case Not(a) => Not(TransBool(a))
    case Bin(op, l, r) => Bin(op, TransBool(l), TransBool(r))
  }

  lemma {:induction false} TransBoolNormal(e: Expr)
    requires Normal(e)
    ensures Normal(TransBool(e))
  {
    match e
    case Bin(_, l, r) =>
      TransBoolNormal(l);
      TransBoolNormal(r);
    case _ =>
  }

  /** Somewhere a tristate is tested to be other than n. */
  predicate TestsNotN(e: Expr) {
    match e
    case Sym(_) => false
    case Comp(eq, l, r) => !eq && l.typ == Tri && r == SYM_NO
    case Not(a) => TestsNotN(a)
    case Bin(_, l, r) => TestsNotN(l) || TestsNotN(r)
  }

  /** The rewrite removes every such test and touches nothing else. */
  lemma {:induction false} TransBoolExact(e: Expr)
    ensures !TestsNotN(TransBool(e))
    ensures TransBool(e) == e <==> !TestsNotN(e)
  {
    match e
    case Not(a) => TransBoolExact(a);
    case Bin(_, l, r) =>
      TransBoolExact(l);
      TransBoolExact(r);
    case _ =>
  }

  /** On normal forms the rewrite never raises the value and never changes whether it is n. */
  lemma {:induction false} TransBoolKeepsN(e: Expr, v: Valuation)
    requires Sane(v) && Normal(e)
    ensures Eval(TransBool(e), v) <= Eval(e, v)
    ensures Eval(TransBool(e), v) == NO <==> Eval(e, v) == NO
  {
    match e
    case Bin(_, l, r) =>
      TransBoolKeepsN(l, v);
      TransBoolKeepsN(r, v);
    case _ =>
  }

  /** Below E_NOT the rewrite is not harmless: !(FOO!=n) is n where FOO is m, !FOO is m. */
  lemma TransBoolBelowNot(foo: Symbol, v: Valuation)
    requires Sane(v) && foo.typ == Tri
    ensures var e := Not(Comp(false, foo, SYM_NO));
            Eval(TransBool(e), v) == NO <==> (Eval(e, v) == NO && v(foo).tri != MOD)
  {
    var e := Not(Comp(false, foo, SYM_NO));
    assert TransBool(e) == Not(Sym(foo));
    assert StringValue(v, SYM_NO) == "n";
  }
}
