// Constant folding and cancellation of common terms: expr_eliminate_yn,
// __expr_eliminate_eq, expr_eliminate_eq and expr_eq.
module Cancel {
  import opened Wrappers
  import opened Expr

  predicate IsSymbol(e: Expr, s: Symbol) {
    e == Sym(s)
  }

  /** The constant folding at one AND/OR node. */
  function Fold(op: Op, l: Expr, r: Expr): Expr {
    if IsSymbol(l, Zero(op)) then l
    else if IsSymbol(l, Unit(op)) then r
    else if IsSymbol(r, Zero(op)) then r
    else if IsSymbol(r, Unit(op)) then l
    else Bin(op, l, r)
  }

  /** expr_eliminate_yn: the C code does not look below E_NOT. */
  function EliminateYn(e: Expr): (r: Expr)
    ensures Size(r) <= Size(e)
  {
    match e
    case Bin(op, l, r) => Fold(op, EliminateYn(l), EliminateYn(r))
    case _ => e
  }

  lemma FoldSound(op: Op, l: Expr, r: Expr, v: Valuation)
    requires Sane(v)
    ensures Eval(Fold(op, l, r), v) == Ap(op, Eval(l, v), Eval(r, v))
    ensures TwoValued(l, v) && TwoValued(r, v) ==> TwoValued(Fold(op, l, r), v)
  {
  }

  lemma {:induction false} EliminateYnSound(e: Expr, v: Valuation)
    requires Sane(v)
    ensures Eval(EliminateYn(e), v) == Eval(e, v)
    ensures TwoValued(e, v) ==> TwoValued(EliminateYn(e), v)
  {
    if e.Bin? {
      EliminateYnSound(e.left, v);
      EliminateYnSound(e.right, v);
      FoldSound(e.op, EliminateYn(e.left), EliminateYn(e.right), v);
    }
  }

  /** Some AND/OR node (reached without crossing E_NOT) has a constant operand. */
  predicate Reducible(e: Expr) {
    e.Bin? && (
      || (e.left.Sym? && IsYN(e.left.sym))
      || (e.right.Sym? && IsYN(e.right.sym))
      || Reducible(e.left)
      || Reducible(e.right))
  }

  lemma {:induction false} EliminateYnShrinks(e: Expr)
    requires Reducible(e)
    ensures Size(EliminateYn(e)) < Size(e)
  {
    if Reducible(e.left) {
      EliminateYnShrinks(e.left);
    } else if Reducible(e.right) {
      EliminateYnShrinks(e.right);
    }
  }

  /** After expr_eliminate_yn no constant operand is left, so a second pass does nothing. */
  lemma {:induction false} EliminateYnComplete(e: Expr)
    ensures !Reducible(EliminateYn(e))
    ensures EliminateYn(EliminateYn(e)) == EliminateYn(e)
  {
    if e.Bin? {
      EliminateYnComplete(e.left);
      EliminateYnComplete(e.right);
    }
  }

  /** It changes exactly the trees in which it finds a constant operand. */
  lemma {:induction false} EliminateYnFixed(e: Expr)
    ensures EliminateYn(e) == e <==> !Reducible(e)
  {
    if Reducible(e) {
      EliminateYnShrinks(e);
    } else if e.Bin? {
      EliminateYnFixed(e.left);
      EliminateYnFixed(e.right);
    }
  }

  // ------------------------------------------------- mutual recursion on pairs
  //
  // __expr_eliminate_eq calls expr_eq on two chain members, and expr_eq calls
  // expr_eliminate_eq on copies of its arguments.  The two trees never share a
  // node here, so a pair of slots is a pair of values.  trans_count is restored by
  // expr_eq and never read by the other caller, so it is not part of these results.

  /** __expr_eliminate_eq */
  function ElimEq(op: Op, e1: Expr, e2: Expr): (r: (Expr, Expr))
    ensures Size(r.0) <= Size(e1) && Size(r.1) <= Size(e2)
    decreases Size(e1) + Size(e2), if IsOp(op, e1) || IsOp(op, e2) then 0 else 3
  {
    if IsOp(op, e1) then
      var a := ElimEq(op, e1.left, e2);
      var b := ElimEq(op, e1.right, a.1);
      (Bin(op, a.0, b.0), b.1)
    else if IsOp(op, e2) then
      var a := ElimEq(op, e1, e2.left);
      var b := ElimEq(op, a.0, e2.right);
      (b.0, Bin(op, a.1, b.1))
    else if e1.Sym? && e1 == e2 && IsYN(e1.sym) then
      (e1, e2)
    else if !ExprEq(e1, e2) then
      (e1, e2)
    else
      (Sym(Unit(op)), Sym(Unit(op)))
  }

  /** expr_eliminate_eq, both arguments non-NULL */
  function EliminateEq(e1: Expr, e2: Expr): (r: (Expr, Expr))
    ensures Size(r.0) <= Size(e1) && Size(r.1) <= Size(e2)
    decreases Size(e1) + Size(e2), 1
  {
    var a := if e1.Bin? then ElimEq(e1.op, e1, e2) else (e1, e2);
    var b := if !SameType(a.0, a.1) && a.1.Bin? then ElimEq(a.1.op, a.0, a.1) else a;
    (EliminateYn(b.0), EliminateYn(b.1))
  }

  /** expr_eq */
  predicate ExprEq(e1: Expr, e2: Expr)
    decreases Size(e1) + Size(e2), 2
  {
    if !SameType(e1, e2) then false
    else match e1
      case Comp(_, l, r) => l == e2.lhs && r == e2.rhs
      case Sym(s) => s == e2.sym
      case Not(a) => ExprEq(a, e2.arg)
      case Bin(_, _, _) =>
        var r := EliminateEq(e1, e2);
        r.0.Sym? && r.1.Sym? && r.0.sym == r.1.sym
  }

  // ------------------------------------------------------------------ soundness

  /** x is y with the common part c joined back on, in every valuation. */
  ghost predicate Splits(op: Op, x: Expr, y: Expr, c: Expr) {
    forall v: Valuation :: Sane(v) ==> Eval(x, v) == Ap(op, Eval(y, v), Eval(c, v))
  }

  ghost predicate Equivalent(x: Expr, y: Expr) {
    forall v: Valuation :: Sane(v) ==> Eval(x, v) == Eval(y, v)
  }

  lemma {:induction false} ApShuffle(op: Op, a: Tristate, b: Tristate, c: Tristate, d: Tristate)
    ensures Ap(op, Ap(op, a, b), Ap(op, c, d)) == Ap(op, Ap(op, a, c), Ap(op, b, d))
    ensures Ap(op, Ap(op, a, b), c) == Ap(op, a, Ap(op, b, c))
    ensures Ap(op, a, b) == Ap(op, b, a)
  {
  }

  /** A chain [l, r] against e2: the parts cancelled with l and then with r add up. */
  lemma {:induction false} SplitsCompose(op: Op, l: Expr, l': Expr, r: Expr, r': Expr,
                                         e0: Expr, e1: Expr, e2: Expr, ca: Expr, cb: Expr)
    requires Splits(op, l, l', ca) && Splits(op, e0, e1, ca)
    requires Splits(op, r, r', cb) && Splits(op, e1, e2, cb)
    ensures Splits(op, Bin(op, l, r), Bin(op, l', r'), Bin(op, ca, cb))
    ensures Splits(op, e0, e2, Bin(op, ca, cb))
  {
    forall v: Valuation | Sane(v)
      ensures Eval(Bin(op, l, r), v) == Ap(op, Eval(Bin(op, l', r'), v), Eval(Bin(op, ca, cb), v))
      ensures Eval(e0, v) == Ap(op, Eval(e2, v), Eval(Bin(op, ca, cb), v))
    {
      ApShuffle(op, Eval(l', v), Eval(ca, v), Eval(r', v), Eval(cb, v));
      ApShuffle(op, Eval(e2, v), Eval(cb, v), Eval(ca, v), YES);
      ApShuffle(op, Eval(ca, v), Eval(cb, v), YES, YES);
    }
  }

  /** What __expr_eliminate_eq removes from both sides is one and the same part. */
  lemma {:induction false} ElimEqCancels(op: Op, e1: Expr, e2: Expr) returns (c: Expr)
    ensures Splits(op, e1, ElimEq(op, e1, e2).0, c)
    ensures Splits(op, e2, ElimEq(op, e1, e2).1, c)
    decreases Size(e1) + Size(e2), if IsOp(op, e1) || IsOp(op, e2) then 0 else 3
  {
    if IsOp(op, e1) {
      var a := ElimEq(op, e1.left, e2);
      var ca := ElimEqCancels(op, e1.left, e2);
      var b := ElimEq(op, e1.right, a.1);
      var cb := ElimEqCancels(op, e1.right, a.1);
      SplitsCompose(op, e1.left, a.0, e1.right, b.0, e2, a.1, b.1, ca, cb);
      c := Bin(op, ca, cb);
    } else if IsOp(op, e2) {
      var a := ElimEq(op, e1, e2.left);
      var ca := ElimEqCancels(op, e1, e2.left);
      var b := ElimEq(op, a.0, e2.right);
      var cb := ElimEqCancels(op, a.0, e2.right);
      SplitsCompose(op, e2.left, a.1, e2.right, b.1, e1, a.0, b.0, ca, cb);
      c := Bin(op, ca, cb);
    } else if (e1.Sym? && e1 == e2 && IsYN(e1.sym)) || !ExprEq(e1, e2) {
      c := Sym(Unit(op));
    } else {
      ExprEqSound(e1, e2);
      c := e1;
    }
  }

  /** expr_eliminate_eq leaving the same symbol on both sides: the originals agree. */
  lemma {:induction false} EliminateEqSound(e1: Expr, e2: Expr)
    ensures Equivalent(EliminateEq(e1, e2).0, EliminateEq(e1, e2).1) ==> Equivalent(e1, e2)
    decreases Size(e1) + Size(e2), 1
  {
    var a := if e1.Bin? then ElimEq(e1.op, e1, e2) else (e1, e2);
    var b := if !SameType(a.0, a.1) && a.1.Bin? then ElimEq(a.1.op, a.0, a.1) else a;
    if e1.Bin? {
      var _ := ElimEqCancels(e1.op, e1, e2);
    }
    if !SameType(a.0, a.1) && a.1.Bin? {
      var _ := ElimEqCancels(a.1.op, a.0, a.1);
    }
    forall v: Valuation | Sane(v)
      ensures Eval(EliminateEq(e1, e2).0, v) == Eval(b.0, v)
      ensures Eval(EliminateEq(e1, e2).1, v) == Eval(b.1, v)
    {
      EliminateYnSound(b.0, v);
      EliminateYnSound(b.1, v);
    }
  }

  /** expr_eq is sound in three-valued logic. */
  lemma {:induction false} ExprEqSound(e1: Expr, e2: Expr)
    requires ExprEq(e1, e2)
    ensures Equivalent(e1, e2)
    decreases Size(e1) + Size(e2), 2
  {
    match e1
    case Sym(_) =>
    case Comp(_, _, _) =>
    case Not(a) => ExprEqSound(a, e2.arg);
    case Bin(_, _, _) => EliminateEqSound(e1, e2);
  }

  /** If expr_eliminate_eq(&dep, &dep2) leaves dep2 equal to y, then dep <= dep2 everywhere. */
  lemma {:induction false} EliminateEqImplies(dep: Expr, dep2: Expr, v: Valuation)
    requires Sane(v)
    requires EliminateEq(dep, dep2).1 == Sym(SYM_YES)
    ensures Eval(dep, v) <= Eval(dep2, v)
  {
    var a := if dep.Bin? then ElimEq(dep.op, dep, dep2) else (dep, dep2);
    var b := if !SameType(a.0, a.1) && a.1.Bin? then ElimEq(a.1.op, a.0, a.1) else a;
    if dep.Bin? {
      var _ := ElimEqCancels(dep.op, dep, dep2);
    }
    if !SameType(a.0, a.1) && a.1.Bin? {
      var _ := ElimEqCancels(a.1.op, a.0, a.1);
    }
    EliminateYnSound(b.1, v);
  }
}
