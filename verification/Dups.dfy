// Removing duplicates from a chain: expr_eliminate_dups1, expr_eliminate_dups2,
// expr_extract_eq and the loop of expr_eliminate_dups.
module Dups {
  import opened Wrappers
  import opened Expr
  import opened Cancel
  import opened NormalForm
  import opened Chain
  import opened Join

  /** The tree after a pass and the number of times it bumped trans_count. */
  datatype Pass = Pass(tree: Expr, count: nat)

  // --------------------------------------------------------- expr_eliminate_dups1

  /** e1 and e2 are distinct members: simplify e1 itself, then try to join them. */
  function JoinMembers(op: Op, t: Expr, p1: Path, p2: Path, inner: Pass): (r: Pass)
    requires In(ShapeOf(op, t), p1) && In(ShapeOf(op, t), p2)
    requires ShapeAt(ShapeOf(op, t), p1).Member? && ShapeAt(ShapeOf(op, t), p2).Member?
    requires p1 != p2 && p1 != []
    requires !IsOp(op, inner.tree) && Size(inner.tree) <= Size(At(op, t, p1))
    ensures ShapeOf(op, r.tree) == ShapeOf(op, t)
    ensures Size(r.tree) <= Size(t)
  {
    PutShape(op, t, p1, inner.tree);
    PutSize(op, t, p1, inner.tree);
    PutElsewhere(op, t, p1, p2, inner.tree);
    var t1 := Put(op, t, p1, inner.tree);
    var e1, e2 := inner.tree, At(op, t, p2);
    var j := JoinTerms(op, e1, e2);
    if j.None? then Pass(t1, inner.count)
    else
      var unit := Sym(Unit(op));
      JoinForm(op, e1, e2);
      PutShape(op, t1, p1, unit);
      PutSize(op, t1, p1, unit);
      PutElsewhere(op, t1, p1, p2, unit);
      var t2 := Put(op, t1, p1, unit);
      PutShape(op, t2, p2, j.value);
      PutSize(op, t2, p2, j.value);
      Pass(Put(op, t2, p2, j.value), inner.count + 1)
  }

  /** expr_eliminate_dups1(type, &e1, &e2) with both slots in the chain t */
  function Dups1(op: Op, t: Expr, p1: Path, p2: Path): (r: Pass)
    requires IsOp(op, t)
    requires In(ShapeOf(op, t), p1) && In(ShapeOf(op, t), p2)
    ensures ShapeOf(op, r.tree) == ShapeOf(op, t)
    ensures Size(r.tree) <= Size(t)
    decreases Size(t), 0, ShapeSize(ShapeAt(ShapeOf(op, t), p1)) + ShapeSize(ShapeAt(ShapeOf(op, t), p2))
  {
    var e1, e2 := At(op, t, p1), At(op, t, p2);
    if IsOp(op, e1) then
      InExtend(ShapeOf(op, t), p1, L);
      InExtend(ShapeOf(op, t), p1, R);
      var a := Dups1(op, t, p1 + [L], p2);
      var b := Dups1(op, a.tree, p1 + [R], p2);
      Pass(b.tree, a.count + b.count)
    else if IsOp(op, e2) then
      InExtend(ShapeOf(op, t), p2, L);
      InExtend(ShapeOf(op, t), p2, R);
      var a := Dups1(op, t, p1, p2 + [L]);
      var b := Dups1(op, a.tree, p1, p2 + [R]);
      Pass(b.tree, a.count + b.count)
    else if p1 == p2 then
      Pass(t, 0)
    else
      JoinMembers(op, t, p1, p2, Inner1(op, e1))
  }

  /** A member that is a chain of the other operator is first cleaned on its own. */
  function Inner1(op: Op, e: Expr): (r: Pass)
    requires !IsOp(op, e)
    ensures !IsOp(op, r.tree)
    ensures Size(r.tree) <= Size(e)
    decreases Size(e), 1, 0
  {
    if e.Bin? then Dups1(e.op, e, [], []) else Pass(e, 0)
  }

  // What every pass keeps.

  /** Same value, normal form and two-valuedness. */
  ghost predicate Keeps(t: Expr, t': Expr) {
    && (forall v: Valuation :: WellTyped(v) ==> Eval(t', v) == Eval(t, v))
    && (Normal(t) ==> Normal(t'))
    && (forall v: Valuation :: Sane(v) && TwoValued(t, v) ==> TwoValued(t', v))
  }

  /** A pass that counted nothing changed nothing; one that counted left a constant to fold. */
  ghost predicate Counted(t: Expr, r: Pass) {
    if r.count == 0 then r.tree == t else Reducible(r.tree)
  }

  lemma {:induction false} PutKeeps(op: Op, t: Expr, p: Path, x: Expr)
    requires In(ShapeOf(op, t), p) && Keeps(At(op, t, p), x)
    ensures Keeps(t, Put(op, t, p, x))
  {
    PutSame(op, t, p);
    forall v: Valuation | WellTyped(v)
      ensures Eval(Put(op, t, p, x), v) == Eval(t, v)
    {
      PullOut(op, t, p, x, v);
      PullOut(op, t, p, At(op, t, p), v);
    }
    if Normal(t) {
      AtNormal(op, t, p);
      PutNormal(op, t, p, x);
    }
    forall v: Valuation | Sane(v) && TwoValued(t, v)
      ensures TwoValued(Put(op, t, p, x), v)
    {
      AtTwoValued(op, t, p, v);
      PutTwoValued(op, t, p, x, v);
    }
  }

  /** Moving the join of two members into one of them keeps the chain. */
  lemma {:induction false} MoveKeeps(op: Op, t: Expr, p1: Path, p2: Path, j: Expr)
    requires In(ShapeOf(op, t), p1) && In(ShapeOf(op, t), p2)
    requires ShapeAt(ShapeOf(op, t), p1).Member? && ShapeAt(ShapeOf(op, t), p2).Member?
    requires p1 != p2 && JoinTerms(op, At(op, t, p1), At(op, t, p2)) == Some(j)
    requires ShapeOf(op, Put(op, t, p1, Sym(Unit(op)))) == ShapeOf(op, t)
    ensures Keeps(t, Put(op, Put(op, t, p1, Sym(Unit(op))), p2, j))
  {
    var e1, e2, unit := At(op, t, p1), At(op, t, p2), Sym(Unit(op));
    var t1 := Put(op, t, p1, unit);
    var t2 := Put(op, t1, p2, j);
    PutSame(op, t, p1);
    PutElsewhere(op, t, p1, p2, unit);
    PutSame(op, t1, p2);
    JoinForm(op, e1, e2);
    forall v: Valuation | WellTyped(v)
      ensures Eval(t2, v) == Eval(t, v)
    {
      PullOut(op, t, p1, e1, v);
      PullOut(op, t1, p2, e2, v);
      PullOut(op, t1, p2, j, v);
      JoinSound(op, e1, e2, v);
      ApShuffle(op, Eval(e1, v), Eval(e2, v), Eval(Put(op, t1, p2, unit), v), YES);
    }
    if Normal(t) {
      AtNormal(op, t, p1);
      AtNormal(op, t, p2);
      PutNormal(op, t, p1, unit);
      PutNormal(op, t1, p2, j);
    }
    forall v: Valuation | Sane(v) && TwoValued(t, v)
      ensures TwoValued(t2, v)
    {
      AtTwoValued(op, t, p1, v);
      AtTwoValued(op, t, p2, v);
      PutTwoValued(op, t, p1, unit, v);
      PutTwoValued(op, t1, p2, j, v);
    }
  }

  lemma {:induction false} JoinMembersKeeps(op: Op, t: Expr, p1: Path, p2: Path, inner: Pass)
    requires JoinMembers.requires(op, t, p1, p2, inner)
    requires Counted(At(op, t, p1), inner) && Keeps(At(op, t, p1), inner.tree)
    ensures Counted(t, JoinMembers(op, t, p1, p2, inner))
    ensures Keeps(t, JoinMembers(op, t, p1, p2, inner).tree)
  {
    PutShape(op, t, p1, inner.tree);
    PutElsewhere(op, t, p1, p2, inner.tree);
    PutKeeps(op, t, p1, inner.tree);
    PutSame(op, t, p1);
    var t1 := Put(op, t, p1, inner.tree);
    var e2 := At(op, t, p2);
    var j := JoinTerms(op, inner.tree, e2);
    if j.None? {
      if inner.count > 0 {
        PutReducible(op, t, p1, inner.tree);
      }
    } else {
      var unit := Sym(Unit(op));
      JoinForm(op, inner.tree, e2);
      PutShape(op, t1, p1, unit);
      PutElsewhere(op, t1, p1, p2, unit);
      var t2 := Put(op, t1, p1, unit);
      PutElsewhere(op, t2, p2, p1, j.value);
      ConstantReducible(op, Put(op, t2, p2, j.value), p1);
      MoveKeeps(op, t1, p1, p2, j.value);
      KeepsTransitive(t, t1, Put(op, t2, p2, j.value));
    }
  }

  lemma KeepsTransitive(a: Expr, b: Expr, c: Expr)
    requires Keeps(a, b) && Keeps(b, c)
    ensures Keeps(a, c)
  {
  }

  lemma {:induction false} Inner1Keeps(op: Op, e: Expr)
    requires !IsOp(op, e)
    ensures Counted(e, Inner1(op, e)) && Keeps(e, Inner1(op, e).tree)
    decreases Size(e), 1, 0
  {
    if e.Bin? {
      Dups1Keeps(e.op, e, [], []);
    }
  }

  /** dups1 keeps the three-valued value under every well-typed valuation. */
  lemma {:induction false} Dups1Keeps(op: Op, t: Expr, p1: Path, p2: Path)
    requires IsOp(op, t)
    requires In(ShapeOf(op, t), p1) && In(ShapeOf(op, t), p2)
    ensures Counted(t, Dups1(op, t, p1, p2)) && Keeps(t, Dups1(op, t, p1, p2).tree)
    decreases Size(t), 0, ShapeSize(ShapeAt(ShapeOf(op, t), p1)) + ShapeSize(ShapeAt(ShapeOf(op, t), p2))
  {
    var e1, e2 := At(op, t, p1), At(op, t, p2);
    if IsOp(op, e1) {
      InExtend(ShapeOf(op, t), p1, L);
      InExtend(ShapeOf(op, t), p1, R);
      var a := Dups1(op, t, p1 + [L], p2);
      var b := Dups1(op, a.tree, p1 + [R], p2);
      Dups1Keeps(op, t, p1 + [L], p2);
      Dups1Keeps(op, a.tree, p1 + [R], p2);
      KeepsTransitive(t, a.tree, b.tree);
    } else if IsOp(op, e2) {
      InExtend(ShapeOf(op, t), p2, L);
      InExtend(ShapeOf(op, t), p2, R);
      var a := Dups1(op, t, p1, p2 + [L]);
      var b := Dups1(op, a.tree, p1, p2 + [R]);
      Dups1Keeps(op, t, p1, p2 + [L]);
      Dups1Keeps(op, a.tree, p1, p2 + [R]);
      KeepsTransitive(t, a.tree, b.tree);
    } else if p1 != p2 {
      Inner1Keeps(op, e1);
      JoinMembersKeeps(op, t, p1, p2, Inner1(op, e1));
    }
  }

  // -------------------------------------------------------------- expr_extract_eq

  /** expr_extract_eq: moves the equal members of two chains into acc. */
  function ExtractEq(op: Op, acc: Dep, e1: Expr, e2: Expr): (r: (Dep, Expr, Expr))
    ensures Size(r.1) <= Size(e1) && Size(r.2) <= Size(e2)
    decreases Size(e1) + Size(e2)
  {
    if IsOp(op, e1) then
      var a := ExtractEq(op, acc, e1.left, e2);
      var b := ExtractEq(op, a.0, e1.right, a.2);
      (b.0, Bin(op, a.1, b.1), b.2)
    else if IsOp(op, e2) then
      var a := ExtractEq(op, acc, e1, e2.left);
      var b := ExtractEq(op, a.0, a.1, e2.right);
      (b.0, b.1, Bin(op, a.2, b.2))
    else if ExprEq(e1, e2) then
      (AllocBin(op, acc, Some(e1)), Sym(Unit(op)), Sym(Unit(op)))
    else
      (acc, e1, e2)
  }

  /** expr_extract_eq_and / expr_extract_eq_or */
  function ExtractCommon(op: Op, e1: Expr, e2: Expr): (Dep, Expr, Expr) {
    var r := ExtractEq(op, None, e1, e2);
    if r.0.None? then r else (r.0, EliminateYn(r.1), EliminateYn(r.2))
  }

  function OrUnit(op: Op, d: Dep): Expr {
    if d.None? then Sym(Unit(op)) else d.value
  }

  lemma {:induction false} SplitsAccumulate(op: Op, x: Expr, y: Expr, z: Expr, ca: Expr, cb: Expr)
    requires Splits(op, y, x, ca) && Splits(op, z, y, cb)
    ensures Splits(op, z, x, Bin(op, ca, cb))
  {
    forall v: Valuation | Sane(v)
      ensures Eval(z, v) == Ap(op, Eval(x, v), Eval(Bin(op, ca, cb), v))
    {
      ApShuffle(op, Eval(x, v), Eval(ca, v), Eval(cb, v), YES);
    }
  }

  /** One part c leaves both chains and arrives in the accumulator. */
  ghost predicate Extracted(op: Op, acc: Dep, e1: Expr, e2: Expr, r: (Dep, Expr, Expr), c: Expr) {
    && Splits(op, e1, r.1, c)
    && Splits(op, e2, r.2, c)
    && Splits(op, OrUnit(op, r.0), OrUnit(op, acc), c)
  }

  lemma {:induction false} ExtractMember(op: Op, acc: Dep, e1: Expr, e2: Expr)
    requires !IsOp(op, e1) && !IsOp(op, e2)
    ensures Extracted(op, acc, e1, e2, ExtractEq(op, acc, e1, e2),
                      if ExprEq(e1, e2) then e1 else Sym(Unit(op)))
  {
    if ExprEq(e1, e2) {
      ExprEqSound(e1, e2);
    }
  }

  lemma {:induction false} ExtractEqSplits(op: Op, acc: Dep, e1: Expr, e2: Expr) returns (c: Expr)
    ensures Extracted(op, acc, e1, e2, ExtractEq(op, acc, e1, e2), c)
    decreases Size(e1) + Size(e2)
  {
    if IsOp(op, e1) {
      var a := ExtractEq(op, acc, e1.left, e2);
      var b := ExtractEq(op, a.0, e1.right, a.2);
      var ca := ExtractEqSplits(op, acc, e1.left, e2);
      var cb := ExtractEqSplits(op, a.0, e1.right, a.2);
      SplitsCompose(op, e1.left, a.1, e1.right, b.1, e2, a.2, b.2, ca, cb);
      SplitsAccumulate(op, OrUnit(op, acc), OrUnit(op, a.0), OrUnit(op, b.0), ca, cb);
      c := Bin(op, ca, cb);
    } else if IsOp(op, e2) {
      var a := ExtractEq(op, acc, e1, e2.left);
      var b := ExtractEq(op, a.0, a.1, e2.right);
      var ca := ExtractEqSplits(op, acc, e1, e2.left);
      var cb := ExtractEqSplits(op, a.0, a.1, e2.right);
      SplitsCompose(op, e2.left, a.2, e2.right, b.2, e1, a.1, b.1, ca, cb);
      SplitsAccumulate(op, OrUnit(op, acc), OrUnit(op, a.0), OrUnit(op, b.0), ca, cb);
      c := Bin(op, ca, cb);
    } else {
      ExtractMember(op, acc, e1, e2);
      c := if ExprEq(e1, e2) then e1 else Sym(Unit(op));
    }
  }

  /** Each chain equals its remainder joined with the extracted part. */
  lemma {:induction false} ExtractCommonSound(op: Op, e1: Expr, e2: Expr)
    ensures var r := ExtractCommon(op, e1, e2);
            && Splits(op, e1, r.1, OrUnit(op, r.0))
            && Splits(op, e2, r.2, OrUnit(op, r.0))
  {
    var r := ExtractEq(op, None, e1, e2);
    var c := ExtractEqSplits(op, None, e1, e2);
    forall v: Valuation | Sane(v)
      ensures Eval(EliminateYn(r.1), v) == Eval(r.1, v)
      ensures Eval(EliminateYn(r.2), v) == Eval(r.2, v)
      ensures Eval(OrUnit(op, r.0), v) == Eval(c, v)
    {
      EliminateYnSound(r.1, v);
      EliminateYnSound(r.2, v);
    }
  }

  // --------------------------------------------------------- expr_eliminate_dups2

  /** Every term of !e1 is also a term of e2. */
  predicate Contradicts(op: Op, e1: Expr, e2: Expr) {
    ExtractCommon(op, Transform(Not(e1)), e2).1 == Sym(Unit(op))
  }

  /** The switch on e1->type, after the slots have been told apart. */
  function AnnihilateMember(op: Op, t: Expr, p1: Path, p2: Path, inner: Pass): (r: Pass)
    requires In(ShapeOf(op, t), p1) && In(ShapeOf(op, t), p2)
    requires ShapeAt(ShapeOf(op, t), p1).Member?
    requires !IsOp(op, inner.tree) && Size(inner.tree) <= Size(At(op, t, p1))
    ensures ShapeOf(op, r.tree) == ShapeOf(op, t)
    ensures Size(r.tree) <= Size(t)
  {
    PutShape(op, t, p1, inner.tree);
    PutSize(op, t, p1, inner.tree);
    var t1 := Put(op, t, p1, inner.tree);
    if Contradicts(op, inner.tree, At(op, t1, p2)) then
      PutShape(op, t1, p1, Sym(Zero(op)));
      PutSize(op, t1, p1, Sym(Zero(op)));
      Pass(Put(op, t1, p1, Sym(Zero(op))), inner.count + 1)
    else
      Pass(t1, inner.count)
  }

  /** expr_eliminate_dups2; unlike dups1 it goes on after descending into e2. */
  function Dups2(op: Op, t: Expr, p1: Path, p2: Path): (r: Pass)
    requires IsOp(op, t)
    requires In(ShapeOf(op, t), p1) && In(ShapeOf(op, t), p2)
    ensures ShapeOf(op, r.tree) == ShapeOf(op, t)
    ensures Size(r.tree) <= Size(t)
    decreases Size(t), 0, ShapeSize(ShapeAt(ShapeOf(op, t), p1)) + ShapeSize(ShapeAt(ShapeOf(op, t), p2))
  {
    if IsOp(op, At(op, t, p1)) then
      InExtend(ShapeOf(op, t), p1, L);
      InExtend(ShapeOf(op, t), p1, R);
      var a := Dups2(op, t, p1 + [L], p2);
      var b := Dups2(op, a.tree, p1 + [R], p2);
      Pass(b.tree, a.count + b.count)
    else
      var d := Descend2(op, t, p1, p2);
      var e1 := At(op, d.tree, p1);
      if p1 == p2 || !e1.Bin? then d
      else
        var inner := Dups2(e1.op, e1, [], []);
        var r := AnnihilateMember(op, d.tree, p1, p2, inner);
        Pass(r.tree, d.count + r.count)
  }

  /** if (e2->type == type) { dups2(e1, e2->left); dups2(e1, e2->right); } */
  function Descend2(op: Op, t: Expr, p1: Path, p2: Path): (r: Pass)
    requires IsOp(op, t)
    requires In(ShapeOf(op, t), p1) && In(ShapeOf(op, t), p2)
    requires ShapeAt(ShapeOf(op, t), p1).Member?
    ensures ShapeOf(op, r.tree) == ShapeOf(op, t)
    ensures Size(r.tree) <= Size(t)
    decreases Size(t), 0, ShapeSize(ShapeAt(ShapeOf(op, t), p1)) + ShapeSize(ShapeAt(ShapeOf(op, t), p2)), 0
  {
    if IsOp(op, At(op, t, p2)) then
      InExtend(ShapeOf(op, t), p2, L);
      InExtend(ShapeOf(op, t), p2, R);
      var a := Dups2(op, t, p1, p2 + [L]);
      var b := Dups2(op, a.tree, p1, p2 + [R]);
      Pass(b.tree, a.count + b.count)
    else Pass(t, 0)
  }

  /** dups2 is classical: it keeps the value where every plain symbol leaf is n or y. */
  ghost predicate KeepsClassically(t: Expr, t': Expr) {
    && (forall v: Valuation :: WellTyped(v) && TwoValued(t, v) ==> Eval(t', v) == Eval(t, v) && TwoValued(t', v))
    && (Normal(t) ==> Normal(t'))
  }

  /** A dups2 pass that counted made the tree smaller. */
  ghost predicate Shrunk(t: Expr, r: Pass) {
    if r.count == 0 then r.tree == t else Size(r.tree) < Size(t)
  }

  lemma KeepsClassicallyTransitive(a: Expr, b: Expr, c: Expr)
    requires KeepsClassically(a, b) && KeepsClassically(b, c)
    ensures KeepsClassically(a, c)
  {
  }

  lemma {:induction false} PutKeepsClassically(op: Op, t: Expr, p: Path, x: Expr)
    requires In(ShapeOf(op, t), p) && KeepsClassically(At(op, t, p), x)
    ensures KeepsClassically(t, Put(op, t, p, x))
  {
    PutSame(op, t, p);
    forall v: Valuation | WellTyped(v) && TwoValued(t, v)
      ensures Eval(Put(op, t, p, x), v) == Eval(t, v) && TwoValued(Put(op, t, p, x), v)
    {
      AtTwoValued(op, t, p, v);
      PullOut(op, t, p, x, v);
      PullOut(op, t, p, At(op, t, p), v);
      PutTwoValued(op, t, p, x, v);
    }
    if Normal(t) {
      AtNormal(op, t, p);
      PutNormal(op, t, p, x);
    }
  }

  /** (FOO || BAR) && (!FOO && !BAR) -> n, and the dual: the whole chain is absorbed. */
  lemma {:induction false} ZeroKeepsClassically(op: Op, t: Expr, p1: Path, p2: Path)
    requires In(ShapeOf(op, t), p1) && In(ShapeOf(op, t), p2)
    requires Contradicts(op, At(op, t, p1), At(op, t, p2))
    ensures KeepsClassically(t, Put(op, t, p1, Sym(Zero(op))))
  {
    var e1, e2, zero := At(op, t, p1), At(op, t, p2), Sym(Zero(op));
    var tmp1 := Transform(Not(e1));
    ExtractCommonSound(op, tmp1, e2);
    forall v: Valuation | WellTyped(v) && TwoValued(t, v)
      ensures Eval(Put(op, t, p1, zero), v) == Eval(t, v) && TwoValued(Put(op, t, p1, zero), v)
    {
      AtTwoValued(op, t, p1, v);
      TwoValuedEval(e1, v);
      TransformSound(Not(e1), v);
      Absorbs(op, t, p1, v);
      Absorbs(op, t, p2, v);
      PullOut(op, t, p1, zero, v);
      PutTwoValued(op, t, p1, zero, v);
    }
    if Normal(t) {
      PutNormal(op, t, p1, zero);
    }
  }

  /** In three-valued logic that step is right exactly where the chain is not m, and always
      where the member e1 is not. */
  lemma {:induction false} ZeroExact(op: Op, t: Expr, p1: Path, p2: Path, v: Valuation)
    requires In(ShapeOf(op, t), p1) && In(ShapeOf(op, t), p2)
    requires Contradicts(op, At(op, t, p1), At(op, t, p2)) && WellTyped(v)
    ensures Eval(Put(op, t, p1, Sym(Zero(op))), v) == Eval(t, v) <==> Eval(t, v) != MOD
    ensures Eval(At(op, t, p1), v) != MOD ==> Eval(t, v) != MOD
  {
    var e1, e2, zero := At(op, t, p1), At(op, t, p2), Sym(Zero(op));
    ExtractCommonSound(op, Transform(Not(e1)), e2);
    TransformSound(Not(e1), v);
    Absorbs(op, t, p1, v);
    Absorbs(op, t, p2, v);
    PullOut(op, t, p1, zero, v);
  }

  lemma {:induction false} AnnihilateMemberKeeps(op: Op, t: Expr, p1: Path, p2: Path, inner: Pass)
    requires AnnihilateMember.requires(op, t, p1, p2, inner)
    requires At(op, t, p1).Bin? && inner.tree.Bin?
    requires Shrunk(At(op, t, p1), inner) && KeepsClassically(At(op, t, p1), inner.tree)
    ensures Shrunk(t, AnnihilateMember(op, t, p1, p2, inner))
    ensures KeepsClassically(t, AnnihilateMember(op, t, p1, p2, inner).tree)
  {
    PutShape(op, t, p1, inner.tree);
    PutSize(op, t, p1, inner.tree);
    PutSame(op, t, p1);
    PutKeepsClassically(op, t, p1, inner.tree);
    var t1 := Put(op, t, p1, inner.tree);
    if Contradicts(op, inner.tree, At(op, t1, p2)) {
      ZeroKeepsClassically(op, t1, p1, p2);
      PutSize(op, t1, p1, Sym(Zero(op)));
      KeepsClassicallyTransitive(t, t1, Put(op, t1, p1, Sym(Zero(op))));
    }
  }

  lemma {:induction false} Dups2Keeps(op: Op, t: Expr, p1: Path, p2: Path)
    requires IsOp(op, t)
    requires In(ShapeOf(op, t), p1) && In(ShapeOf(op, t), p2)
    ensures Shrunk(t, Dups2(op, t, p1, p2)) && KeepsClassically(t, Dups2(op, t, p1, p2).tree)
    decreases Size(t), 0, ShapeSize(ShapeAt(ShapeOf(op, t), p1)) + ShapeSize(ShapeAt(ShapeOf(op, t), p2))
  {
    if IsOp(op, At(op, t, p1)) {
      InExtend(ShapeOf(op, t), p1, L);
      InExtend(ShapeOf(op, t), p1, R);
      var a := Dups2(op, t, p1 + [L], p2);
      var b := Dups2(op, a.tree, p1 + [R], p2);
      Dups2Keeps(op, t, p1 + [L], p2);
      Dups2Keeps(op, a.tree, p1 + [R], p2);
      KeepsClassicallyTransitive(t, a.tree, b.tree);
    } else {
      Descend2Keeps(op, t, p1, p2);
      var d := Descend2(op, t, p1, p2);
      var e1 := At(op, d.tree, p1);
      if p1 != p2 && e1.Bin? {
        var inner := Dups2(e1.op, e1, [], []);
        Dups2Keeps(e1.op, e1, [], []);
        assert !IsOp(op, e1) && ShapeOf(e1.op, inner.tree).Node?;
        assert !IsOp(op, inner.tree);
        AnnihilateMemberKeeps(op, d.tree, p1, p2, inner);
        KeepsClassicallyTransitive(t, d.tree, AnnihilateMember(op, d.tree, p1, p2, inner).tree);
      }
    }
  }

  lemma {:induction false} Descend2Keeps(op: Op, t: Expr, p1: Path, p2: Path)
    requires IsOp(op, t)
    requires In(ShapeOf(op, t), p1) && In(ShapeOf(op, t), p2)
    requires ShapeAt(ShapeOf(op, t), p1).Member?
    ensures Shrunk(t, Descend2(op, t, p1, p2)) && KeepsClassically(t, Descend2(op, t, p1, p2).tree)
    decreases Size(t), 0, ShapeSize(ShapeAt(ShapeOf(op, t), p1)) + ShapeSize(ShapeAt(ShapeOf(op, t), p2)), 0
  {
    if IsOp(op, At(op, t, p2)) {
      InExtend(ShapeOf(op, t), p2, L);
      InExtend(ShapeOf(op, t), p2, R);
      var a := Dups2(op, t, p1, p2 + [L]);
      var b := Dups2(op, a.tree, p1, p2 + [R]);
      Dups2Keeps(op, t, p1, p2 + [L]);
      Dups2Keeps(op, a.tree, p1, p2 + [R]);
      KeepsClassicallyTransitive(t, a.tree, b.tree);
    }
  }

  // ---------------------------------------------------------- expr_eliminate_dups

  /** One turn of the loop, before expr_eliminate_yn. */
  function DupsPass(e: Expr): (r: Pass) {
    if e.Bin? then
      var a := Dups1(e.op, e, [], []);
      var b := Dups2(e.op, a.tree, [], []);
      Pass(b.tree, a.count + b.count)
    else Pass(e, 0)
  }

  lemma {:induction false} DupsPassKeeps(e: Expr)
    ensures KeepsClassically(e, DupsPass(e).tree)
    ensures DupsPass(e).count == 0 ==> DupsPass(e).tree == e
    ensures DupsPass(e).count > 0 ==> Size(EliminateYn(DupsPass(e).tree)) < Size(e)
  {
    if e.Bin? {
      var a := Dups1(e.op, e, [], []);
      Dups1Keeps(e.op, e, [], []);
      Dups2Keeps(e.op, a.tree, [], []);
      KeepsClassicallyTransitive(e, a.tree, DupsPass(e).tree);
      if a.count > 0 && DupsPass(e).count == a.count {
        EliminateYnShrinks(a.tree);
      }
    }
  }

  /** What the loop computes; each continuing pass strictly shrinks the tree. */
  function EliminateDups(e: Expr): Expr
    decreases Size(e)
  {
    var r := DupsPass(e);
    DupsPassKeeps(e);
    if r.count == 0 then e else EliminateDups(EliminateYn(r.tree))
  }

  lemma {:induction false} EliminateYnNormal(e: Expr)
    requires Normal(e)
    ensures Normal(EliminateYn(e))
  {
    if e.Bin? {
      EliminateYnNormal(e.left);
      EliminateYnNormal(e.right);
    }
  }

  /** dups1 and the folding after it are exact in three-valued logic. */
  lemma Dups1ThenYnSound(e: Expr, v: Valuation)
    requires e.Bin? && WellTyped(v)
    ensures Eval(EliminateYn(Dups1(e.op, e, [], []).tree), v) == Eval(e, v)
  {
    Dups1Keeps(e.op, e, [], []);
    EliminateYnSound(Dups1(e.op, e, [], []).tree, v);
  }

  /** The whole simplifier keeps the value where every plain symbol leaf is n or y. */
  lemma {:induction false} EliminateDupsSound(e: Expr)
    ensures KeepsClassically(e, EliminateDups(e))
    decreases Size(e)
  {
    var r := DupsPass(e);
    DupsPassKeeps(e);
    if r.count > 0 {
      var e' := EliminateYn(r.tree);
      EliminateDupsSound(e');
      if Normal(e) {
        EliminateYnNormal(r.tree);
      }
      forall v: Valuation | WellTyped(v) && TwoValued(e, v)
        ensures Eval(e', v) == Eval(e, v) && TwoValued(e', v)
      {
        EliminateYnSound(r.tree, v);
      }
      KeepsClassicallyTransitive(e, e', EliminateDups(e));
    }
  }

  /** The result is a fixed point: another call finds nothing to do. */
  lemma {:induction false} EliminateDupsIdempotent(e: Expr)
    ensures DupsPass(EliminateDups(e)).count == 0
    ensures EliminateDups(EliminateDups(e)) == EliminateDups(e)
    decreases Size(e)
  {
    var r := DupsPass(e);
    DupsPassKeeps(e);
    if r.count > 0 {
      EliminateDupsIdempotent(EliminateYn(r.tree));
    }
  }
}
