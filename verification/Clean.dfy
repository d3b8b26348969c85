// What expr_eliminate_dups leaves: nowhere in it do two members of a chain join or contradict.
module Clean {
  import opened Wrappers
  import opened Expr
  import opened Cancel
  import opened NormalForm
  import opened Chain
  import opened Join
  import opened Dups

  predicate Slot(op: Op, t: Expr, p: Path) {
    In(ShapeOf(op, t), p)
  }

  /** A slot that holds a member of the chain */
  predicate Holds(op: Op, t: Expr, p: Path) {
    Slot(op, t, p) && ShapeAt(ShapeOf(op, t), p).Member?
  }

  predicate Below(p: Path, q: Path) {
    |p| <= |q| && q[..|p|] == p
  }

  lemma BelowChild(op: Op, t: Expr, p: Path, q: Path)
    requires Slot(op, t, p) && Below(p, q) && p != q
    ensures Below(p + [L], q) || Below(p + [R], q)
  {
    var d := q[|p|];
    assert q[..|p| + 1] == p + [d];
    assert d == L || d == R;
  }

  /** There is no slot below a member. */
  lemma {:induction false} MemberEnds(s: Shape, p: Path, q: Path)
    requires In(s, p) && ShapeAt(s, p).Member? && In(s, q) && Below(p, q)
    ensures q == p
  {
    if p != [] {
      assert p[0] == q[..|p|][0] == q[0];
      assert q[1..][..|p| - 1] == q[..|p|][1..] == p[1..];
      MemberEnds(if p[0] == L then s.l else s.r, p[1..], q[1..]);
      assert q == [q[0]] + q[1..] && p == [p[0]] + p[1..];
    }
  }

  // ---------------------------------------------------------------------- joins

  /** No member at or below p1 joins one at or below p2, and those at p1 are clean themselves. */
  ghost predicate NoJoins(op: Op, t: Expr, p1: Path, p2: Path) {
    forall q1: Path, q2: Path :: Holds(op, t, q1) && Holds(op, t, q2) && Below(p1, q1) && Below(p2, q2) && q1 != q2 ==>
      JoinTerms(op, At(op, t, q1), At(op, t, q2)).None? && Inner1(op, At(op, t, q1)).count == 0
  }

  /** A call of dups1 that counts nothing has met every pair in vain. */
  lemma {:induction false} Dups1Exhausts(op: Op, t: Expr, p1: Path, p2: Path)
    requires IsOp(op, t) && Slot(op, t, p1) && Slot(op, t, p2) && Dups1(op, t, p1, p2).count == 0
    ensures NoJoins(op, t, p1, p2)
    decreases ShapeSize(ShapeAt(ShapeOf(op, t), p1)) + ShapeSize(ShapeAt(ShapeOf(op, t), p2))
  {
    var e1, e2 := At(op, t, p1), At(op, t, p2);
    if IsOp(op, e1) {
      InExtend(ShapeOf(op, t), p1, L);
      InExtend(ShapeOf(op, t), p1, R);
      Dups1Keeps(op, t, p1 + [L], p2);
      Dups1Exhausts(op, t, p1 + [L], p2);
      Dups1Exhausts(op, t, p1 + [R], p2);
      SplitFirst(op, t, p1, p2);
    } else if IsOp(op, e2) {
      InExtend(ShapeOf(op, t), p2, L);
      InExtend(ShapeOf(op, t), p2, R);
      Dups1Keeps(op, t, p1, p2 + [L]);
      Dups1Exhausts(op, t, p1, p2 + [L]);
      Dups1Exhausts(op, t, p1, p2 + [R]);
      SplitSecond(op, t, p1, p2);
    } else {
      MembersJoin(op, t, p1, p2);
    }
  }

  lemma SplitFirst(op: Op, t: Expr, p1: Path, p2: Path)
    requires Slot(op, t, p1) && IsOp(op, At(op, t, p1))
    requires NoJoins(op, t, p1 + [L], p2) && NoJoins(op, t, p1 + [R], p2)
    ensures NoJoins(op, t, p1, p2)
  {
    forall q1: Path, q2: Path | Holds(op, t, q1) && Holds(op, t, q2) && Below(p1, q1) && Below(p2, q2) && q1 != q2
      ensures JoinTerms(op, At(op, t, q1), At(op, t, q2)).None? && Inner1(op, At(op, t, q1)).count == 0
    {
      BelowChild(op, t, p1, q1);
    }
  }

  lemma SplitSecond(op: Op, t: Expr, p1: Path, p2: Path)
    requires Slot(op, t, p2) && IsOp(op, At(op, t, p2))
    requires NoJoins(op, t, p1, p2 + [L]) && NoJoins(op, t, p1, p2 + [R])
    ensures NoJoins(op, t, p1, p2)
  {
    forall q1: Path, q2: Path | Holds(op, t, q1) && Holds(op, t, q2) && Below(p1, q1) && Below(p2, q2) && q1 != q2
      ensures JoinTerms(op, At(op, t, q1), At(op, t, q2)).None? && Inner1(op, At(op, t, q1)).count == 0
    {
      BelowChild(op, t, p2, q2);
    }
  }

  lemma MembersJoin(op: Op, t: Expr, p1: Path, p2: Path)
    requires IsOp(op, t) && Holds(op, t, p1) && Holds(op, t, p2) && Dups1(op, t, p1, p2).count == 0
    ensures NoJoins(op, t, p1, p2)
  {
    var s := ShapeOf(op, t);
    forall q1: Path, q2: Path | Holds(op, t, q1) && Holds(op, t, q2) && Below(p1, q1) && Below(p2, q2) && q1 != q2
      ensures JoinTerms(op, At(op, t, q1), At(op, t, q2)).None? && Inner1(op, At(op, t, q1)).count == 0
    {
      MemberEnds(s, p1, q1);
      MemberEnds(s, p2, q2);
      Inner1Keeps(op, At(op, t, p1));
    }
  }

  // ------------------------------------------------------------- contradictions

  /** No compound member at or below p1 contradicts a slot at or below p2. */
  ghost predicate NoClashes(op: Op, t: Expr, p1: Path, p2: Path) {
    forall q1: Path, q2: Path :: Clashable(op, t, q1, q2) && Below(p1, q1) && Below(p2, q2) ==>
      Apart(op, At(op, t, q1), At(op, t, q2))
  }

  /** dups2 finds nothing to do for e1, nor in it. */
  predicate Apart(op: Op, e1: Expr, e2: Expr) {
    !Contradicts(op, e1, e2) && (e1.Bin? ==> Dups2(e1.op, e1, [], []).count == 0)
  }

  ghost predicate Clashable(op: Op, t: Expr, q1: Path, q2: Path) {
    Holds(op, t, q1) && At(op, t, q1).Bin? && Slot(op, t, q2) && q1 != q2
  }

  /** A call of dups2 that counts nothing has met every pair in vain. */
  lemma {:induction false} Dups2Exhausts(op: Op, t: Expr, p1: Path, p2: Path)
    requires IsOp(op, t) && Slot(op, t, p1) && Slot(op, t, p2) && Dups2(op, t, p1, p2).count == 0
    ensures NoClashes(op, t, p1, p2)
    decreases ShapeSize(ShapeAt(ShapeOf(op, t), p1)) + ShapeSize(ShapeAt(ShapeOf(op, t), p2))
  {
    if IsOp(op, At(op, t, p1)) {
      InExtend(ShapeOf(op, t), p1, L);
      InExtend(ShapeOf(op, t), p1, R);
      Dups2Keeps(op, t, p1 + [L], p2);
      Dups2Exhausts(op, t, p1 + [L], p2);
      Dups2Exhausts(op, t, p1 + [R], p2);
      ClashFirst(op, t, p1, p2);
    } else {
      Descend2Keeps(op, t, p1, p2);
      MemberClash(op, t, p1, p2);
      if IsOp(op, At(op, t, p2)) {
        InExtend(ShapeOf(op, t), p2, L);
        InExtend(ShapeOf(op, t), p2, R);
        Dups2Keeps(op, t, p1, p2 + [L]);
        Dups2Exhausts(op, t, p1, p2 + [L]);
        Dups2Exhausts(op, t, p1, p2 + [R]);
      }
      ClashSecond(op, t, p1, p2);
    }
  }

  lemma ClashFirst(op: Op, t: Expr, p1: Path, p2: Path)
    requires Slot(op, t, p1) && IsOp(op, At(op, t, p1))
    requires NoClashes(op, t, p1 + [L], p2) && NoClashes(op, t, p1 + [R], p2)
    ensures NoClashes(op, t, p1, p2)
  {
    forall q1: Path, q2: Path | Clashable(op, t, q1, q2) && Below(p1, q1) && Below(p2, q2)
      ensures Apart(op, At(op, t, q1), At(op, t, q2))
    {
      BelowChild(op, t, p1, q1);
    }
  }

  lemma MemberClash(op: Op, t: Expr, p1: Path, p2: Path)
    requires IsOp(op, t) && Holds(op, t, p1) && Slot(op, t, p2) && Dups2(op, t, p1, p2).count == 0
    requires Descend2(op, t, p1, p2).tree == t
    ensures Clashable(op, t, p1, p2) ==> Apart(op, At(op, t, p1), At(op, t, p2))
  {
    var e1 := At(op, t, p1);
    if p1 != p2 && e1.Bin? {
      Dups2Keeps(e1.op, e1, [], []);
      PutSame(op, t, p1);
    }
  }

  lemma ClashSecond(op: Op, t: Expr, p1: Path, p2: Path)
    requires Holds(op, t, p1) && Slot(op, t, p2)
    requires Clashable(op, t, p1, p2) ==> Apart(op, At(op, t, p1), At(op, t, p2))
    requires IsOp(op, At(op, t, p2)) ==> NoClashes(op, t, p1, p2 + [L]) && NoClashes(op, t, p1, p2 + [R])
    ensures NoClashes(op, t, p1, p2)
  {
    var s := ShapeOf(op, t);
    forall q1: Path, q2: Path | Clashable(op, t, q1, q2) && Below(p1, q1) && Below(p2, q2)
      ensures Apart(op, At(op, t, q1), At(op, t, q2))
    {
      MemberEnds(s, p1, q1);
      if q2 != p2 {
        if !IsOp(op, At(op, t, p2)) {
          MemberEnds(s, p2, q2);
        }
        BelowChild(op, t, p2, q2);
      }
    }
  }

  // ---------------------------------------------------------------- whole trees

  /** In this chain and in those below its members, nothing is left to do. */
  ghost predicate Clean(e: Expr)
    decreases Size(e)
  {
    e.Bin? ==>
      && (forall p: Path, q: Path :: Holds(e.op, e, p) && Holds(e.op, e, q) && p != q ==>
            JoinTerms(e.op, At(e.op, e, p), At(e.op, e, q)).None?)
      && (forall p: Path, q: Path :: Clashable(e.op, e, p, q) ==> !Contradicts(e.op, At(e.op, e, p), At(e.op, e, q)))
      && (forall p: Path :: Holds(e.op, e, p) && p != [] ==> Clean(At(e.op, e, p)))
  }

  function Leftmost(op: Op, t: Expr): (p: Path)
    ensures Holds(op, t, p)
  {
    if IsOp(op, t) then [L] + Leftmost(op, t.left) else []
  }

  /** Another member beside the one at p */
  function Sibling(op: Op, t: Expr, p: Path): (q: Path)
    requires Holds(op, t, p) && p != []
    ensures Holds(op, t, q) && q != p
  {
    if p[0] == L then [R] + Leftmost(op, t.right) else [L] + Leftmost(op, t.left)
  }

  /** A pass that finds nothing has found nothing in the members either. */
  lemma MemberPass(op: Op, e: Expr, p: Path)
    requires IsOp(op, e) && NoJoins(op, e, [], []) && NoClashes(op, e, [], []) && Holds(op, e, p) && p != []
    ensures DupsPass(At(op, e, p)).count == 0
  {
    var m, q := At(op, e, p), Sibling(op, e, p);
    assert Inner1(op, m).count == 0;
    if m.Bin? {
      Dups1Keeps(m.op, m, [], []);
      assert Clashable(op, e, p, []);
    }
  }

  lemma {:induction false} PassClean(e: Expr)
    requires DupsPass(e).count == 0
    ensures Clean(e)
    decreases Size(e)
  {
    if e.Bin? {
      var op := e.op;
      Dups1Keeps(op, e, [], []);
      Dups1Exhausts(op, e, [], []);
      Dups2Exhausts(op, e, [], []);
      forall p: Path | Holds(op, e, p) && p != []
        ensures Clean(At(op, e, p))
      {
        MemberPass(op, e, p);
        PassClean(At(op, e, p));
      }
    }
  }

  /** The result of expr_eliminate_dups is clean. */
  lemma EliminateDupsClean(e: Expr)
    ensures Clean(EliminateDups(e))
  {
    EliminateDupsIdempotent(e);
    PassClean(EliminateDups(e));
  }

  // -------------------------------------------------------------- two operands

  lemma PairSlots(op: Op, x: Expr, y: Expr, z: Expr)
    requires !IsOp(op, x) && !IsOp(op, y) && !IsOp(op, z)
    ensures var t := Bin(op, x, y);
            && Holds(op, t, [L]) && Holds(op, t, [R]) && At(op, t, [L]) == x && At(op, t, [R]) == y
            && Put(op, t, [L], z) == Bin(op, z, y) && Put(op, t, [R], z) == Bin(op, x, z)
  {
    assert [L][1..] == [] && [R][1..] == [];
  }

  lemma SameSlot(op: Op, t: Expr, p: Path)
    requires IsOp(op, t) && Holds(op, t, p)
    ensures Dups1(op, t, p, p) == Pass(t, 0)
  {
  }

  /** The first operand joins the second one. */
  lemma FirstJoins(op: Op, x: Expr, y: Expr, j: Expr)
    requires !x.Bin? && !y.Bin? && !j.Bin? && JoinTerms(op, x, y) == Some(j)
    ensures Holds(op, Bin(op, x, y), [L])
    ensures Dups1(op, Bin(op, x, y), [L], []) == Pass(Bin(op, Sym(Unit(op)), j), 1)
  {
    var t, unit := Bin(op, x, y), Sym(Unit(op));
    var t' := Bin(op, unit, j);
    PairSlots(op, x, y, x);
    PairSlots(op, x, y, unit);
    PairSlots(op, unit, y, j);
    assert JoinMembers(op, t, [L], [R], Pass(x, 0)) == Pass(t', 1);
    SameSlot(op, t, [L]);
    assert Dups1(op, t, [L], [R]) == Pass(t', 1);
    assert [] + [L] == [L] && [] + [R] == [R];
  }

  /** Then the second one finds nothing. */
  lemma SecondIdle(op: Op, x: Expr, y: Expr)
    requires !x.Bin? && !y.Bin? && JoinTerms(op, y, x).None?
    ensures Holds(op, Bin(op, x, y), [R])
    ensures Dups1(op, Bin(op, x, y), [R], []) == Pass(Bin(op, x, y), 0)
  {
    var t := Bin(op, x, y);
    PairSlots(op, x, y, y);
    assert JoinMembers(op, t, [R], [L], Pass(y, 0)) == Pass(t, 0);
    assert Dups1(op, t, [R], [L]) == Pass(t, 0);
    SameSlot(op, t, [R]);
    assert [] + [L] == [L] && [] + [R] == [R];
  }

  /** Two leaves that join: the first one becomes the neutral constant and the second one the join, to
      which the folding then reduces the chain. */
  lemma PairJoined(op: Op, x: Expr, y: Expr, j: Expr)
    requires !x.Bin? && !y.Bin? && !j.Bin? && JoinTerms(op, x, y) == Some(j)
    requires JoinTerms(op, j, Sym(Unit(op))).None?
    ensures Dups1(op, Bin(op, x, y), [], []) == Pass(Bin(op, Sym(Unit(op)), j), 1)
    ensures EliminateYn(Bin(op, Sym(Unit(op)), j)) == j
  {
    FirstJoins(op, x, y, j);
    SecondIdle(op, Sym(Unit(op)), j);
    assert [] + [L] == [L] && [] + [R] == [R];
  }
}
