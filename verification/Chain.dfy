// Slots inside a chain of one operator.  expr_eliminate_dups1 and dups2 take two
// "struct expr **" arguments that both point into the same tree; such a pointer is
// the path of the slot from the chain's root here, so that two pointers are equal exactly
// when the paths are, and a write through one is seen through the other.  ChainHeap shows
// that the addresses of the C code behave like these paths.
module Chain {
  import opened Wrappers
  import opened Expr
  import opened Cancel
  import opened NormalForm

  datatype Dir = L | R
  type Path = seq<Dir>

  /** The nodes of a chain: everything that is not the operator is a member. */
  datatype Shape = Member | Node(l: Shape, r: Shape)

  function ShapeOf(op: Op, e: Expr): Shape {
    if IsOp(op, e) then Node(ShapeOf(op, e.left), ShapeOf(op, e.right)) else Member
  }

  function ShapeSize(s: Shape): (n: nat)
    ensures n >= 1
  {
    match s
    case Member => 1
    case Node(l, r) => 1 + ShapeSize(l) + ShapeSize(r)
  }

  predicate In(s: Shape, p: Path) {
    p == [] || (s.Node? && In(if p[0] == L then s.l else s.r, p[1..]))
  }

  function ShapeAt(s: Shape, p: Path): Shape
    requires In(s, p)
  {
    if p == [] then s else ShapeAt(if p[0] == L then s.l else s.r, p[1..])
  }

  /** *ep */
  function At(op: Op, t: Expr, p: Path): (e: Expr)
    requires In(ShapeOf(op, t), p)
    ensures ShapeOf(op, e) == ShapeAt(ShapeOf(op, t), p)
    ensures Size(e) <= Size(t)
    ensures p != [] ==> Size(e) < Size(t)
  {
    if p == [] then t else At(op, if p[0] == L then t.left else t.right, p[1..])
  }

  /** *ep = x */
  function Put(op: Op, t: Expr, p: Path, x: Expr): Expr
    requires In(ShapeOf(op, t), p)
  {
    if p == [] then x
    else if p[0] == L then Bin(op, Put(op, t.left, p[1..], x), t.right)
    else Bin(op, t.left, Put(op, t.right, p[1..], x))
  }

  lemma {:induction false} InExtend(s: Shape, p: Path, d: Dir)
    requires In(s, p) && ShapeAt(s, p).Node?
    ensures In(s, p + [d])
    ensures ShapeAt(s, p + [d]) == (if d == L then ShapeAt(s, p).l else ShapeAt(s, p).r)
  {
    if p == [] {
      assert (p + [d])[1..] == [];
    } else {
      InExtend(if p[0] == L then s.l else s.r, p[1..], d);
      assert (p + [d])[1..] == p[1..] + [d];
    }
  }

  lemma {:induction false} PutSize(op: Op, t: Expr, p: Path, x: Expr)
    requires In(ShapeOf(op, t), p)
    ensures Size(Put(op, t, p, x)) == Size(t) - Size(At(op, t, p)) + Size(x)
  {
    if p != [] {
      PutSize(op, if p[0] == L then t.left else t.right, p[1..], x);
    }
  }

  lemma {:induction false} PutSame(op: Op, t: Expr, p: Path)
    requires In(ShapeOf(op, t), p)
    ensures Put(op, t, p, At(op, t, p)) == t
  {
    if p != [] {
      PutSame(op, if p[0] == L then t.left else t.right, p[1..]);
    }
  }

  /** Overwriting a member by something that is not the operator keeps the chain's shape. */
  lemma {:induction false} PutShape(op: Op, t: Expr, p: Path, x: Expr)
    requires In(ShapeOf(op, t), p) && ShapeAt(ShapeOf(op, t), p).Member? && !IsOp(op, x)
    ensures ShapeOf(op, Put(op, t, p, x)) == ShapeOf(op, t)
    ensures At(op, Put(op, t, p, x), p) == x
  {
    if p != [] {
      PutShape(op, if p[0] == L then t.left else t.right, p[1..], x);
    }
  }

  /** A write to one member is not seen at another one. */
  lemma {:induction false} PutElsewhere(op: Op, t: Expr, p: Path, q: Path, x: Expr)
    requires In(ShapeOf(op, t), p) && ShapeAt(ShapeOf(op, t), p).Member? && !IsOp(op, x)
    requires In(ShapeOf(op, t), q) && ShapeAt(ShapeOf(op, t), q).Member?
    requires p != q
    ensures ShapeOf(op, Put(op, t, p, x)) == ShapeOf(op, t)
    ensures At(op, Put(op, t, p, x), q) == At(op, t, q)
  {
    PutShape(op, t, p, x);
    if p != [] && q != [] && p[0] == q[0] {
      PutElsewhere(op, if p[0] == L then t.left else t.right, p[1..], q[1..], x);
    }
  }

  /** A slot's contribution can be pulled out of the chain. */
  lemma {:induction false} PullOut(op: Op, t: Expr, p: Path, x: Expr, v: Valuation)
    requires In(ShapeOf(op, t), p) && Sane(v)
    ensures Eval(Put(op, t, p, x), v) == Ap(op, Eval(x, v), Eval(Put(op, t, p, Sym(Unit(op))), v))
  {
    if p != [] {
      PullOut(op, if p[0] == L then t.left else t.right, p[1..], x, v);
    }
  }

  /** The chain already contains each of its parts. */
  lemma {:induction false} Absorbs(op: Op, t: Expr, p: Path, v: Valuation)
    requires In(ShapeOf(op, t), p) && Sane(v)
    ensures Ap(op, Eval(t, v), Eval(At(op, t, p), v)) == Eval(t, v)
  {
    PullOut(op, t, p, At(op, t, p), v);
    PutSame(op, t, p);
  }

  lemma {:induction false} PutReducible(op: Op, t: Expr, p: Path, x: Expr)
    requires In(ShapeOf(op, t), p) && Reducible(x)
    ensures Reducible(Put(op, t, p, x))
  {
    if p != [] {
      PutReducible(op, if p[0] == L then t.left else t.right, p[1..], x);
    }
  }

  lemma {:induction false} ConstantReducible(op: Op, t: Expr, p: Path)
    requires In(ShapeOf(op, t), p) && p != []
    requires At(op, t, p).Sym? && IsYN(At(op, t, p).sym)
    ensures Reducible(t)
  {
    if p[1..] != [] {
      ConstantReducible(op, if p[0] == L then t.left else t.right, p[1..]);
    }
  }

  // Properties of a chain that hold of its members.

  lemma {:induction false} AtTwoValued(op: Op, t: Expr, p: Path, v: Valuation)
    requires In(ShapeOf(op, t), p) && TwoValued(t, v)
    ensures TwoValued(At(op, t, p), v)
  {
    if p != [] {
      AtTwoValued(op, if p[0] == L then t.left else t.right, p[1..], v);
    }
  }

  lemma {:induction false} PutTwoValued(op: Op, t: Expr, p: Path, x: Expr, v: Valuation)
    requires In(ShapeOf(op, t), p) && TwoValued(t, v) && TwoValued(x, v)
    ensures TwoValued(Put(op, t, p, x), v)
  {
    if p != [] {
      PutTwoValued(op, if p[0] == L then t.left else t.right, p[1..], x, v);
    }
  }

  lemma {:induction false} AtNormal(op: Op, t: Expr, p: Path)
    requires In(ShapeOf(op, t), p) && Normal(t)
    ensures Normal(At(op, t, p))
  {
    if p != [] {
      AtNormal(op, if p[0] == L then t.left else t.right, p[1..]);
    }
  }

  lemma {:induction false} PutNormal(op: Op, t: Expr, p: Path, x: Expr)
    requires In(ShapeOf(op, t), p) && Normal(t) && Normal(x)
    ensures Normal(Put(op, t, p, x))
  {
    if p != [] {
      PutNormal(op, if p[0] == L then t.left else t.right, p[1..], x);
    }
  }
}
