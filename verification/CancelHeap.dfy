// Cancelling common terms on linked nodes: __expr_eliminate_eq, expr_eliminate_eq and
// expr_eq.  The slots *ep1 and *ep2 lie in two trees that share no node.
module CancelHeap {
  import opened Wrappers
  import opened Expr
  import opened Cancel
  import opened ExprHeap

  /** Two trees without a common node */
  ghost predicate Pair(h: Heap, r1: Ref, e1: Expr, r2: Ref, e2: Expr) {
    Tree(h, r1, e1) && Tree(h, r2, e2) && Nodes(h, r1, e1) !! Nodes(h, r2, e2)
  }

  ghost function PairNodes(h: Heap, r1: Ref, e1: Expr, r2: Ref, e2: Expr): set<Ref> {
    Nodes(h, r1, e1) + Nodes(h, r2, e2)
  }

  /** Both trees were rewritten, within their nodes, and are still apart. */
  ghost predicate PairBecomes(h: Heap, r1: Ref, e1: Expr, r2: Ref, e2: Expr,
                              h': Heap, p1: Ref, x1: Expr, p2: Ref, x2: Expr) {
    && Pair(h', p1, x1, p2, x2)
    && Within(h, h', PairNodes(h, r1, e1, r2, e2), PairNodes(h', p1, x1, p2, x2))
  }

  lemma PairTwice(h: Heap, r1: Ref, e1: Expr, r2: Ref, e2: Expr,
                  h1: Heap, p1: Ref, x1: Expr, p2: Ref, x2: Expr,
                  h2: Heap, q1: Ref, y1: Expr, q2: Ref, y2: Expr)
    requires PairBecomes(h, r1, e1, r2, e2, h1, p1, x1, p2, x2)
    requires PairBecomes(h1, p1, x1, p2, x2, h2, q1, y1, q2, y2)
    ensures PairBecomes(h, r1, e1, r2, e2, h2, q1, y1, q2, y2)
  {
    WithinTwice(h, h1, h2, PairNodes(h, r1, e1, r2, e2), PairNodes(h1, p1, x1, p2, x2),
                PairNodes(h2, q1, y1, q2, y2));
  }

  lemma PairSwap(h: Heap, r1: Ref, e1: Expr, r2: Ref, e2: Expr, h': Heap, p1: Ref, x1: Expr, p2: Ref, x2: Expr)
    requires PairBecomes(h, r1, e1, r2, e2, h', p1, x1, p2, x2)
    ensures PairBecomes(h, r2, e2, r1, e1, h', p2, x2, p1, x1)
  {
    assert PairNodes(h, r1, e1, r2, e2) == PairNodes(h, r2, e2, r1, e1);
    assert PairNodes(h', p1, x1, p2, x2) == PairNodes(h', p2, x2, p1, x1);
  }

  /** Only the first tree was rewritten. */
  lemma PairFirst(h: Heap, r1: Ref, e1: Expr, r2: Ref, e2: Expr, h': Heap, p1: Ref, x1: Expr)
    requires Pair(h, r1, e1, r2, e2) && Becomes(h, r1, e1, h', p1, x1)
    ensures PairBecomes(h, r1, e1, r2, e2, h', p1, x1, r2, e2)
  {
    Apart(h, h', Nodes(h, r1, e1), Nodes(h', p1, x1), r2, e2);
  }

  lemma WriteElsewhere(h: Heap, r: Ref, n: Node, p: Ref, e: Expr)
    requires Tree(h, p, e) && r !in Nodes(h, p, e)
    ensures Tree(h[r := n], p, e) && Nodes(h[r := n], p, e) == Nodes(h, p, e)
  {
    TreeFrame(h, h[r := n], p, e);
  }

  /** Linking two trees below the node r, beside a third one */
  lemma LinkBoth(h: Heap, r: Ref, op: Op, p: Ref, a: Expr, q: Ref, b: Expr, r2: Ref, e2: Expr, h': Heap)
    requires Pair(h, p, a, q, b) && Tree(h, r2, e2) && Nodes(h, r2, e2) !! PairNodes(h, p, a, q, b)
    requires r !in PairNodes(h, p, a, q, b) && r !in Nodes(h, r2, e2)
    requires h' == h[r := BinNode(op, p, q)]
    ensures Pair(h', r, Bin(op, a, b), r2, e2)
    ensures PairNodes(h', r, Bin(op, a, b), r2, e2) == {r} + PairNodes(h, p, a, q, b) + Nodes(h, r2, e2)
  {
    WriteElsewhere(h, r, BinNode(op, p, q), p, a);
    WriteElsewhere(h, r, BinNode(op, p, q), q, b);
    WriteElsewhere(h, r, BinNode(op, p, q), r2, e2);
  }

  /** The left operand of the first tree and the second tree were rewritten, and the link set. */
  lemma PairLeft(h: Heap, r: Ref, op: Op, a: Expr, b: Expr, r2: Ref, e2: Expr,
                 h1: Heap, p: Ref, a': Expr, p2: Ref, x2: Expr, h': Heap)
    requires Pair(h, r, Bin(op, a, b), r2, e2)
    requires PairBecomes(h, h[r].left, a, r2, e2, h1, p, a', p2, x2)
    requires h' == h1[r := BinNode(op, p, h[r].right)]
    ensures PairBecomes(h, r, Bin(op, a, b), r2, e2, h', r, Bin(op, a', b), p2, x2)
  {
    TreeNodes(h, r, Bin(op, a, b));
    Apart(h, h1, PairNodes(h, h[r].left, a, r2, e2), PairNodes(h1, p, a', p2, x2), h[r].right, b);
    LinkBoth(h1, r, op, p, a', h[r].right, b, p2, x2, h');
  }

  lemma PairRight(h: Heap, r: Ref, op: Op, a: Expr, b: Expr, r2: Ref, e2: Expr,
                  h1: Heap, q: Ref, b': Expr, p2: Ref, x2: Expr, h': Heap)
    requires Pair(h, r, Bin(op, a, b), r2, e2)
    requires PairBecomes(h, h[r].right, b, r2, e2, h1, q, b', p2, x2)
    requires h' == h1[r := BinNode(op, h[r].left, q)]
    ensures PairBecomes(h, r, Bin(op, a, b), r2, e2, h', r, Bin(op, a, b'), p2, x2)
  {
    TreeNodes(h, r, Bin(op, a, b));
    Apart(h, h1, PairNodes(h, h[r].right, b, r2, e2), PairNodes(h1, q, b', p2, x2), h[r].left, a);
    LinkBoth(h1, r, op, h[r].left, a, q, b', p2, x2, h');
  }

  /** e1->type == e2->type */
  predicate SameNodeType(n1: Node, n2: Node) {
    match n1
    case SymNode(_) => n2.SymNode?
    case CompNode(eq, _, _) => n2.CompNode? && n2.eq == eq
    case NotNode(_) => n2.NotNode?
    case BinNode(op, _, _) => n2.BinNode? && n2.op == op
  }

  /** __expr_eliminate_eq on the chain of op that starts at r1 */
  method ElimChain(t: Store, op: Op, r1: Ref, r2: Ref, ghost e1: Expr, ghost e2: Expr) returns (p2: Ref)
    requires t.Valid() && Pair(t.cells, r1, e1, r2, e2) && IsOp(op, e1)
    modifies t
    ensures t.Valid() && var x := ElimEq(op, e1, e2);
                         PairBecomes(old(t.cells), r1, e1, r2, e2, t.cells, r1, x.0, p2, x.1)
    decreases Size(e1) + Size(e2), 0, 1
  {
    ghost var h, a := t.cells, ElimEq(op, e1.left, e2);
    ghost var b := ElimEq(op, e1.right, a.1);
    var n := t.cells[r1];
    var l, s := ElimEqAt(t, op, n.left, r2, e1.left, e2);
    ghost var h1 := t.cells;
    assert r1 in h1;
    t.cells := t.cells[r1 := BinNode(op, l, n.right)];
    PairLeft(h, r1, op, e1.left, e1.right, r2, e2, h1, l, a.0, s, a.1, t.cells);
    ghost var h2 := t.cells;
    var q;
    q, p2 := ElimEqAt(t, op, n.right, s, e1.right, a.1);
    ghost var h3 := t.cells;
    t.cells := t.cells[r1 := BinNode(op, l, q)];
    PairRight(h2, r1, op, a.0, e1.right, s, a.1, h3, q, b.0, p2, b.1, t.cells);
    PairTwice(h, r1, e1, r2, e2, h2, r1, Bin(op, a.0, e1.right), s, a.1, t.cells, r1, Bin(op, a.0, b.0), p2, b.1);
  }

  /** The same where the chain starts at r2 and r1 is a term */
  method ElimTerm(t: Store, op: Op, r1: Ref, r2: Ref, ghost e1: Expr, ghost e2: Expr) returns (p1: Ref)
    requires t.Valid() && Pair(t.cells, r1, e1, r2, e2) && !IsOp(op, e1) && IsOp(op, e2)
    modifies t
    ensures t.Valid() && var x := ElimEq(op, e1, e2);
                         PairBecomes(old(t.cells), r1, e1, r2, e2, t.cells, p1, x.0, r2, x.1)
    decreases Size(e1) + Size(e2), 0, 1
  {
    ghost var h, a := t.cells, ElimEq(op, e1, e2.left);
    ghost var b := ElimEq(op, a.0, e2.right);
    var n := t.cells[r2];
    var s, l := ElimEqAt(t, op, r1, n.left, e1, e2.left);
    ghost var h1 := t.cells;
    assert r2 in h1;
    t.cells := t.cells[r2 := BinNode(op, l, n.right)];
    PairSwap(h, r1, e1, n.left, e2.left, h1, s, a.0, l, a.1);
    PairLeft(h, r2, op, e2.left, e2.right, r1, e1, h1, l, a.1, s, a.0, t.cells);
    ghost var h2 := t.cells;
    var q;
    p1, q := ElimEqAt(t, op, s, n.right, a.0, e2.right);
    ghost var h3 := t.cells;
    t.cells := t.cells[r2 := BinNode(op, l, q)];
    PairSwap(h2, s, a.0, n.right, e2.right, h3, p1, b.0, q, b.1);
    PairRight(h2, r2, op, a.1, e2.right, s, a.0, h3, q, b.1, p1, b.0, t.cells);
    PairTwice(h, r2, e2, r1, e1, h2, r2, Bin(op, a.1, e2.right), s, a.0, t.cells, r2, Bin(op, a.1, b.1), p1, b.0);
    PairSwap(h, r2, e2, r1, e1, t.cells, r2, Bin(op, a.1, b.1), p1, b.0);
  }

  /** e1 = expr_alloc_symbol(...); e2 = expr_alloc_symbol(...); */
  method PutSymbols(t: Store, s: Symbol, ghost ids: set<Ref>) returns (p1: Ref, p2: Ref)
    requires t.Valid()
    modifies t
    ensures t.Valid() && Pair(t.cells, p1, Sym(s), p2, Sym(s))
    ensures Within(old(t.cells), t.cells, ids, PairNodes(t.cells, p1, Sym(s), p2, Sym(s)))
  {
    p1 := t.Alloc(SymNode(s));
    p2 := t.Alloc(SymNode(s));
  }

  /** __expr_eliminate_eq; the results are what *ep1 and *ep2 hold afterwards */
  method ElimEqAt(t: Store, op: Op, r1: Ref, r2: Ref, ghost e1: Expr, ghost e2: Expr) returns (p1: Ref, p2: Ref)
    requires t.Valid() && Pair(t.cells, r1, e1, r2, e2)
    modifies t
    ensures t.Valid() && var x := ElimEq(op, e1, e2);
                         PairBecomes(old(t.cells), r1, e1, r2, e2, t.cells, p1, x.0, p2, x.1)
    decreases Size(e1) + Size(e2), if IsOp(op, e1) || IsOp(op, e2) then 0 else 3, 2
  {
    p1, p2 := r1, r2;
    var n1, n2 := t.cells[r1], t.cells[r2];
    if n1.BinNode? && n1.op == op {
      p2 := ElimChain(t, op, r1, r2, e1, e2);
    } else if n2.BinNode? && n2.op == op {
      p1 := ElimTerm(t, op, r1, r2, e1, e2);
    } else if n1.SymNode? && n1 == n2 && IsYN(n1.sym) {
      return;
    } else {
      ghost var h := t.cells;
      var eq := ExprEqAt(t, r1, r2, e1, e2);
      Untouched(h, t.cells, r1, e1, r2, e2);
      if eq {
        ghost var h1 := t.cells;
        p1, p2 := PutSymbols(t, Unit(op), PairNodes(h1, r1, e1, r2, e2));
        PairTwice(h, r1, e1, r2, e2, h1, r1, e1, r2, e2, t.cells, p1, Sym(Unit(op)), p2, Sym(Unit(op)));
      }
    }
  }

  /** New nodes elsewhere do not concern the pair. */
  lemma Untouched(h: Heap, h': Heap, r1: Ref, e1: Expr, r2: Ref, e2: Expr)
    requires Pair(h, r1, e1, r2, e2) && Within(h, h', {}, {})
    ensures PairBecomes(h, r1, e1, r2, e2, h', r1, e1, r2, e2)
  {
    TreeNodes(h, r1, e1);
    TreeNodes(h, r2, e2);
    TreeFrame(h, h', r1, e1);
    TreeFrame(h, h', r2, e2);
  }

  /** expr_eliminate_eq */
  method EliminateEqAt(t: Store, r1: Ref, r2: Ref, ghost e1: Expr, ghost e2: Expr) returns (p1: Ref, p2: Ref)
    requires t.Valid() && Pair(t.cells, r1, e1, r2, e2)
    modifies t
    ensures t.Valid() && var x := EliminateEq(e1, e2);
                         PairBecomes(old(t.cells), r1, e1, r2, e2, t.cells, p1, x.0, p2, x.1)
    decreases Size(e1) + Size(e2), 1
  {
    ghost var h := t.cells;
    ghost var a := if e1.Bin? then ElimEq(e1.op, e1, e2) else (e1, e2);
    ghost var b := if !SameType(a.0, a.1) && a.1.Bin? then ElimEq(a.1.op, a.0, a.1) else a;
    p1, p2 := r1, r2;
    if t.cells[p1].BinNode? {
      p1, p2 := ElimEqAt(t, t.cells[p1].op, p1, p2, e1, e2);
    }
    ghost var h1, s1, s2 := t.cells, p1, p2;
    assert Tree(h1, p1, a.0) && Tree(h1, p2, a.1);
    if !SameNodeType(t.cells[p1], t.cells[p2]) && t.cells[p2].BinNode? {
      p1, p2 := ElimEqAt(t, t.cells[p2].op, p1, p2, a.0, a.1);
    }
    ghost var h2 := t.cells;
    PairTwice(h, r1, e1, r2, e2, h1, s1, a.0, s2, a.1, h2, p1, b.0, p2, b.1);
    EliminateYnBoth(t, p1, p2, b.0, b.1);
    PairTwice(h, r1, e1, r2, e2, h2, p1, b.0, p2, b.1, t.cells, p1, EliminateYn(b.0), p2, EliminateYn(b.1));
  }

  /** e1 = expr_eliminate_yn(e1); e2 = expr_eliminate_yn(e2); */
  method EliminateYnBoth(t: Store, r1: Ref, r2: Ref, ghost e1: Expr, ghost e2: Expr)
    requires t.Valid() && Pair(t.cells, r1, e1, r2, e2)
    modifies t
    ensures t.Valid()
    ensures PairBecomes(old(t.cells), r1, e1, r2, e2, t.cells, r1, EliminateYn(e1), r2, EliminateYn(e2))
  {
    ghost var h, x1, x2 := t.cells, EliminateYn(e1), EliminateYn(e2);
    t.EliminateYnAt(r1, e1);
    ghost var h1 := t.cells;
    PairFirst(h, r1, e1, r2, e2, h1, r1, x1);
    t.EliminateYnAt(r2, e2);
    PairFirst(h1, r2, e2, r1, x1, t.cells, r2, x2);
    PairSwap(h1, r2, e2, r1, x1, t.cells, r2, x2, r1, x1);
    PairTwice(h, r1, e1, r2, e2, h1, r1, x1, r2, e2, t.cells, r1, x1, r2, x2);
  }

  /** The E_AND and E_OR cases of expr_eq: cancel in copies */
  method CompareCopies(t: Store, r1: Ref, r2: Ref, ghost e1: Expr, ghost e2: Expr) returns (res: bool)
    requires t.Valid() && Tree(t.cells, r1, e1) && Tree(t.cells, r2, e2)
    modifies t
    ensures t.Valid() && Within(old(t.cells), t.cells, {}, {})
    ensures var x := EliminateEq(e1, e2); res == (x.0.Sym? && x.1.Sym? && x.0.sym == x.1.sym)
    decreases Size(e1) + Size(e2), 2, 0
  {
    ghost var h := t.cells;
    var c1 := t.Copy(r1, e1);
    ghost var h1 := t.cells;
    TreeNodes(h, r2, e2);
    TreeFrame(h, h1, r2, e2);
    var c2 := t.Copy(r2, e2);
    ghost var h2 := t.cells;
    CopiesApart(h1, c1, e1, h2, c2, e2);
    var p1, p2 := EliminateEqAt(t, c1, c2, e1, e2);
    var n1, n2 := t.cells[p1], t.cells[p2];
    res := n1.SymNode? && n2.SymNode? && n1.sym == n2.sym;
    CopiesLeaveAlone(h, h1, h2, t.cells, Nodes(h1, c1, e1), Nodes(h2, c2, e2),
                     PairNodes(t.cells, p1, EliminateEq(e1, e2).0, p2, EliminateEq(e1, e2).1));
  }

  lemma CopiesApart(h1: Heap, c1: Ref, e1: Expr, h2: Heap, c2: Ref, e2: Expr)
    requires Tree(h1, c1, e1) && Tree(h2, c2, e2) && Within(h1, h2, {}, Nodes(h2, c2, e2))
    ensures Pair(h2, c1, e1, c2, e2) && Nodes(h2, c1, e1) == Nodes(h1, c1, e1)
  {
    TreeNodes(h1, c1, e1);
    TreeFrame(h1, h2, c1, e1);
  }

  lemma CopiesLeaveAlone(h: Heap, h1: Heap, h2: Heap, h3: Heap, ids1: set<Ref>, ids2: set<Ref>, ids3: set<Ref>)
    requires Within(h, h1, {}, ids1) && Within(h1, h2, {}, ids2) && Within(h2, h3, ids1 + ids2, ids3)
    ensures Within(h, h3, {}, {})
  {
  }

  /** expr_eq: the answer, and no node that was in use has changed */
  method ExprEqAt(t: Store, r1: Ref, r2: Ref, ghost e1: Expr, ghost e2: Expr) returns (res: bool)
    requires t.Valid() && Tree(t.cells, r1, e1) && Tree(t.cells, r2, e2)
    modifies t
    ensures t.Valid() && Within(old(t.cells), t.cells, {}, {})
    ensures res == ExprEq(e1, e2)
    decreases Size(e1) + Size(e2), 2, 1
  {
    var n1, n2 := t.cells[r1], t.cells[r2];
    if !SameNodeType(n1, n2) {
      return false;
    }
    match n1
    case CompNode(_, l, r) => res := l == n2.lhs && r == n2.rhs;
    case SymNode(s) => res := s == n2.sym;
    case NotNode(a) => res := ExprEqAt(t, a, n2.arg, e1.arg, e2.arg);
    case BinNode(_, _, _) => res := CompareCopies(t, r1, r2, e1, e2);
  }
}
