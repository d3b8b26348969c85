// Expressions as linked nodes (struct expr), rewritten in place: expr_copy,
// expr_eliminate_yn, expr_trans_bool and expr_transform compute on the nodes what the
// functions of the same names compute on values, and touch no other node.
module ExprHeap {
  import opened Wrappers
  import opened Expr
  import opened Cancel
  import opened NormalForm

  type Ref = nat

  datatype Node =
    | SymNode(sym: Symbol)
    | CompNode(eq: bool, lhs: Symbol, rhs: Symbol)
    | NotNode(arg: Ref)
    | BinNode(op: Op, left: Ref, right: Ref)

  type Heap = map<Ref, Node>

  /** The nodes that a traversal of e from r meets. */
  ghost function Nodes(h: Heap, r: Ref, e: Expr): set<Ref>
    decreases e
  {
    match e
    case Sym(_) => {r}
    case Comp(_, _, _) => {r}
    case Not(a) => {r} + (if r in h && h[r].NotNode? then Nodes(h, h[r].arg, a) else {})
    case Bin(_, a, b) =>
      {r} + (if r in h && h[r].BinNode? then Nodes(h, h[r].left, a) + Nodes(h, h[r].right, b) else {})
  }

  /** The nodes from r on form a tree, without sharing, and spell e. */
  ghost predicate Tree(h: Heap, r: Ref, e: Expr)
    decreases e
  {
    && r in h
    && match e
       case Sym(s) => h[r] == SymNode(s)
       case Comp(eq, a, b) => h[r] == CompNode(eq, a, b)
       case Not(a) => h[r].NotNode? && Tree(h, h[r].arg, a) && r !in Nodes(h, h[r].arg, a)
       case Bin(op, a, b) =>
         && h[r].BinNode? && h[r].op == op
         && Tree(h, h[r].left, a) && Tree(h, h[r].right, b)
         && r !in Nodes(h, h[r].left, a) && r !in Nodes(h, h[r].right, b)
         && Nodes(h, h[r].left, a) !! Nodes(h, h[r].right, b)
  }

  lemma {:induction false} TreeNodes(h: Heap, r: Ref, e: Expr)
    requires Tree(h, r, e)
    ensures r in Nodes(h, r, e) && Nodes(h, r, e) <= h.Keys
    decreases e
  {
    match e
    case Not(a) => TreeNodes(h, h[r].arg, a);
    case Bin(_, a, b) =>
      TreeNodes(h, h[r].left, a);
      TreeNodes(h, h[r].right, b);
    case _ =>
  }

  ghost predicate Agree(h: Heap, h': Heap, ids: set<Ref>) {
    forall x: Ref :: x in ids && x in h ==> x in h' && h'[x] == h[x]
  }

  lemma {:induction false} TreeFrame(h: Heap, h': Heap, r: Ref, e: Expr)
    requires Tree(h, r, e) && Agree(h, h', Nodes(h, r, e))
    ensures Tree(h', r, e) && Nodes(h', r, e) == Nodes(h, r, e)
    decreases e
  {
    match e
    case Not(a) => TreeFrame(h, h', h[r].arg, a);
    case Bin(_, a, b) =>
      TreeFrame(h, h', h[r].left, a);
      TreeFrame(h, h', h[r].right, b);
    case _ =>
  }

  /** h' arose from h by writing only to ids and to new nodes, which make up ids' now. */
  ghost predicate Within(h: Heap, h': Heap, ids: set<Ref>, ids': set<Ref>) {
    && h.Keys <= h'.Keys
    && (forall x: Ref :: x in h && x !in ids ==> h'[x] == h[x])
    && (forall x: Ref :: x in ids' ==> x in ids || x !in h)
  }

  lemma WithinTwice(h: Heap, h1: Heap, h2: Heap, ids: set<Ref>, ids1: set<Ref>, ids2: set<Ref>)
    requires Within(h, h1, ids, ids1) && Within(h1, h2, ids1, ids2)
    ensures Within(h, h2, ids, ids2)
  {
  }

  /** A rewrite of one tree leaves another one alone and stays apart from it. */
  lemma Apart(h: Heap, h': Heap, ids: set<Ref>, ids': set<Ref>, r: Ref, e: Expr)
    requires Within(h, h', ids, ids') && Tree(h, r, e) && Nodes(h, r, e) !! ids
    ensures Tree(h', r, e) && Nodes(h', r, e) == Nodes(h, r, e) && Nodes(h', r, e) !! ids'
  {
    TreeNodes(h, r, e);
    TreeFrame(h, h', r, e);
  }

  /** r spells e' now, within the nodes e was spelled with. */
  ghost predicate Becomes(h: Heap, r: Ref, e: Expr, h': Heap, r': Ref, e': Expr) {
    Tree(h', r', e') && Within(h, h', Nodes(h, r, e), Nodes(h', r', e'))
  }

  lemma BecomesTwice(h: Heap, r: Ref, e: Expr, h1: Heap, r1: Ref, e1: Expr, h2: Heap, r2: Ref, e2: Expr)
    requires Becomes(h, r, e, h1, r1, e1) && Becomes(h1, r1, e1, h2, r2, e2)
    ensures Becomes(h, r, e, h2, r2, e2)
  {
    WithinTwice(h, h1, h2, Nodes(h, r, e), Nodes(h1, r1, e1), Nodes(h2, r2, e2));
  }

  /** A parent whose operand was rewritten in place, after its link is set. */
  lemma ArgBecomes(h: Heap, r: Ref, a: Expr, h1: Heap, p: Ref, a': Expr, h': Heap)
    requires Tree(h, r, Not(a)) && Becomes(h, h[r].arg, a, h1, p, a') && h' == h1[r := NotNode(p)]
    ensures Becomes(h, r, Not(a), h', r, Not(a'))
    ensures Tree(h', p, a') && r !in Nodes(h', p, a') && Nodes(h', r, Not(a')) == {r} + Nodes(h', p, a')
  {
    TreeNodes(h, r, Not(a));
    assert r !in Nodes(h1, p, a');
    TreeFrame(h1, h', p, a');
  }

  lemma LeftBecomes(h: Heap, r: Ref, op: Op, a: Expr, b: Expr, h1: Heap, p: Ref, a': Expr, h': Heap)
    requires Tree(h, r, Bin(op, a, b)) && Becomes(h, h[r].left, a, h1, p, a')
    requires h' == h1[r := BinNode(op, p, h[r].right)]
    ensures Becomes(h, r, Bin(op, a, b), h', r, Bin(op, a', b))
  {
    TreeNodes(h, r, Bin(op, a, b));
    assert r !in Nodes(h1, p, a');
    Apart(h, h1, Nodes(h, h[r].left, a), Nodes(h1, p, a'), h[r].right, b);
    TreeFrame(h1, h', p, a');
    TreeFrame(h1, h', h[r].right, b);
  }

  lemma RightBecomes(h: Heap, r: Ref, op: Op, a: Expr, b: Expr, h1: Heap, q: Ref, b': Expr, h': Heap)
    requires Tree(h, r, Bin(op, a, b)) && Becomes(h, h[r].right, b, h1, q, b')
    requires h' == h1[r := BinNode(op, h[r].left, q)]
    ensures Becomes(h, r, Bin(op, a, b), h', r, Bin(op, a, b'))
  {
    TreeNodes(h, r, Bin(op, a, b));
    assert r !in Nodes(h1, q, b');
    Apart(h, h1, Nodes(h, h[r].right, b), Nodes(h1, q, b'), h[r].left, a);
    TreeFrame(h1, h', q, b');
    TreeFrame(h1, h', h[r].left, a);
  }

  /** *e = *operand: the node takes over what one of its operands was. */
  lemma {:induction false} CopyUp(h: Heap, r: Ref, e: Expr, q: Ref, b: Expr, h': Heap)
    requires Tree(h, r, e) && Tree(h, q, b) && Nodes(h, q, b) <= Nodes(h, r, e) && r !in Nodes(h, q, b)
    requires h' == h[r := h[q]]
    ensures Becomes(h, r, e, h', r, b)
  {
    TreeNodes(h, r, e);
    TreeNodes(h, q, b);
    match b
    case Not(c) => TreeFrame(h, h', h[q].arg, c);
    case Bin(_, c, d) =>
      TreeFrame(h, h', h[q].left, c);
      TreeFrame(h, h', h[q].right, d);
    case _ =>
  }

  lemma Wider(h: Heap, h': Heap, ids: set<Ref>, more: set<Ref>, ids': set<Ref>)
    requires Within(h, h', ids, ids') && ids <= more
    ensures Within(h, h', more, ids')
  {
  }

  /** !(a op b): the operand's node becomes !a, a new node !b, and the negation joins them. */
  lemma DeMorganBecomes(h: Heap, r: Ref, t: Ref, op: Op, a: Expr, b: Expr, p: Ref, h': Heap)
    requires Tree(h, r, Not(Bin(op, a, b))) && h[r] == NotNode(t) && t in h && h[t].BinNode? && p !in h
    requires h' == h[p := NotNode(h[t].right)][t := NotNode(h[t].left)][r := BinNode(Dual(op), t, p)]
    ensures Becomes(h, r, Not(Bin(op, a, b)), h', r, Bin(Dual(op), Not(a), Not(b)))
  {
    var x, y := h[t].left, h[t].right;
    TreeNodes(h, r, Not(Bin(op, a, b)));
    TreeNodes(h, t, Bin(op, a, b));
    TreeNodes(h, x, a);
    TreeNodes(h, y, b);
    TreeFrame(h, h', x, a);
    TreeFrame(h, h', y, b);
    assert Tree(h', t, Not(a)) && Tree(h', p, Not(b));
  }

  class Store {
    var cells: Heap
    var next: Ref

    constructor ()
      ensures Valid() && cells == map[]
    {
      cells, next := map[], 0;
    }

    /** malloc returns a node that is not in use. */
    ghost predicate Valid()
      reads this
    {
      forall x: Ref :: x in cells ==> x < next
    }

    method Alloc(n: Node) returns (p: Ref)
      requires Valid()
      modifies this
      ensures Valid() && p !in old(cells) && cells == old(cells)[p := n]
    {
      p := next;
      cells, next := cells[p := n], next + 1;
    }

    /** expr_copy: a second tree of new nodes */
    method Copy(r: Ref, ghost e: Expr) returns (p: Ref)
      requires Valid() && Tree(cells, r, e)
      modifies this
      ensures Valid() && Tree(cells, p, e) && Within(old(cells), cells, {}, Nodes(cells, p, e))
      decreases e
    {
      ghost var h := cells;
      match cells[r]
      case NotNode(a) =>
        var a' := Copy(a, e.arg);
        ghost var h1 := cells;
        TreeNodes(h1, a', e.arg);
        p := Alloc(NotNode(a'));
        TreeFrame(h1, cells, a', e.arg);
      case BinNode(op, a, b) =>
        var a' := Copy(a, e.left);
        ghost var h1 := cells;
        TreeFrame(h, h1, b, e.right);
        var b' := Copy(b, e.right);
        ghost var h2 := cells;
        TreeNodes(h1, a', e.left);
        TreeFrame(h1, h2, a', e.left);
        TreeNodes(h2, b', e.right);
        p := Alloc(BinNode(op, a', b'));
        TreeFrame(h2, cells, a', e.left);
        TreeFrame(h2, cells, b', e.right);
      case n =>
        p := Alloc(n);
    }

    /** The constant tests of expr_eliminate_yn on the node r */
    method FoldAt(r: Ref, ghost op: Op, ghost a: Expr, ghost b: Expr)
      requires Valid() && Tree(cells, r, Bin(op, a, b))
      modifies this`cells
      ensures Valid() && Becomes(old(cells), r, Bin(op, a, b), cells, r, Fold(op, a, b))
    {
      ghost var h, e := cells, Bin(op, a, b);
      var n := cells[r];
      var l, q := cells[n.left], cells[n.right];
      TreeNodes(h, r, e);
      TreeNodes(h, n.left, a);
      TreeNodes(h, n.right, b);
      if l == SymNode(Zero(n.op)) {
        cells := cells[r := l];
      } else if l == SymNode(Unit(n.op)) {
        cells := cells[r := q];
        CopyUp(h, r, e, n.right, b, cells);
      } else if q == SymNode(Zero(n.op)) {
        cells := cells[r := q];
      } else if q == SymNode(Unit(n.op)) {
        cells := cells[r := l];
        CopyUp(h, r, e, n.left, a, cells);
      }
    }

    /** expr_eliminate_yn */
    method EliminateYnAt(r: Ref, ghost e: Expr)
      requires Valid() && Tree(cells, r, e)
      modifies this`cells
      ensures Valid() && Becomes(old(cells), r, e, cells, r, EliminateYn(e))
      decreases e
    {
      TreeNodes(cells, r, e);
      match cells[r]
      case BinNode(op, a, b) =>
        ghost var h, l, q := cells, EliminateYn(e.left), EliminateYn(e.right);
        EliminateYnAt(a, e.left);
        LeftBecomes(h, r, op, e.left, e.right, cells, a, l, cells);
        ghost var h1 := cells;
        EliminateYnAt(b, e.right);
        RightBecomes(h1, r, op, l, e.right, cells, b, q, cells);
        BecomesTwice(h, r, e, h1, r, Bin(op, l, e.right), cells, r, Bin(op, l, q));
        ghost var h2 := cells;
        FoldAt(r, op, l, q);
        BecomesTwice(h, r, e, h2, r, Bin(op, l, q), cells, r, EliminateYn(e));
      case _ =>
    }

    /** expr_trans_bool */
    method TransBoolAt(r: Ref, ghost e: Expr)
      requires Valid() && Tree(cells, r, e)
      modifies this`cells
      ensures Valid() && Becomes(old(cells), r, e, cells, r, TransBool(e))
      decreases e
    {
      TreeNodes(cells, r, e);
      ghost var h := cells;
      match cells[r]
      case NotNode(a) =>
        TransBoolAt(a, e.arg);
        ArgBecomes(h, r, e.arg, cells, a, TransBool(e.arg), cells);
      case BinNode(op, a, b) =>
        TransBoolAt(a, e.left);
        LeftBecomes(h, r, op, e.left, e.right, cells, a, TransBool(e.left), cells);
        ghost var h1 := cells;
        TransBoolAt(b, e.right);
        RightBecomes(h1, r, op, TransBool(e.left), e.right, cells, b, TransBool(e.right), cells);
        BecomesTwice(h, r, e, h1, r, Bin(op, TransBool(e.left), e.right), cells, r, TransBool(e));
      case CompNode(eq, a, b) =>
        if !eq && a.typ == Tri && b == SYM_NO {
          cells := cells[r := SymNode(a)];
        }
      case _ =>
    }

    /** The E_EQUAL and E_UNEQUAL cases of expr_transform */
    method TransformCompAt(r: Ref, eq: bool, a: Symbol, b: Symbol)
      requires Valid() && r in cells && cells[r] == CompNode(eq, a, b)
      modifies this
      ensures Valid() && Becomes(old(cells), r, Comp(eq, a, b), cells, r, TransformComp(eq, a, b))
    {
      if a.typ != Boolean {
        return;
      }
      if b == (if eq then SYM_NO else SYM_YES) {
        var p := Alloc(SymNode(a));
        assert r in cells;
        cells := cells[r := NotNode(p)];
      } else if b == SYM_MOD {
        cells := cells[r := SymNode(if eq then SYM_NO else SYM_YES)];
      } else if b == (if eq then SYM_YES else SYM_NO) {
        cells := cells[r := SymNode(a)];
      }
    }

    /** The E_NOT case of expr_transform, with the operand already transformed into t */
    method TransformNotAt(r: Ref, ghost a: Expr, ghost t: Expr) returns (p: Ref)
      requires Valid() && Tree(cells, r, Not(t)) && t == Transform(a)
      modifies this
      ensures Valid() && Becomes(old(cells), r, Not(t), cells, p, Transform(Not(a)))
      decreases Weight(Not(t)), 0
    {
      ghost var h := cells;
      TreeNodes(h, r, Not(t));
      var arg := cells[r].arg;
      p := r;
      match cells[arg]
      case NotNode(b) =>
        TreeNodes(h, arg, t);
        p := TransformAt(b, t.arg);
        Wider(h, cells, Nodes(h, b, t.arg), Nodes(h, r, Not(t)), Nodes(cells, p, Transform(t.arg)));
      case CompNode(eq, x, y) =>
        cells := cells[arg := CompNode(!eq, x, y)];
        p := arg;
      case BinNode(op, x, y) =>
        var q := Alloc(NotNode(y));
        assert arg in cells && r in cells;
        cells := cells[arg := NotNode(x)];
        cells := cells[r := BinNode(Dual(op), arg, q)];
        ghost var h1, dual := cells, Bin(Dual(op), Not(t.left), Not(t.right));
        DeMorganBecomes(h, r, arg, op, t.left, t.right, q, h1);
        DeMorganLighter(op, t.left, t.right);
        p := TransformAt(r, dual);
        BecomesTwice(h, r, Not(t), h1, r, dual, cells, p, Transform(dual));
      case SymNode(s) =>
        if IsYMN(s) {
          cells := cells[arg := SymNode(if s == SYM_YES then SYM_NO else if s == SYM_NO then SYM_YES else s)];
          p := arg;
        }
    }

    /** expr_transform */
    method TransformAt(r: Ref, ghost e: Expr) returns (p: Ref)
      requires Valid() && Tree(cells, r, e)
      modifies this
      ensures Valid() && Becomes(old(cells), r, e, cells, p, Transform(e))
      decreases Weight(e), 1
    {
      ghost var h := cells;
      TreeNodes(h, r, e);
      p := r;
      match cells[r]
      case CompNode(eq, a, b) =>
        TransformCompAt(r, eq, a, b);
      case NotNode(a) =>
        var a' := TransformAt(a, e.arg);
        ghost var h1, t := cells, Transform(e.arg);
        cells := cells[r := NotNode(a')];
        ArgBecomes(h, r, e.arg, h1, a', t, cells);
        ghost var h2 := cells;
        p := TransformNotAt(r, e.arg, t);
        BecomesTwice(h, r, e, h2, r, Not(t), cells, p, Transform(e));
      case BinNode(op, a, b) =>
        var a' := TransformAt(a, e.left);
        ghost var h1, l, q := cells, Transform(e.left), Transform(e.right);
        cells := cells[r := BinNode(op, a', b)];
        LeftBecomes(h, r, op, e.left, e.right, h1, a', l, cells);
        ghost var h2 := cells;
        var b' := TransformAt(b, e.right);
        ghost var h3 := cells;
        cells := cells[r := BinNode(op, a', b')];
        RightBecomes(h2, r, op, l, e.right, h3, b', q, cells);
        BecomesTwice(h, r, e, h2, r, Bin(op, l, e.right), cells, r, Bin(op, l, q));
      case SymNode(_) =>
    }
  }
}
