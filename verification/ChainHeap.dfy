// Slots of a chain on linked nodes: the addresses that expr_eliminate_dups1 and dups2
// take, read through and write through, are the paths of Chain.
module ChainHeap {
  import opened Wrappers
  import opened Expr
  import opened Cancel
  import opened Chain
  import opened ExprHeap

  /** The address of a "struct expr *": the variable holding the root, or a node's field. */
  datatype Slot = Top | LeftOf(node: Ref) | RightOf(node: Ref)

  /** *ep, where root is what the variable holds */
  function Load(h: Heap, root: Ref, s: Slot): Ref {
    match s
    case Top => root
    case LeftOf(n) => if n in h && h[n].BinNode? then h[n].left else root
    case RightOf(n) => if n in h && h[n].BinNode? then h[n].right else root
  }

  /** The heap after *ep = x, for a slot that is a field */
  function StoreLink(h: Heap, s: Slot, x: Ref): Heap {
    match s
    case LeftOf(n) => if n in h && h[n].BinNode? then h[n := h[n].(left := x)] else h
    case RightOf(n) => if n in h && h[n].BinNode? then h[n := h[n].(right := x)] else h
    case Top => h
  }

  /** Following p from r */
  function Follow(h: Heap, r: Ref, p: Path): Ref
    decreases |p|
  {
    if p == [] || r !in h || !h[r].BinNode? then r
    else Follow(h, if p[0] == L then h[r].left else h[r].right, p[1..])
  }

  /** The slot that p leads to from r */
  function SlotOf(h: Heap, r: Ref, p: Path): Slot
    decreases |p|
  {
    if p == [] then Top
    else if |p| == 1 || r !in h || !h[r].BinNode? then (if p[0] == L then LeftOf(r) else RightOf(r))
    else SlotOf(h, if p[0] == L then h[r].left else h[r].right, p[1..])
  }

  /** The nodes of the chain and the links between them are the same; members may differ. */
  ghost predicate SameChain(h: Heap, h': Heap, r: Ref, s: Shape)
    decreases s
  {
    s.Node? ==>
      && r in h && r in h' && h[r].BinNode? && h'[r].BinNode? && h[r].op == h'[r].op
      && (s.l.Node? ==> h'[r].left == h[r].left && SameChain(h, h', h[r].left, s.l))
      && (s.r.Node? ==> h'[r].right == h[r].right && SameChain(h, h', h[r].right, s.r))
  }

  lemma {:induction false} SameChainTwice(h: Heap, h1: Heap, h2: Heap, r: Ref, s: Shape)
    requires SameChain(h, h1, r, s) && SameChain(h1, h2, r, s)
    ensures SameChain(h, h2, r, s)
    decreases s
  {
    if s.Node? {
      if s.l.Node? {
        SameChainTwice(h, h1, h2, h[r].left, s.l);
      }
      if s.r.Node? {
        SameChainTwice(h, h1, h2, h[r].right, s.r);
      }
    }
  }

  /** A slot keeps its address while the chain's nodes stay. */
  lemma {:induction false} SameSlot(h: Heap, h': Heap, r: Ref, s: Shape, p: Path)
    requires SameChain(h, h', r, s) && In(s, p)
    ensures SlotOf(h', r, p) == SlotOf(h, r, p)
    ensures ShapeAt(s, p).Node? ==> Follow(h', r, p) == Follow(h, r, p)
    decreases |p|
  {
    if p != [] {
      var c := if p[0] == L then s.l else s.r;
      if c.Node? {
        SameSlot(h, h', if p[0] == L then h[r].left else h[r].right, c, p[1..]);
      } else {
        assert p[1..] == [] && ShapeAt(s, p) == c;
      }
    }
  }

  /** Loading through a slot follows its path to the member's or sub-chain's tree. */
  lemma {:induction false} LoadFollows(h: Heap, root: Ref, op: Op, e: Expr, p: Path)
    requires Tree(h, root, e) && In(ShapeOf(op, e), p)
    ensures p != [] ==> var s := SlotOf(h, root, p);
                        !s.Top? && s.node in Nodes(h, root, e) && s.node in h && h[s.node].BinNode?
    ensures Load(h, root, SlotOf(h, root, p)) == Follow(h, root, p)
    ensures Tree(h, Follow(h, root, p), At(op, e, p))
    ensures Nodes(h, Follow(h, root, p), At(op, e, p)) <= Nodes(h, root, e)
    decreases |p|
  {
    if p != [] {
      assert |p| == 1 ==> p[1..] == [];
      TreeNodes(h, root, e);
      LoadFollows(h, if p[0] == L then h[root].left else h[root].right, op,
                  if p[0] == L then e.left else e.right, p[1..]);
    }
  }

  /** The fields of the node a path leads to are the slots of the longer paths. */
  lemma {:induction false} SlotExtend(h: Heap, root: Ref, op: Op, e: Expr, p: Path, d: Dir)
    requires Tree(h, root, e) && In(ShapeOf(op, e), p) && ShapeAt(ShapeOf(op, e), p).Node?
    ensures SlotOf(h, root, p + [d]) ==
            if d == L then LeftOf(Follow(h, root, p)) else RightOf(Follow(h, root, p))
    decreases |p|
  {
    if p == [] {
      assert p + [d] == [d];
    } else {
      assert (p + [d])[1..] == p[1..] + [d];
      SlotExtend(h, if p[0] == L then h[root].left else h[root].right, op,
                 if p[0] == L then e.left else e.right, p[1..], d);
    }
  }

  /** Different members are different nodes: comparing the pointers compares the slots. */
  lemma {:induction false} SamePointer(h: Heap, root: Ref, op: Op, e: Expr, p: Path, q: Path)
    requires Tree(h, root, e) && In(ShapeOf(op, e), p) && In(ShapeOf(op, e), q)
    requires ShapeAt(ShapeOf(op, e), p).Member? && ShapeAt(ShapeOf(op, e), q).Member?
    ensures Follow(h, root, p) == Follow(h, root, q) <==> p == q
    decreases |p|
  {
    if p != [] && q != [] {
      var cp := if p[0] == L then h[root].left else h[root].right;
      var cq := if q[0] == L then h[root].left else h[root].right;
      var ep, eq := if p[0] == L then e.left else e.right, if q[0] == L then e.left else e.right;
      if p[0] == q[0] {
        SamePointer(h, cp, op, ep, p[1..], q[1..]);
        assert p == [p[0]] + p[1..] && q == [q[0]] + q[1..];
      } else {
        LoadFollows(h, cp, op, ep, p[1..]);
        LoadFollows(h, cq, op, eq, q[1..]);
        TreeNodes(h, Follow(h, cp, p[1..]), At(op, ep, p[1..]));
        TreeNodes(h, Follow(h, cq, q[1..]), At(op, eq, q[1..]));
      }
    }
  }

  /** The node above a slot is not below it. */
  lemma RootAbove(h: Heap, root: Ref, op: Op, e: Expr, p: Path)
    requires Tree(h, root, e) && In(ShapeOf(op, e), p) && p != []
    ensures root !in Nodes(h, Follow(h, root, p), At(op, e, p))
  {
    LoadFollows(h, if p[0] == L then h[root].left else h[root].right, op,
                if p[0] == L then e.left else e.right, p[1..]);
  }

  /** What x may share nodes with: only with what it replaces. */
  ghost predicate Fits(h: Heap, root: Ref, op: Op, e: Expr, p: Path, x: Ref, e': Expr) {
    && Tree(h, root, e) && In(ShapeOf(op, e), p) && p != [] && ShapeAt(ShapeOf(op, e), p).Member?
    && Tree(h, x, e') && !IsOp(op, e')
    && Nodes(h, x, e') !! Nodes(h, root, e) - Nodes(h, Follow(h, root, p), At(op, e, p))
  }

  /** *ep = x: the chain with the member replaced, and nothing else written. */
  ghost predicate Stored(h: Heap, root: Ref, op: Op, e: Expr, p: Path, x: Ref, e': Expr, h': Heap)
    requires In(ShapeOf(op, e), p)
  {
    && Tree(h', root, Put(op, e, p, e'))
    && Nodes(h', root, Put(op, e, p, e')) ==
       Nodes(h, root, e) - Nodes(h, Follow(h, root, p), At(op, e, p)) + Nodes(h, x, e')
    && SameChain(h, h', root, ShapeOf(op, e))
    && h'.Keys == h.Keys
    && (forall y: Ref :: y in h && y !in Nodes(h, root, e) ==> h'[y] == h[y])
  }

  lemma StoreLeft(h: Heap, root: Ref, op: Op, e: Expr, x: Ref, e': Expr)
    requires Fits(h, root, op, e, [L], x, e')
    ensures Stored(h, root, op, e, [L], x, e', h[root := h[root].(left := x)])
  {
    var h' := h[root := h[root].(left := x)];
    assert [L][1..] == [];
    RootAbove(h, root, op, e, [L]);
    TreeNodes(h, h[root].right, e.right);
    TreeNodes(h, x, e');
    assert root in Nodes(h, root, e);
    TreeFrame(h, h', x, e');
    TreeFrame(h, h', h[root].right, e.right);
    SameChainAway(h, h', h[root].right, ShapeOf(op, e.right), op, e.right);
    assert Follow(h, root, [L]) == h[root].left && At(op, e, [L]) == e.left;
    assert Put(op, e, [L], e') == Bin(op, e', e.right);
    assert Tree(h', root, Bin(op, e', e.right));
    assert Nodes(h', root, Bin(op, e', e.right)) == {root} + (Nodes(h, x, e') + Nodes(h, h[root].right, e.right));
    assert ShapeAt(ShapeOf(op, e), [L]) == ShapeOf(op, e).l;
    assert SameChain(h, h', root, ShapeOf(op, e));
  }

  lemma StoreRight(h: Heap, root: Ref, op: Op, e: Expr, x: Ref, e': Expr)
    requires Fits(h, root, op, e, [R], x, e')
    ensures Stored(h, root, op, e, [R], x, e', h[root := h[root].(right := x)])
  {
    var h' := h[root := h[root].(right := x)];
    assert [R][1..] == [];
    RootAbove(h, root, op, e, [R]);
    TreeNodes(h, h[root].left, e.left);
    TreeNodes(h, x, e');
    assert root in Nodes(h, root, e);
    TreeFrame(h, h', x, e');
    TreeFrame(h, h', h[root].left, e.left);
    SameChainAway(h, h', h[root].left, ShapeOf(op, e.left), op, e.left);
    assert Follow(h, root, [R]) == h[root].right && At(op, e, [R]) == e.right;
    assert Put(op, e, [R], e') == Bin(op, e.left, e');
    assert Tree(h', root, Bin(op, e.left, e'));
    assert Nodes(h', root, Bin(op, e.left, e')) == {root} + (Nodes(h, h[root].left, e.left) + Nodes(h, x, e'));
    assert ShapeAt(ShapeOf(op, e), [R]) == ShapeOf(op, e).r;
    assert SameChain(h, h', root, ShapeOf(op, e));
  }

  /** A chain none of whose nodes was written is the same. */
  lemma {:induction false} SameChainAway(h: Heap, h': Heap, r: Ref, s: Shape, op: Op, e: Expr)
    requires Tree(h, r, e) && s == ShapeOf(op, e) && Agree(h, h', Nodes(h, r, e))
    ensures SameChain(h, h', r, s)
    decreases e
  {
    TreeNodes(h, r, e);
    if s.Node? {
      SameChainAway(h, h', h[r].left, s.l, op, e.left);
      SameChainAway(h, h', h[r].right, s.r, op, e.right);
    }
  }

  /** The member was replaced inside one operand of root. */
  lemma StoreBelowLeft(h: Heap, root: Ref, op: Op, e: Expr, p: Path, x: Ref, e': Expr, h': Heap)
    requires Fits(h, root, op, e, p, x, e') && |p| > 1 && p[0] == L
    requires Stored(h, h[root].left, op, e.left, p[1..], x, e', h')
    ensures Stored(h, root, op, e, p, x, e', h')
  {
    RootAbove(h, root, op, e, p);
    LoadFollows(h, h[root].left, op, e.left, p[1..]);
    TreeNodes(h, root, e);
    TreeNodes(h, h[root].right, e.right);
    TreeFrame(h, h', h[root].right, e.right);
    SameChainAway(h, h', h[root].right, ShapeOf(op, e.right), op, e.right);
  }

  lemma StoreBelowRight(h: Heap, root: Ref, op: Op, e: Expr, p: Path, x: Ref, e': Expr, h': Heap)
    requires Fits(h, root, op, e, p, x, e') && |p| > 1 && p[0] == R
    requires Stored(h, h[root].right, op, e.right, p[1..], x, e', h')
    ensures Stored(h, root, op, e, p, x, e', h')
  {
    RootAbove(h, root, op, e, p);
    LoadFollows(h, h[root].right, op, e.right, p[1..]);
    TreeNodes(h, root, e);
    TreeNodes(h, h[root].left, e.left);
    TreeFrame(h, h', h[root].left, e.left);
    SameChainAway(h, h', h[root].left, ShapeOf(op, e.left), op, e.left);
  }

  lemma {:induction false} StoreTree(h: Heap, root: Ref, op: Op, e: Expr, p: Path, x: Ref, e': Expr)
    requires Fits(h, root, op, e, p, x, e')
    ensures Stored(h, root, op, e, p, x, e', StoreLink(h, SlotOf(h, root, p), x))
    decreases |p|
  {
    if |p| == 1 {
      if p[0] == L {
        assert p == [L];
        StoreLeft(h, root, op, e, x, e');
      } else {
        assert p == [R];
        StoreRight(h, root, op, e, x, e');
      }
    } else {
      StoreTree(h, if p[0] == L then h[root].left else h[root].right, op,
                if p[0] == L then e.left else e.right, p[1..], x, e');
      if p[0] == L {
        StoreBelowLeft(h, root, op, e, p, x, e', StoreLink(h, SlotOf(h, root, p), x));
      } else {
        StoreBelowRight(h, root, op, e, p, x, e', StoreLink(h, SlotOf(h, root, p), x));
      }
    }
  }

  /** A member that was rewritten in its own nodes, its root staying where it is */
  lemma {:induction false} InnerBecomes(h: Heap, root: Ref, op: Op, e: Expr, p: Path, h': Heap, e': Expr)
    requires Tree(h, root, e) && In(ShapeOf(op, e), p) && ShapeAt(ShapeOf(op, e), p).Member? && !IsOp(op, e')
    requires var r := Follow(h, root, p); Becomes(h, r, At(op, e, p), h', r, e')
    ensures Becomes(h, root, e, h', root, Put(op, e, p, e'))
    ensures SameChain(h, h', root, ShapeOf(op, e))
    decreases |p|
  {
    if p != [] {
      var left := p[0] == L;
      var c, ec := if left then h[root].left else h[root].right, if left then e.left else e.right;
      var d, ed := if left then h[root].right else h[root].left, if left then e.right else e.left;
      InnerBecomes(h, c, op, ec, p[1..], h', e');
      TreeNodes(h, root, e);
      TreeNodes(h, d, ed);
      SameChainAway(h, h', d, ShapeOf(op, ed), op, ed);
      assert h'[root] == h[root];
      assert h' == h'[root := h[root]];
      if left {
        LeftBecomes(h, root, op, e.left, e.right, h', c, Put(op, ec, p[1..], e'), h');
      } else {
        RightBecomes(h, root, op, e.left, e.right, h', c, Put(op, ec, p[1..], e'), h');
      }
    }
  }
}
