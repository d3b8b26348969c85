// Removing duplicates on linked nodes: expr_eliminate_dups1, expr_eliminate_dups2,
// expr_extract_eq and the loop of expr_eliminate_dups, through the slots of ChainHeap.
module DupsHeap {
  import opened Wrappers
  import opened Expr
  import opened Cancel
  import opened NormalForm
  import opened Chain
  import opened Join
  import opened Dups
  import opened ExprHeap
  import opened CancelHeap
  import opened ChainHeap

  // -------------------------------------------------------------- joining terms

  /** As deep as expr_join_or and expr_join_and look into a term */
  predicate IsTerm(e: Expr) {
    e.Sym? || e.Comp? || (e.Not? && (e.arg.Sym? || e.arg.Comp?))
  }

  lemma JoinLooksAtTerms(op: Op, e1: Expr, e2: Expr)
    requires !ExprEq(e1, e2) && JoinTerms(op, e1, e2).Some?
    ensures IsTerm(e1) && IsTerm(e2)
    ensures JoinTerms(op, e1, e2).value.Sym? || JoinTerms(op, e1, e2).value.Comp?
  {
  }

  /** A term, read from its nodes */
  method TermAt(t: Store, r: Ref, ghost e: Expr) returns (v: Option<Expr>)
    requires Tree(t.cells, r, e)
    ensures v == if IsTerm(e) then Some(e) else None
  {
    match t.cells[r]
    case SymNode(s) => v := Some(Sym(s));
    case CompNode(eq, a, b) => v := Some(Comp(eq, a, b));
    case NotNode(a) =>
      v := None;
      assert Tree(t.cells, a, e.arg);
      match t.cells[a] {
        case SymNode(s) => v := Some(Not(Sym(s)));
        case CompNode(eq, x, y) => v := Some(Not(Comp(eq, x, y)));
        case _ =>
      }
    case BinNode(_, _, _) => v := None;
  }

  ghost predicate Joined(h: Heap, h': Heap, p: Option<Ref>, j: Option<Expr>) {
    && (p.Some? <==> j.Some?)
    && (if p.Some? then Tree(h', p.value, j.value) && Within(h, h', {}, Nodes(h', p.value, j.value))
        else Within(h, h', {}, {}))
  }

  /** The cases of expr_join_or and expr_join_and behind the expr_eq test */
  method JoinUnequal(t: Store, op: Op, r1: Ref, r2: Ref, ghost e1: Expr, ghost e2: Expr) returns (p: Option<Ref>)
    requires t.Valid() && Tree(t.cells, r1, e1) && Tree(t.cells, r2, e2) && !ExprEq(e1, e2)
    modifies t
    ensures t.Valid() && Joined(old(t.cells), t.cells, p, JoinTerms(op, e1, e2))
  {
    if JoinTerms(op, e1, e2).Some? {
      JoinLooksAtTerms(op, e1, e2);
    }
    p := None;
    var v1 := TermAt(t, r1, e1);
    var v2 := TermAt(t, r2, e2);
    if v1.Some? && v2.Some? {
      var j := JoinTerms(op, v1.value, v2.value);
      if j.Some? {
        var c := t.Alloc(if j.value.Sym? then SymNode(j.value.sym) else CompNode(j.value.eq, j.value.lhs, j.value.rhs));
        p := Some(c);
      }
    }
  }

  /** expr_join_or / expr_join_and: NULL, or a new tree; the terms are not touched. */
  method JoinAt(t: Store, op: Op, r1: Ref, r2: Ref, ghost e1: Expr, ghost e2: Expr) returns (p: Option<Ref>)
    requires t.Valid() && Tree(t.cells, r1, e1) && Tree(t.cells, r2, e2)
    modifies t
    ensures t.Valid() && Joined(old(t.cells), t.cells, p, JoinTerms(op, e1, e2))
  {
    ghost var h := t.cells;
    var eq := ExprEqAt(t, r1, r2, e1, e2);
    Apart(h, t.cells, {}, {}, r1, e1);
    Apart(h, t.cells, {}, {}, r2, e2);
    if eq {
      var c := t.Copy(r1, e1);
      p := Some(c);
    } else {
      p := JoinUnequal(t, op, r1, r2, e1, e2);
    }
  }

  // --------------------------------------------------------- expr_eliminate_dups1

  /** Two slots of the chain e below root */
  ghost predicate Slots(h: Heap, root: Ref, op: Op, e: Expr, ep1: Slot, p1: Path, ep2: Slot, p2: Path) {
    && Tree(h, root, e) && IsOp(op, e)
    && In(ShapeOf(op, e), p1) && In(ShapeOf(op, e), p2)
    && ep1 == SlotOf(h, root, p1) && ep2 == SlotOf(h, root, p2)
  }

  /** The chain was rewritten into e', on the same nodes but for its members. */
  ghost predicate Rewrote(h: Heap, root: Ref, op: Op, e: Expr, h': Heap, e': Expr) {
    && Becomes(h, root, e, h', root, e')
    && SameChain(h, h', root, ShapeOf(op, e)) && ShapeOf(op, e') == ShapeOf(op, e)
  }

  lemma RewroteTwice(h: Heap, root: Ref, op: Op, e: Expr, h1: Heap, e1: Expr, h2: Heap, e2: Expr)
    requires Rewrote(h, root, op, e, h1, e1) && Rewrote(h1, root, op, e1, h2, e2)
    ensures Rewrote(h, root, op, e, h2, e2)
  {
    BecomesTwice(h, root, e, h1, root, e1, h2, root, e2);
    SameChainTwice(h, h1, h2, root, ShapeOf(op, e));
  }

  /** Slots keep their addresses while the chain is rewritten. */
  lemma SlotsKept(h: Heap, root: Ref, op: Op, e: Expr, ep1: Slot, p1: Path, ep2: Slot, p2: Path, h': Heap, e': Expr)
    requires Slots(h, root, op, e, ep1, p1, ep2, p2) && Rewrote(h, root, op, e, h', e')
    ensures Slots(h', root, op, e', ep1, p1, ep2, p2)
  {
    SameSlot(h, h', root, ShapeOf(op, e), p1);
    SameSlot(h, h', root, ShapeOf(op, e), p2);
    assert e'.Bin? && e'.op == op;
  }

  /** New nodes elsewhere do not concern the chain. */
  lemma ChainUntouched(h: Heap, h': Heap, root: Ref, op: Op, e: Expr, ids: set<Ref>)
    requires Tree(h, root, e) && Within(h, h', {}, ids)
    ensures Rewrote(h, root, op, e, h', e) && Nodes(h', root, e) == Nodes(h, root, e)
  {
    TreeNodes(h, root, e);
    TreeFrame(h, h', root, e);
    SameChainAway(h, h', root, ShapeOf(op, e), op, e);
  }

  /** What *ep = x needs and does, for new nodes x. */
  ghost predicate Replaceable(h: Heap, root: Ref, op: Op, e: Expr, p: Path, s: Ref, x: Expr) {
    && Tree(h, root, e) && In(ShapeOf(op, e), p) && p != [] && ShapeAt(ShapeOf(op, e), p).Member?
    && Tree(h, s, x) && !IsOp(op, x) && Nodes(h, s, x) !! Nodes(h, root, e)
  }

  ghost predicate Replaced(h: Heap, root: Ref, op: Op, e: Expr, s: Ref, x: Expr, h': Heap, e': Expr) {
    && Tree(h', root, e') && Nodes(h', root, e') <= Nodes(h, root, e) + Nodes(h, s, x)
    && SameChain(h, h', root, ShapeOf(op, e)) && ShapeOf(op, e') == ShapeOf(op, e)
  }

  /** Only the chain's node w was written. */
  ghost predicate Wrote(h: Heap, h': Heap, w: Ref) {
    h'.Keys == h.Keys && forall y: Ref :: y in h && y != w ==> h'[y] == h[y]
  }

  lemma StoreOne(h: Heap, root: Ref, op: Op, e: Expr, p: Path, s: Ref, x: Expr) returns (w: Ref)
    requires Replaceable(h, root, op, e, p, s, x)
    ensures !SlotOf(h, root, p).Top? && w == SlotOf(h, root, p).node
    ensures var h' := StoreLink(h, SlotOf(h, root, p), s);
            Replaced(h, root, op, e, s, x, h', Put(op, e, p, x)) && Wrote(h, h', w) && w in Nodes(h, root, e)
  {
    TreeNodes(h, root, e);
    LoadFollows(h, root, op, e, p);
    w := SlotOf(h, root, p).node;
    PutShape(op, e, p, x);
    StoreTree(h, root, op, e, p, s, x);
  }

  /** The new trees s and r replace two members. */
  lemma StoreBoth(h: Heap, root: Ref, op: Op, e: Expr, p1: Path, p2: Path, s: Ref, x: Expr, r: Ref, j: Expr)
    requires p1 != p2 && Replaceable(h, root, op, e, p1, s, x) && Replaceable(h, root, op, e, p2, r, j)
    requires Nodes(h, s, x) !! Nodes(h, r, j)
    ensures ShapeOf(op, Put(op, e, p1, x)) == ShapeOf(op, e)
    ensures var h1 := StoreLink(h, SlotOf(h, root, p1), s);
            var h2 := StoreLink(h1, SlotOf(h, root, p2), r);
            var e' := Put(op, Put(op, e, p1, x), p2, j);
            && Tree(h2, root, e') && Nodes(h2, root, e') <= Nodes(h, root, e) + Nodes(h, s, x) + Nodes(h, r, j)
            && SameChain(h, h2, root, ShapeOf(op, e)) && ShapeOf(op, e') == ShapeOf(op, e)
            && h2.Keys == h.Keys
            && (forall y: Ref :: y in h && y !in Nodes(h, root, e) ==> h2[y] == h[y])
  {
    var e1, h1 := Put(op, e, p1, x), StoreLink(h, SlotOf(h, root, p1), s);
    var w1 := StoreOne(h, root, op, e, p1, s, x);
    SameSlot(h, h1, root, ShapeOf(op, e), p2);
    TreeNodes(h, r, j);
    TreeFrame(h, h1, r, j);
    var w2 := StoreOne(h1, root, op, e1, p2, r, j);
    LoadFollows(h, root, op, e, p2);
    SameChainTwice(h, h1, StoreLink(h1, SlotOf(h, root, p2), r), root, ShapeOf(op, e));
  }

  /** What joining the members at p1 and p2 makes of the chain e. */
  function JoinedChain(op: Op, e: Expr, p1: Path, p2: Path): Expr
    requires In(ShapeOf(op, e), p1) && In(ShapeOf(op, e), p2)
    requires ShapeAt(ShapeOf(op, e), p1).Member? && ShapeAt(ShapeOf(op, e), p2).Member?
  {
    var j := JoinTerms(op, At(op, e, p1), At(op, e, p2));
    if j.None? then e
    else
      PutShape(op, e, p1, Sym(Unit(op)));
      Put(op, Put(op, e, p1, Sym(Unit(op))), p2, j.value)
  }

  /** if (tmp) { e1 = expr_alloc_symbol(...); e2 = tmp; } */
  method StoreJoin(t: Store, op: Op, root: Ref, ep1: Slot, ep2: Slot, r: Ref,
                   ghost e: Expr, ghost p1: Path, ghost p2: Path, ghost j: Expr, ghost h: Heap)
    requires t.Valid() && Slots(t.cells, root, op, e, ep1, p1, ep2, p2) && p1 != p2
    requires ShapeAt(ShapeOf(op, e), p1).Member? && ShapeAt(ShapeOf(op, e), p2).Member?
    requires Tree(h, root, e) && Tree(t.cells, r, j) && !IsOp(op, j)
    requires Within(h, t.cells, {}, Nodes(t.cells, r, j)) && Nodes(t.cells, root, e) == Nodes(h, root, e)
    modifies t
    ensures t.Valid()
    ensures ShapeOf(op, Put(op, e, p1, Sym(Unit(op)))) == ShapeOf(op, e)
    ensures var e' := Put(op, Put(op, e, p1, Sym(Unit(op))), p2, j);
            && Becomes(h, root, e, t.cells, root, e')
            && SameChain(old(t.cells), t.cells, root, ShapeOf(op, e)) && ShapeOf(op, e') == ShapeOf(op, e)
  {
    ghost var h1, x := t.cells, Sym(Unit(op));
    TreeNodes(h, root, e);
    TreeNodes(h1, r, j);
    var s := t.Alloc(SymNode(Unit(op)));
    ghost var h2 := t.cells;
    TreeFrame(h1, h2, r, j);
    ChainUntouched(h1, h2, root, op, e, {s});
    SameSlot(h1, h2, root, ShapeOf(op, e), p1);
    SameSlot(h1, h2, root, ShapeOf(op, e), p2);
    StoreBoth(h2, root, op, e, p1, p2, s, x, r, j);
    t.cells := StoreLink(t.cells, ep1, s);
    t.cells := StoreLink(t.cells, ep2, r);
    SameChainTwice(h1, h2, t.cells, root, ShapeOf(op, e));
  }

  /** The end of expr_eliminate_dups1: try to join two different members. */
  method JoinSlots(t: Store, op: Op, root: Ref, ep1: Slot, ep2: Slot, ghost e: Expr, ghost p1: Path, ghost p2: Path)
    returns (count: nat)
    requires t.Valid() && Slots(t.cells, root, op, e, ep1, p1, ep2, p2) && p1 != p2
    requires ShapeAt(ShapeOf(op, e), p1).Member? && ShapeAt(ShapeOf(op, e), p2).Member?
    modifies t
    ensures t.Valid()
    ensures Rewrote(old(t.cells), root, op, e, t.cells, JoinedChain(op, e, p1, p2))
    ensures count == if JoinTerms(op, At(op, e, p1), At(op, e, p2)).Some? then 1 else 0
  {
    ghost var h, e1, e2 := t.cells, At(op, e, p1), At(op, e, p2);
    LoadFollows(h, root, op, e, p1);
    LoadFollows(h, root, op, e, p2);
    var r := JoinAt(t, op, Load(t.cells, root, ep1), Load(t.cells, root, ep2), e1, e2);
    ghost var h1, j := t.cells, JoinTerms(op, e1, e2);
    ghost var ids := if r.Some? then Nodes(h1, r.value, j.value) else {};
    ChainUntouched(h, h1, root, op, e, ids);
    if r.None? {
      return 0;
    }
    JoinForm(op, e1, e2);
    SlotsKept(h, root, op, e, ep1, p1, ep2, p2, h1, e);
    StoreJoin(t, op, root, ep1, ep2, r.value, e, p1, p2, j.value, h);
    SameChainTwice(h, h1, t.cells, root, ShapeOf(op, e));
    return 1;
  }

  /** The slots of the two operands of a sub-chain */
  lemma OperandSlots(h: Heap, root: Ref, op: Op, e: Expr, ep1: Slot, p1: Path, ep2: Slot, p2: Path)
    requires Slots(h, root, op, e, ep1, p1, ep2, p2) && ShapeAt(ShapeOf(op, e), p1).Node?
    ensures var r := Load(h, root, ep1);
            && Slots(h, root, op, e, LeftOf(r), p1 + [L], ep2, p2)
            && Slots(h, root, op, e, RightOf(r), p1 + [R], ep2, p2)
  {
    LoadFollows(h, root, op, e, p1);
    InExtend(ShapeOf(op, e), p1, L);
    InExtend(ShapeOf(op, e), p1, R);
    SlotExtend(h, root, op, e, p1, L);
    SlotExtend(h, root, op, e, p1, R);
  }

  /** What *ep1 and *ep2 point at */
  lemma SlotTypes(h: Heap, root: Ref, op: Op, e: Expr, ep1: Slot, p1: Path, ep2: Slot, p2: Path)
    requires Slots(h, root, op, e, ep1, p1, ep2, p2)
    ensures var r1, r2 := Load(h, root, ep1), Load(h, root, ep2);
            && Tree(h, r1, At(op, e, p1)) && Tree(h, r2, At(op, e, p2))
            && (ShapeAt(ShapeOf(op, e), p1).Member? ==> (r1 == r2 <==> p1 == p2))
  {
    LoadFollows(h, root, op, e, p1);
    LoadFollows(h, root, op, e, p2);
    if ShapeAt(ShapeOf(op, e), p1).Member? && ShapeAt(ShapeOf(op, e), p2).Member? {
      SamePointer(h, root, op, e, p1, p2);
    }
  }

  /** expr_eliminate_dups1(type, ep1, ep2) on the chain e of op below root; count is what it
      adds to trans_count. */
  method Dups1At(t: Store, op: Op, root: Ref, ep1: Slot, ep2: Slot, ghost e: Expr, ghost p1: Path, ghost p2: Path)
    returns (count: nat)
    requires t.Valid() && Slots(t.cells, root, op, e, ep1, p1, ep2, p2)
    modifies t
    ensures t.Valid() && Rewrote(old(t.cells), root, op, e, t.cells, Dups1(op, e, p1, p2).tree)
    ensures count == Dups1(op, e, p1, p2).count
    decreases Size(e), 0, ShapeSize(ShapeAt(ShapeOf(op, e), p1)) + ShapeSize(ShapeAt(ShapeOf(op, e), p2)), 1
  {
    SlotTypes(t.cells, root, op, e, ep1, p1, ep2, p2);
    var r1, r2 := Load(t.cells, root, ep1), Load(t.cells, root, ep2);
    var n1, n2 := t.cells[r1], t.cells[r2];
    if n1.BinNode? && n1.op == op {
      count := Dups1First(t, op, root, ep1, ep2, e, p1, p2);
    } else if n2.BinNode? && n2.op == op {
      count := Dups1Second(t, op, root, ep1, ep2, e, p1, p2);
    } else if r1 == r2 {
      ChainUntouched(t.cells, t.cells, root, op, e, {});
      count := 0;
    } else {
      count := Dups1Members(t, op, root, ep1, ep2, e, p1, p2);
    }
  }

  /** if (e1->type == type) { dups1(&e1->left, &e2); dups1(&e1->right, &e2); } */
  method Dups1First(t: Store, op: Op, root: Ref, ep1: Slot, ep2: Slot, ghost e: Expr, ghost p1: Path, ghost p2: Path)
    returns (count: nat)
    requires t.Valid() && Slots(t.cells, root, op, e, ep1, p1, ep2, p2) && IsOp(op, At(op, e, p1))
    modifies t
    ensures t.Valid() && Rewrote(old(t.cells), root, op, e, t.cells, Dups1(op, e, p1, p2).tree)
    ensures count == Dups1(op, e, p1, p2).count
    decreases Size(e), 0, ShapeSize(ShapeAt(ShapeOf(op, e), p1)) + ShapeSize(ShapeAt(ShapeOf(op, e), p2)), 0
  {
    ghost var h := t.cells;
    OperandSlots(h, root, op, e, ep1, p1, ep2, p2);
    var r1 := Load(t.cells, root, ep1);
    InExtend(ShapeOf(op, e), p1, L);
    InExtend(ShapeOf(op, e), p1, R);
    ghost var a := Dups1(op, e, p1 + [L], p2);
    var c1 := Dups1At(t, op, root, LeftOf(r1), ep2, e, p1 + [L], p2);
    ghost var h1 := t.cells;
    SlotsKept(h, root, op, e, RightOf(r1), p1 + [R], ep2, p2, h1, a.tree);
    ghost var b := Dups1(op, a.tree, p1 + [R], p2);
    var c2 := Dups1At(t, op, root, RightOf(r1), ep2, a.tree, p1 + [R], p2);
    RewroteTwice(h, root, op, e, h1, a.tree, t.cells, b.tree);
    count := c1 + c2;
  }

  /** The same for e2 */
  method Dups1Second(t: Store, op: Op, root: Ref, ep1: Slot, ep2: Slot, ghost e: Expr, ghost p1: Path, ghost p2: Path)
    returns (count: nat)
    requires t.Valid() && Slots(t.cells, root, op, e, ep1, p1, ep2, p2)
    requires !IsOp(op, At(op, e, p1)) && IsOp(op, At(op, e, p2))
    modifies t
    ensures t.Valid() && Rewrote(old(t.cells), root, op, e, t.cells, Dups1(op, e, p1, p2).tree)
    ensures count == Dups1(op, e, p1, p2).count
    decreases Size(e), 0, ShapeSize(ShapeAt(ShapeOf(op, e), p1)) + ShapeSize(ShapeAt(ShapeOf(op, e), p2)), 0
  {
    ghost var h := t.cells;
    OperandSlots(h, root, op, e, ep2, p2, ep1, p1);
    var r2 := Load(t.cells, root, ep2);
    InExtend(ShapeOf(op, e), p2, L);
    InExtend(ShapeOf(op, e), p2, R);
    ghost var a := Dups1(op, e, p1, p2 + [L]);
    var c1 := Dups1At(t, op, root, ep1, LeftOf(r2), e, p1, p2 + [L]);
    ghost var h1 := t.cells;
    SlotsKept(h, root, op, e, ep1, p1, RightOf(r2), p2 + [R], h1, a.tree);
    ghost var b := Dups1(op, a.tree, p1, p2 + [R]);
    var c2 := Dups1At(t, op, root, ep1, RightOf(r2), a.tree, p1, p2 + [R]);
    RewroteTwice(h, root, op, e, h1, a.tree, t.cells, b.tree);
    count := c1 + c2;
  }

  /** Two different members: clean e1 on its own, then join. */
  method Dups1Members(t: Store, op: Op, root: Ref, ep1: Slot, ep2: Slot, ghost e: Expr, ghost p1: Path, ghost p2: Path)
    returns (count: nat)
    requires t.Valid() && Slots(t.cells, root, op, e, ep1, p1, ep2, p2) && p1 != p2
    requires !IsOp(op, At(op, e, p1)) && !IsOp(op, At(op, e, p2))
    modifies t
    ensures t.Valid() && Rewrote(old(t.cells), root, op, e, t.cells, Dups1(op, e, p1, p2).tree)
    ensures count == Dups1(op, e, p1, p2).count
    decreases Size(e), 0, ShapeSize(ShapeAt(ShapeOf(op, e), p1)) + ShapeSize(ShapeAt(ShapeOf(op, e), p2)), 0
  {
    ghost var h, inner := t.cells, Inner1(op, At(op, e, p1));
    ghost var e' := Put(op, e, p1, inner.tree);
    PutShape(op, e, p1, inner.tree);
    PutElsewhere(op, e, p1, p2, inner.tree);
    var c1 := Inner1At(t, op, root, ep1, e, p1);
    ghost var h1 := t.cells;
    SlotsKept(h, root, op, e, ep1, p1, ep2, p2, h1, e');
    var c2 := JoinSlots(t, op, root, ep1, ep2, e', p1, p2);
    RewroteTwice(h, root, op, e, h1, e', t.cells, JoinedChain(op, e', p1, p2));
    assert Dups1(op, e, p1, p2) == JoinMembers(op, e, p1, p2, inner);
    count := c1 + c2;
  }

  /** switch (e1->type) { case E_OR: case E_AND: dups1(e1->type, &e1, &e1); } */
  method Inner1At(t: Store, op: Op, root: Ref, ep1: Slot, ghost e: Expr, ghost p1: Path) returns (count: nat)
    requires t.Valid() && Slots(t.cells, root, op, e, ep1, p1, ep1, p1)
    requires !IsOp(op, At(op, e, p1))
    modifies t
    ensures t.Valid() && count == Inner1(op, At(op, e, p1)).count
    ensures Rewrote(old(t.cells), root, op, e, t.cells, Put(op, e, p1, Inner1(op, At(op, e, p1)).tree))
    decreases Size(e), 0, 0, 0
  {
    ghost var h, e1 := t.cells, At(op, e, p1);
    LoadFollows(h, root, op, e, p1);
    var r1 := Load(t.cells, root, ep1);
    count := 0;
    if t.cells[r1].BinNode? {
      count := Dups1At(t, t.cells[r1].op, r1, Top, Top, e1, [], []);
    }
    InnerBecomes(h, root, op, e, p1, t.cells, Inner1(op, e1).tree);
    PutShape(op, e, p1, Inner1(op, e1).tree);
  }

  // --------------------------------------------------------------- expr_extract_eq

  ghost function AccNodes(h: Heap, acc: Option<Ref>, d: Dep): set<Ref> {
    if acc.Some? && d.Some? then Nodes(h, acc.value, d.value) else {}
  }

  /** *ep, *ep1 and *ep2: an accumulator, perhaps NULL, and two chains, all without common nodes */
  ghost predicate Triple(h: Heap, acc: Option<Ref>, d: Dep, r1: Ref, e1: Expr, r2: Ref, e2: Expr) {
    && (acc.Some? <==> d.Some?) && (acc.Some? ==> Tree(h, acc.value, d.value))
    && Pair(h, r1, e1, r2, e2) && AccNodes(h, acc, d) !! PairNodes(h, r1, e1, r2, e2)
  }

  ghost function TripleNodes(h: Heap, acc: Option<Ref>, d: Dep, r1: Ref, e1: Expr, r2: Ref, e2: Expr): set<Ref> {
    AccNodes(h, acc, d) + PairNodes(h, r1, e1, r2, e2)
  }

  ghost predicate TripleBecomes(h: Heap, acc: Option<Ref>, d: Dep, r1: Ref, e1: Expr, r2: Ref, e2: Expr,
                                h': Heap, acc': Option<Ref>, d': Dep, p1: Ref, x1: Expr, p2: Ref, x2: Expr) {
    && Triple(h', acc', d', p1, x1, p2, x2)
    && Within(h, h', TripleNodes(h, acc, d, r1, e1, r2, e2), TripleNodes(h', acc', d', p1, x1, p2, x2))
  }

  lemma TripleTwice(h: Heap, acc: Option<Ref>, d: Dep, r1: Ref, e1: Expr, r2: Ref, e2: Expr,
                    h1: Heap, acc1: Option<Ref>, d1: Dep, p1: Ref, x1: Expr, p2: Ref, x2: Expr,
                    h2: Heap, acc2: Option<Ref>, d2: Dep, q1: Ref, y1: Expr, q2: Ref, y2: Expr)
    requires TripleBecomes(h, acc, d, r1, e1, r2, e2, h1, acc1, d1, p1, x1, p2, x2)
    requires TripleBecomes(h1, acc1, d1, p1, x1, p2, x2, h2, acc2, d2, q1, y1, q2, y2)
    ensures TripleBecomes(h, acc, d, r1, e1, r2, e2, h2, acc2, d2, q1, y1, q2, y2)
  {
    WithinTwice(h, h1, h2, TripleNodes(h, acc, d, r1, e1, r2, e2), TripleNodes(h1, acc1, d1, p1, x1, p2, x2),
                TripleNodes(h2, acc2, d2, q1, y1, q2, y2));
  }

  lemma TripleSwap(h: Heap, acc: Option<Ref>, d: Dep, r1: Ref, e1: Expr, r2: Ref, e2: Expr,
                   h': Heap, acc': Option<Ref>, d': Dep, p1: Ref, x1: Expr, p2: Ref, x2: Expr)
    requires TripleBecomes(h, acc, d, r1, e1, r2, e2, h', acc', d', p1, x1, p2, x2)
    ensures TripleBecomes(h, acc, d, r2, e2, r1, e1, h', acc', d', p2, x2, p1, x1)
  {
    assert TripleNodes(h, acc, d, r1, e1, r2, e2) == TripleNodes(h, acc, d, r2, e2, r1, e1);
    assert TripleNodes(h', acc', d', p1, x1, p2, x2) == TripleNodes(h', acc', d', p2, x2, p1, x1);
  }

  lemma AccElsewhere(h: Heap, r: Ref, n: Node, acc: Option<Ref>, d: Dep)
    requires (acc.Some? <==> d.Some?) && (acc.Some? ==> Tree(h, acc.value, d.value)) && r !in AccNodes(h, acc, d)
    ensures acc.Some? ==> Tree(h[r := n], acc.value, d.value)
    ensures AccNodes(h[r := n], acc, d) == AccNodes(h, acc, d)
  {
    if acc.Some? {
      WriteElsewhere(h, r, n, acc.value, d.value);
    }
  }

  /** Linking two trees below r, beside a third one and the accumulator */
  lemma LinkTriple(h: Heap, acc: Option<Ref>, d: Dep, r: Ref, op: Op, p: Ref, a: Expr, q: Ref, b: Expr,
                   r2: Ref, e2: Expr, h': Heap)
    requires Pair(h, p, a, q, b) && Tree(h, r2, e2) && Nodes(h, r2, e2) !! PairNodes(h, p, a, q, b)
    requires (acc.Some? <==> d.Some?) && (acc.Some? ==> Tree(h, acc.value, d.value))
    requires AccNodes(h, acc, d) !! PairNodes(h, p, a, q, b) && AccNodes(h, acc, d) !! Nodes(h, r2, e2)
    requires r !in PairNodes(h, p, a, q, b) && r !in Nodes(h, r2, e2) && r !in AccNodes(h, acc, d)
    requires h' == h[r := BinNode(op, p, q)]
    ensures Triple(h', acc, d, r, Bin(op, a, b), r2, e2)
    ensures TripleNodes(h', acc, d, r, Bin(op, a, b), r2, e2) <=
            AccNodes(h, acc, d) + ({r} + PairNodes(h, p, a, q, b) + Nodes(h, r2, e2))
  {
    LinkBoth(h, r, op, p, a, q, b, r2, e2, h');
    AccElsewhere(h, r, BinNode(op, p, q), acc, d);
  }

  /** A node above an operand and the other operand, beside the three trees */
  ghost predicate Frame(h: Heap, r: Ref, q: Ref, b: Expr, ids: set<Ref>) {
    r in h && r !in ids && Tree(h, q, b) && r !in Nodes(h, q, b) && Nodes(h, q, b) !! ids && Nodes(h, q, b) <= h.Keys
  }

  lemma LeftFrame(h: Heap, acc: Option<Ref>, d: Dep, r: Ref, op: Op, a: Expr, b: Expr, r2: Ref, e2: Expr)
    requires Triple(h, acc, d, r, Bin(op, a, b), r2, e2)
    ensures var ids := TripleNodes(h, acc, d, h[r].left, a, r2, e2);
            && Frame(h, r, h[r].right, b, ids)
            && ids + Nodes(h, h[r].right, b) + {r} <= TripleNodes(h, acc, d, r, Bin(op, a, b), r2, e2)
  {
    TreeNodes(h, r, Bin(op, a, b));
  }

  lemma RightFrame(h: Heap, acc: Option<Ref>, d: Dep, r: Ref, op: Op, a: Expr, b: Expr, r2: Ref, e2: Expr)
    requires Triple(h, acc, d, r, Bin(op, a, b), r2, e2)
    ensures var ids := TripleNodes(h, acc, d, h[r].right, b, r2, e2);
            && Frame(h, r, h[r].left, a, ids)
            && ids + Nodes(h, h[r].left, a) + {r} <= TripleNodes(h, acc, d, r, Bin(op, a, b), r2, e2)
  {
    TreeNodes(h, r, Bin(op, a, b));
  }

  lemma FrameKept(h: Heap, h1: Heap, r: Ref, q: Ref, b: Expr, ids: set<Ref>, ids': set<Ref>)
    requires Frame(h, r, q, b, ids) && Within(h, h1, ids, ids')
    ensures Frame(h1, r, q, b, ids') && Nodes(h1, q, b) == Nodes(h, q, b)
  {
    Apart(h, h1, ids, ids', q, b);
  }

  lemma WithinLink(h: Heap, h1: Heap, r: Ref, n: Node, ids: set<Ref>, ids': set<Ref>, rest: set<Ref>,
                   all: set<Ref>, all': set<Ref>)
    requires Within(h, h1, ids, ids') && ids + rest + {r} <= all && all' <= ids' + rest + {r}
    ensures Within(h, h1[r := n], all, all')
  {
  }

  /** The left operand of the first chain was rewritten along with the other two, and the link set. */
  lemma TripleLeft(h: Heap, acc: Option<Ref>, d: Dep, r: Ref, op: Op, a: Expr, b: Expr, r2: Ref, e2: Expr,
                   h1: Heap, acc': Option<Ref>, d': Dep, p: Ref, a': Expr, p2: Ref, x2: Expr, h': Heap)
    requires Triple(h, acc, d, r, Bin(op, a, b), r2, e2)
    requires TripleBecomes(h, acc, d, h[r].left, a, r2, e2, h1, acc', d', p, a', p2, x2)
    requires h' == h1[r := BinNode(op, p, h[r].right)]
    ensures TripleBecomes(h, acc, d, r, Bin(op, a, b), r2, e2, h', acc', d', r, Bin(op, a', b), p2, x2)
  {
    var q, ids := h[r].right, TripleNodes(h, acc, d, h[r].left, a, r2, e2);
    var ids' := TripleNodes(h1, acc', d', p, a', p2, x2);
    LeftFrame(h, acc, d, r, op, a, b, r2, e2);
    FrameKept(h, h1, r, q, b, ids, ids');
    LinkTriple(h1, acc', d', r, op, p, a', q, b, p2, x2, h');
    WithinLink(h, h1, r, BinNode(op, p, q), ids, ids', Nodes(h, q, b),
               TripleNodes(h, acc, d, r, Bin(op, a, b), r2, e2), TripleNodes(h', acc', d', r, Bin(op, a', b), p2, x2));
  }

  lemma TripleRight(h: Heap, acc: Option<Ref>, d: Dep, r: Ref, op: Op, a: Expr, b: Expr, r2: Ref, e2: Expr,
                    h1: Heap, acc': Option<Ref>, d': Dep, q: Ref, b': Expr, p2: Ref, x2: Expr, h': Heap)
    requires Triple(h, acc, d, r, Bin(op, a, b), r2, e2)
    requires TripleBecomes(h, acc, d, h[r].right, b, r2, e2, h1, acc', d', q, b', p2, x2)
    requires h' == h1[r := BinNode(op, h[r].left, q)]
    ensures TripleBecomes(h, acc, d, r, Bin(op, a, b), r2, e2, h', acc', d', r, Bin(op, a, b'), p2, x2)
  {
    var p, ids := h[r].left, TripleNodes(h, acc, d, h[r].right, b, r2, e2);
    var ids' := TripleNodes(h1, acc', d', q, b', p2, x2);
    RightFrame(h, acc, d, r, op, a, b, r2, e2);
    FrameKept(h, h1, r, p, a, ids, ids');
    LinkTriple(h1, acc', d', r, op, p, a, q, b', p2, x2, h');
    WithinLink(h, h1, r, BinNode(op, p, q), ids, ids', Nodes(h, p, a),
               TripleNodes(h, acc, d, r, Bin(op, a, b), r2, e2), TripleNodes(h', acc', d', r, Bin(op, a, b'), p2, x2));
  }

  /** The same for the second chain */
  lemma TripleLeft2(h: Heap, acc: Option<Ref>, d: Dep, r1: Ref, e1: Expr, r: Ref, op: Op, a: Expr, b: Expr,
                    h1: Heap, acc': Option<Ref>, d': Dep, p1: Ref, x1: Expr, p: Ref, a': Expr, h': Heap)
    requires Triple(h, acc, d, r1, e1, r, Bin(op, a, b))
    requires TripleBecomes(h, acc, d, r1, e1, h[r].left, a, h1, acc', d', p1, x1, p, a')
    requires h' == h1[r := BinNode(op, p, h[r].right)]
    ensures TripleBecomes(h, acc, d, r1, e1, r, Bin(op, a, b), h', acc', d', p1, x1, r, Bin(op, a', b))
  {
    TripleSwap(h, acc, d, r1, e1, h[r].left, a, h1, acc', d', p1, x1, p, a');
    TripleLeft(h, acc, d, r, op, a, b, r1, e1, h1, acc', d', p, a', p1, x1, h');
    TripleSwap(h, acc, d, r, Bin(op, a, b), r1, e1, h', acc', d', r, Bin(op, a', b), p1, x1);
  }

  lemma TripleRight2(h: Heap, acc: Option<Ref>, d: Dep, r1: Ref, e1: Expr, r: Ref, op: Op, a: Expr, b: Expr,
                     h1: Heap, acc': Option<Ref>, d': Dep, p1: Ref, x1: Expr, q: Ref, b': Expr, h': Heap)
    requires Triple(h, acc, d, r1, e1, r, Bin(op, a, b))
    requires TripleBecomes(h, acc, d, r1, e1, h[r].right, b, h1, acc', d', p1, x1, q, b')
    requires h' == h1[r := BinNode(op, h[r].left, q)]
    ensures TripleBecomes(h, acc, d, r1, e1, r, Bin(op, a, b), h', acc', d', p1, x1, r, Bin(op, a, b'))
  {
    TripleSwap(h, acc, d, r1, e1, h[r].right, b, h1, acc', d', p1, x1, q, b');
    TripleRight(h, acc, d, r, op, a, b, r1, e1, h1, acc', d', q, b', p1, x1, h');
    TripleSwap(h, acc, d, r, Bin(op, a, b), r1, e1, h', acc', d', r, Bin(op, a, b'), p1, x1);
  }

  /** expr_extract_eq on the chain of op that starts at r1 */
  method ExtractChain(t: Store, op: Op, acc: Option<Ref>, r1: Ref, r2: Ref,
                      ghost d: Dep, ghost e1: Expr, ghost e2: Expr)
    returns (acc': Option<Ref>, p2: Ref)
    requires t.Valid() && Triple(t.cells, acc, d, r1, e1, r2, e2) && IsOp(op, e1)
    modifies t
    ensures t.Valid() && var x := ExtractEq(op, d, e1, e2);
                         TripleBecomes(old(t.cells), acc, d, r1, e1, r2, e2, t.cells, acc', x.0, r1, x.1, p2, x.2)
    decreases Size(e1) + Size(e2), 0
  {
    ghost var h, a := t.cells, ExtractEq(op, d, e1.left, e2);
    ghost var b := ExtractEq(op, a.0, e1.right, a.2);
    var n := t.cells[r1];
    var acc1, l, s := ExtractEqAt(t, op, acc, n.left, r2, d, e1.left, e2);
    ghost var h1 := t.cells;
    assert r1 in h1;
    t.cells := t.cells[r1 := BinNode(op, l, n.right)];
    TripleLeft(h, acc, d, r1, op, e1.left, e1.right, r2, e2, h1, acc1, a.0, l, a.1, s, a.2, t.cells);
    ghost var h2 := t.cells;
    var q;
    acc', q, p2 := ExtractEqAt(t, op, acc1, n.right, s, a.0, e1.right, a.2);
    ghost var h3 := t.cells;
    t.cells := t.cells[r1 := BinNode(op, l, q)];
    TripleRight(h2, acc1, a.0, r1, op, a.1, e1.right, s, a.2, h3, acc', b.0, q, b.1, p2, b.2, t.cells);
    TripleTwice(h, acc, d, r1, e1, r2, e2, h2, acc1, a.0, r1, Bin(op, a.1, e1.right), s, a.2,
                t.cells, acc', b.0, r1, Bin(op, a.1, b.1), p2, b.2);
  }

  /** The same where the chain starts at r2 and r1 is a term */
  method ExtractTerm(t: Store, op: Op, acc: Option<Ref>, r1: Ref, r2: Ref, ghost d: Dep, ghost e1: Expr, ghost e2: Expr)
    returns (acc': Option<Ref>, p1: Ref)
    requires t.Valid() && Triple(t.cells, acc, d, r1, e1, r2, e2) && !IsOp(op, e1) && IsOp(op, e2)
    modifies t
    ensures t.Valid() && var x := ExtractEq(op, d, e1, e2);
                         TripleBecomes(old(t.cells), acc, d, r1, e1, r2, e2, t.cells, acc', x.0, p1, x.1, r2, x.2)
    decreases Size(e1) + Size(e2), 0
  {
    ghost var h, a := t.cells, ExtractEq(op, d, e1, e2.left);
    ghost var b := ExtractEq(op, a.0, a.1, e2.right);
    var n := t.cells[r2];
    var acc1, s, l := ExtractEqAt(t, op, acc, r1, n.left, d, e1, e2.left);
    ghost var h1 := t.cells;
    assert r2 in h1;
    t.cells := t.cells[r2 := BinNode(op, l, n.right)];
    TripleLeft2(h, acc, d, r1, e1, r2, op, e2.left, e2.right, h1, acc1, a.0, s, a.1, l, a.2, t.cells);
    ghost var h2 := t.cells;
    var q;
    acc', p1, q := ExtractEqAt(t, op, acc1, s, n.right, a.0, a.1, e2.right);
    ghost var h3 := t.cells;
    t.cells := t.cells[r2 := BinNode(op, l, q)];
    TripleRight2(h2, acc1, a.0, s, a.1, r2, op, a.2, e2.right, h3, acc', b.0, p1, b.1, q, b.2, t.cells);
    TripleTwice(h, acc, d, r1, e1, r2, e2, h2, acc1, a.0, s, a.1, r2, Bin(op, a.2, e2.right),
                t.cells, acc', b.0, p1, b.1, r2, Bin(op, a.2, b.2));
  }

  /** New nodes elsewhere do not concern the three trees. */
  lemma TripleUntouched(h: Heap, h': Heap, acc: Option<Ref>, d: Dep, r1: Ref, e1: Expr, r2: Ref, e2: Expr)
    requires Triple(h, acc, d, r1, e1, r2, e2) && Within(h, h', {}, {})
    ensures TripleBecomes(h, acc, d, r1, e1, r2, e2, h', acc, d, r1, e1, r2, e2)
    ensures TripleNodes(h', acc, d, r1, e1, r2, e2) == TripleNodes(h, acc, d, r1, e1, r2, e2)
  {
    Apart(h, h', {}, {}, r1, e1);
    Apart(h, h', {}, {}, r2, e2);
    if acc.Some? {
      Apart(h, h', {}, {}, acc.value, d.value);
    }
  }

  /** *ep = *ep ? expr_alloc_two(type, *ep, e1) : e1; */
  method Accumulate(t: Store, op: Op, acc: Option<Ref>, r1: Ref, ghost d: Dep, ghost e1: Expr) returns (r: Ref)
    requires t.Valid() && Tree(t.cells, r1, e1)
    requires (acc.Some? <==> d.Some?) && (acc.Some? ==> Tree(t.cells, acc.value, d.value))
    requires AccNodes(t.cells, acc, d) !! Nodes(t.cells, r1, e1)
    modifies t
    ensures t.Valid() && AllocBin(op, d, Some(e1)).Some? && Tree(t.cells, r, AllocBin(op, d, Some(e1)).value)
    ensures Within(old(t.cells), t.cells, {}, {})
    ensures forall x: Ref :: x in Nodes(t.cells, r, AllocBin(op, d, Some(e1)).value) ==>
              x in AccNodes(old(t.cells), acc, d) + Nodes(old(t.cells), r1, e1) || x !in old(t.cells)
  {
    ghost var h := t.cells;
    r := r1;
    if acc.Some? {
      TreeNodes(h, r1, e1);
      TreeNodes(h, acc.value, d.value);
      r := t.Alloc(BinNode(op, acc.value, r1));
      TreeFrame(h, t.cells, r1, e1);
      TreeFrame(h, t.cells, acc.value, d.value);
    }
  }

  /** Equal terms: e1 goes to the accumulator, and y or n takes the place of both. */
  method ExtractEqual(t: Store, op: Op, acc: Option<Ref>, r1: Ref, r2: Ref,
                      ghost d: Dep, ghost e1: Expr, ghost e2: Expr)
    returns (r: Ref, p1: Ref, p2: Ref)
    requires t.Valid() && Triple(t.cells, acc, d, r1, e1, r2, e2)
    modifies t
    ensures t.Valid()
    ensures var u := Sym(Unit(op));
            TripleBecomes(old(t.cells), acc, d, r1, e1, r2, e2,
                          t.cells, Some(r), AllocBin(op, d, Some(e1)), p1, u, p2, u)
  {
    ghost var h, d' := t.cells, AllocBin(op, d, Some(e1));
    r := Accumulate(t, op, acc, r1, d, e1);
    ghost var h1 := t.cells;
    TreeNodes(h1, r, d'.value);
    p1, p2 := PutSymbols(t, Unit(op), {});
    TreeFrame(h1, t.cells, r, d'.value);
  }

  /** expr_extract_eq: what *ep, *ep1 and *ep2 hold afterwards */
  method ExtractEqAt(t: Store, op: Op, acc: Option<Ref>, r1: Ref, r2: Ref, ghost d: Dep, ghost e1: Expr, ghost e2: Expr)
    returns (acc': Option<Ref>, p1: Ref, p2: Ref)
    requires t.Valid() && Triple(t.cells, acc, d, r1, e1, r2, e2)
    modifies t
    ensures t.Valid() && var x := ExtractEq(op, d, e1, e2);
                         TripleBecomes(old(t.cells), acc, d, r1, e1, r2, e2, t.cells, acc', x.0, p1, x.1, p2, x.2)
    decreases Size(e1) + Size(e2), 1
  {
    acc', p1, p2 := acc, r1, r2;
    var n1, n2 := t.cells[r1], t.cells[r2];
    if n1.BinNode? && n1.op == op {
      acc', p2 := ExtractChain(t, op, acc, r1, r2, d, e1, e2);
    } else if n2.BinNode? && n2.op == op {
      acc', p1 := ExtractTerm(t, op, acc, r1, r2, d, e1, e2);
    } else {
      ghost var h := t.cells;
      var eq := ExprEqAt(t, r1, r2, e1, e2);
      ghost var h1 := t.cells;
      TripleUntouched(h, h1, acc, d, r1, e1, r2, e2);
      if eq {
        var r;
        r, p1, p2 := ExtractEqual(t, op, acc, r1, r2, d, e1, e2);
        acc' := Some(r);
        ghost var u := Sym(Unit(op));
        TripleTwice(h, acc, d, r1, e1, r2, e2, h1, acc, d, r1, e1, r2, e2,
                    t.cells, acc', AllocBin(op, d, Some(e1)), p1, u, p2, u);
      }
    }
  }

  /** expr_extract_eq_and / expr_extract_eq_or */
  method ExtractCommonAt(t: Store, op: Op, r1: Ref, r2: Ref, ghost e1: Expr, ghost e2: Expr)
    returns (tmp: Option<Ref>, p1: Ref, p2: Ref)
    requires t.Valid() && Pair(t.cells, r1, e1, r2, e2)
    modifies t
    ensures t.Valid() && var x := ExtractCommon(op, e1, e2);
                         TripleBecomes(old(t.cells), None, None, r1, e1, r2, e2, t.cells, tmp, x.0, p1, x.1, p2, x.2)
  {
    ghost var h, x := t.cells, ExtractEq(op, None, e1, e2);
    tmp, p1, p2 := ExtractEqAt(t, op, None, r1, r2, None, e1, e2);
    if tmp.Some? {
      ghost var h1, y1, y2 := t.cells, EliminateYn(x.1), EliminateYn(x.2);
      EliminateYnBoth(t, p1, p2, x.1, x.2);
      Apart(h1, t.cells, PairNodes(h1, p1, x.1, p2, x.2), PairNodes(t.cells, p1, y1, p2, y2), tmp.value, x.0.value);
      TripleTwice(h, None, None, r1, e1, r2, e2, h1, tmp, x.0, p1, x.1, p2, x.2, t.cells, tmp, x.0, p1, y1, p2, y2);
    }
  }

  // --------------------------------------------------------- expr_eliminate_dups2

  /** expr_is_yes(tmp1) or expr_is_no(tmp1), after expr_extract_eq_and or expr_extract_eq_or
      on copies of !e1 and e2 */
  method ContradictsAt(t: Store, op: Op, r1: Ref, r2: Ref, ghost e1: Expr, ghost e2: Expr) returns (res: bool)
    requires t.Valid() && Tree(t.cells, r1, e1) && Tree(t.cells, r2, e2)
    modifies t
    ensures t.Valid() && Within(old(t.cells), t.cells, {}, {})
    ensures res == Contradicts(op, e1, e2)
  {
    ghost var h, tmp1 := t.cells, Transform(Not(e1));
    var s1 := NegatedCopy(t, r1, e1);
    ghost var h1 := t.cells;
    Apart(h, h1, {}, Nodes(h1, s1, tmp1), r2, e2);
    var s2 := t.Copy(r2, e2);
    ghost var h2 := t.cells;
    CopiesApart(h1, s1, tmp1, h2, s2, e2);
    var tmp, p1, p2 := ExtractCommonAt(t, op, s1, s2, tmp1, e2);
    ghost var x := ExtractCommon(op, tmp1, e2);
    assert TripleNodes(h2, None, None, s1, tmp1, s2, e2) == Nodes(h1, s1, tmp1) + Nodes(h2, s2, e2);
    CopiesLeaveAlone(h, h1, h2, t.cells, Nodes(h1, s1, tmp1), Nodes(h2, s2, e2),
                     TripleNodes(t.cells, tmp, x.0, p1, x.1, p2, x.2));
    res := t.cells[p1] == SymNode(Unit(op));
  }

  /** expr_transform(expr_alloc_one(E_NOT, expr_copy(e1))) */
  method NegatedCopy(t: Store, r: Ref, ghost e: Expr) returns (p: Ref)
    requires t.Valid() && Tree(t.cells, r, e)
    modifies t
    ensures t.Valid() && Tree(t.cells, p, Transform(Not(e)))
    ensures Within(old(t.cells), t.cells, {}, Nodes(t.cells, p, Transform(Not(e))))
  {
    ghost var h := t.cells;
    var c := t.Copy(r, e);
    ghost var h1 := t.cells;
    TreeNodes(h1, c, e);
    var n := t.Alloc(NotNode(c));
    ghost var h2 := t.cells;
    TreeFrame(h1, h2, c, e);
    assert Tree(h2, n, Not(e)) && Within(h, h2, {}, Nodes(h2, n, Not(e)));
    p := t.TransformAt(n, Not(e));
    WithinTwice(h, h2, t.cells, {}, Nodes(h2, n, Not(e)), Nodes(t.cells, p, Transform(Not(e))));
  }

  /** What the switch of expr_eliminate_dups2 makes of the chain e, whose member at p1 is cleaned. */
  function Annihilated(op: Op, e: Expr, p1: Path, p2: Path): Pass
    requires In(ShapeOf(op, e), p1) && In(ShapeOf(op, e), p2) && ShapeAt(ShapeOf(op, e), p1).Member?
  {
    if Contradicts(op, At(op, e, p1), At(op, e, p2)) then Pass(Put(op, e, p1, Sym(Zero(op))), 1) else Pass(e, 0)
  }

  /** if (expr_is_yes(tmp1)) { expr_free(e1); e1 = expr_alloc_symbol(...); trans_count++; } */
  method AnnihilateAt(t: Store, op: Op, root: Ref, ep1: Slot, ep2: Slot, ghost e: Expr, ghost p1: Path, ghost p2: Path)
    returns (count: nat)
    requires t.Valid() && Slots(t.cells, root, op, e, ep1, p1, ep2, p2) && p1 != []
    requires ShapeAt(ShapeOf(op, e), p1).Member?
    modifies t
    ensures t.Valid() && Rewrote(old(t.cells), root, op, e, t.cells, Annihilated(op, e, p1, p2).tree)
    ensures count == Annihilated(op, e, p1, p2).count
  {
    ghost var h := t.cells;
    LoadFollows(h, root, op, e, p1);
    LoadFollows(h, root, op, e, p2);
    var r1, r2 := Load(t.cells, root, ep1), Load(t.cells, root, ep2);
    var zero := ContradictsAt(t, op, r1, r2, At(op, e, p1), At(op, e, p2));
    ghost var h1 := t.cells;
    ChainUntouched(h, h1, root, op, e, {});
    if !zero {
      return 0;
    }
    SlotsKept(h, root, op, e, ep1, p1, ep2, p2, h1, e);
    StoreZero(t, op, root, ep1, e, p1);
    RewroteTwice(h, root, op, e, h1, e, t.cells, Put(op, e, p1, Sym(Zero(op))));
    return 1;
  }

  method StoreZero(t: Store, op: Op, root: Ref, ep1: Slot, ghost e: Expr, ghost p1: Path)
    requires t.Valid() && Slots(t.cells, root, op, e, ep1, p1, ep1, p1) && p1 != []
    requires ShapeAt(ShapeOf(op, e), p1).Member?
    modifies t
    ensures t.Valid() && Rewrote(old(t.cells), root, op, e, t.cells, Put(op, e, p1, Sym(Zero(op))))
  {
    ghost var h, x := t.cells, Sym(Zero(op));
    TreeNodes(h, root, e);
    var s := t.Alloc(SymNode(Zero(op)));
    ghost var h1 := t.cells;
    ChainUntouched(h, h1, root, op, e, {s});
    SameSlot(h, h1, root, ShapeOf(op, e), p1);
    ghost var w := StoreOne(h1, root, op, e, p1, s, x);
    t.cells := StoreLink(t.cells, ep1, s);
    SameChainTwice(h, h1, t.cells, root, ShapeOf(op, e));
  }

  /** expr_eliminate_dups2 */
  method Dups2At(t: Store, op: Op, root: Ref, ep1: Slot, ep2: Slot, ghost e: Expr, ghost p1: Path, ghost p2: Path)
    returns (count: nat)
    requires t.Valid() && Slots(t.cells, root, op, e, ep1, p1, ep2, p2)
    modifies t
    ensures t.Valid() && Rewrote(old(t.cells), root, op, e, t.cells, Dups2(op, e, p1, p2).tree)
    ensures count == Dups2(op, e, p1, p2).count
    decreases Size(e), 0, ShapeSize(ShapeAt(ShapeOf(op, e), p1)) + ShapeSize(ShapeAt(ShapeOf(op, e), p2)), 2
  {
    SlotTypes(t.cells, root, op, e, ep1, p1, ep2, p2);
    var n1 := t.cells[Load(t.cells, root, ep1)];
    if n1.BinNode? && n1.op == op {
      count := Dups2First(t, op, root, ep1, ep2, e, p1, p2);
    } else {
      count := Dups2Member(t, op, root, ep1, ep2, e, p1, p2);
    }
  }

  method Dups2First(t: Store, op: Op, root: Ref, ep1: Slot, ep2: Slot, ghost e: Expr, ghost p1: Path, ghost p2: Path)
    returns (count: nat)
    requires t.Valid() && Slots(t.cells, root, op, e, ep1, p1, ep2, p2) && IsOp(op, At(op, e, p1))
    modifies t
    ensures t.Valid() && Rewrote(old(t.cells), root, op, e, t.cells, Dups2(op, e, p1, p2).tree)
    ensures count == Dups2(op, e, p1, p2).count
    decreases Size(e), 0, ShapeSize(ShapeAt(ShapeOf(op, e), p1)) + ShapeSize(ShapeAt(ShapeOf(op, e), p2)), 1
  {
    ghost var h := t.cells;
    OperandSlots(h, root, op, e, ep1, p1, ep2, p2);
    var r1 := Load(t.cells, root, ep1);
    InExtend(ShapeOf(op, e), p1, L);
    InExtend(ShapeOf(op, e), p1, R);
    ghost var a := Dups2(op, e, p1 + [L], p2);
    var c1 := Dups2At(t, op, root, LeftOf(r1), ep2, e, p1 + [L], p2);
    ghost var h1 := t.cells;
    SlotsKept(h, root, op, e, RightOf(r1), p1 + [R], ep2, p2, h1, a.tree);
    ghost var b := Dups2(op, a.tree, p1 + [R], p2);
    var c2 := Dups2At(t, op, root, RightOf(r1), ep2, a.tree, p1 + [R], p2);
    RewroteTwice(h, root, op, e, h1, a.tree, t.cells, b.tree);
    count := c1 + c2;
  }

  /** if (e2->type == type) { dups2(&e1, &e2->left); dups2(&e1, &e2->right); } */
  method Descend2At(t: Store, op: Op, root: Ref, ep1: Slot, ep2: Slot, ghost e: Expr, ghost p1: Path, ghost p2: Path)
    returns (count: nat)
    requires t.Valid() && Slots(t.cells, root, op, e, ep1, p1, ep2, p2)
    requires ShapeAt(ShapeOf(op, e), p1).Member?
    modifies t
    ensures t.Valid() && Rewrote(old(t.cells), root, op, e, t.cells, Descend2(op, e, p1, p2).tree)
    ensures count == Descend2(op, e, p1, p2).count
    decreases Size(e), 0, ShapeSize(ShapeAt(ShapeOf(op, e), p1)) + ShapeSize(ShapeAt(ShapeOf(op, e), p2)), 0
  {
    ghost var h := t.cells;
    SlotTypes(h, root, op, e, ep1, p1, ep2, p2);
    var r2 := Load(t.cells, root, ep2);
    if !(t.cells[r2].BinNode? && t.cells[r2].op == op) {
      ChainUntouched(h, h, root, op, e, {});
      return 0;
    }
    OperandSlots(h, root, op, e, ep2, p2, ep1, p1);
    InExtend(ShapeOf(op, e), p2, L);
    InExtend(ShapeOf(op, e), p2, R);
    ghost var a := Dups2(op, e, p1, p2 + [L]);
    var c1 := Dups2At(t, op, root, ep1, LeftOf(r2), e, p1, p2 + [L]);
    ghost var h1 := t.cells;
    SlotsKept(h, root, op, e, ep1, p1, RightOf(r2), p2 + [R], h1, a.tree);
    ghost var b := Dups2(op, a.tree, p1, p2 + [R]);
    var c2 := Dups2At(t, op, root, ep1, RightOf(r2), a.tree, p1, p2 + [R]);
    RewroteTwice(h, root, op, e, h1, a.tree, t.cells, b.tree);
    count := c1 + c2;
  }

  /** e1 is a member: descend into e2, then clean e1 on its own and test it against e2. */
  method Dups2Member(t: Store, op: Op, root: Ref, ep1: Slot, ep2: Slot, ghost e: Expr, ghost p1: Path, ghost p2: Path)
    returns (count: nat)
    requires t.Valid() && Slots(t.cells, root, op, e, ep1, p1, ep2, p2) && !IsOp(op, At(op, e, p1))
    modifies t
    ensures t.Valid() && Rewrote(old(t.cells), root, op, e, t.cells, Dups2(op, e, p1, p2).tree)
    ensures count == Dups2(op, e, p1, p2).count
    decreases Size(e), 0, ShapeSize(ShapeAt(ShapeOf(op, e), p1)) + ShapeSize(ShapeAt(ShapeOf(op, e), p2)), 1
  {
    ghost var h, d := t.cells, Descend2(op, e, p1, p2);
    var c0 := Descend2At(t, op, root, ep1, ep2, e, p1, p2);
    ghost var h1 := t.cells;
    SlotsKept(h, root, op, e, ep1, p1, ep2, p2, h1, d.tree);
    SlotTypes(h1, root, op, d.tree, ep1, p1, ep2, p2);
    var r1, r2 := Load(t.cells, root, ep1), Load(t.cells, root, ep2);
    if r1 == r2 || !t.cells[r1].BinNode? {
      return c0;
    }
    var c1 := Dups2Bin(t, op, root, ep1, ep2, d.tree, p1, p2);
    ghost var inner := Dups2(At(op, d.tree, p1).op, At(op, d.tree, p1), [], []);
    RewroteTwice(h, root, op, e, h1, d.tree, t.cells, AnnihilateMember(op, d.tree, p1, p2, inner).tree);
    count := c0 + c1;
  }

  /** switch (e1->type) of expr_eliminate_dups2, the cases E_OR and E_AND */
  method Dups2Bin(t: Store, op: Op, root: Ref, ep1: Slot, ep2: Slot, ghost e: Expr, ghost p1: Path, ghost p2: Path)
    returns (count: nat)
    requires t.Valid() && Slots(t.cells, root, op, e, ep1, p1, ep2, p2) && p1 != p2
    requires ShapeAt(ShapeOf(op, e), p1).Member? && At(op, e, p1).Bin?
    modifies t
    ensures t.Valid() && var e1 := At(op, e, p1);
                         var r := AnnihilateMember(op, e, p1, p2, Dups2(e1.op, e1, [], []));
                         Rewrote(old(t.cells), root, op, e, t.cells, r.tree) && count == r.count
    decreases Size(e), 0, 0
  {
    ghost var h, e1 := t.cells, At(op, e, p1);
    ghost var inner := Dups2(e1.op, e1, [], []);
    ghost var e' := Put(op, e, p1, inner.tree);
    LoadFollows(h, root, op, e, p1);
    var r1 := Load(t.cells, root, ep1);
    var c1 := Dups2At(t, t.cells[r1].op, r1, Top, Top, e1, [], []);
    ghost var h1 := t.cells;
    PutShape(op, e, p1, inner.tree);
    InnerBecomes(h, root, op, e, p1, h1, inner.tree);
    SlotsKept(h, root, op, e, ep1, p1, ep2, p2, h1, e');
    var c2 := AnnihilateAt(t, op, root, ep1, ep2, e', p1, p2);
    RewroteTwice(h, root, op, e, h1, e', t.cells, Annihilated(op, e', p1, p2).tree);
    count := c1 + c2;
  }

  // ---------------------------------------------------------- expr_eliminate_dups

  /** expr_eliminate_dups, in place: the loop with trans_count */
  method EliminateDupsAt(t: Store, root: Ref, ghost e0: Expr)
    requires t.Valid() && Tree(t.cells, root, e0)
    modifies t
    ensures t.Valid() && Becomes(old(t.cells), root, e0, t.cells, root, EliminateDups(e0))
  {
    ghost var h, e := t.cells, e0;
    TreeNodes(h, root, e0);
    while true
      invariant t.Valid() && Becomes(h, root, e0, t.cells, root, e)
      invariant EliminateDups(e) == EliminateDups(e0)
      decreases Size(e)
    {
      ghost var h1 := t.cells;
      var transCount := DupsPassAt(t, root, e);
      DupsPassKeeps(e);
      BecomesTwice(h, root, e0, h1, root, e, t.cells, root, DupsPass(e).tree);
      if transCount == 0 {
        break;
      }
      ghost var h2, e1 := t.cells, DupsPass(e).tree;
      t.EliminateYnAt(root, e1);
      BecomesTwice(h, root, e0, h2, root, e1, t.cells, root, EliminateYn(e1));
      e := EliminateYn(e1);
    }
  }

  /** switch (e->type) of the loop body */
  method DupsPassAt(t: Store, root: Ref, ghost e: Expr) returns (count: nat)
    requires t.Valid() && Tree(t.cells, root, e)
    modifies t
    ensures t.Valid() && Becomes(old(t.cells), root, e, t.cells, root, DupsPass(e).tree)
    ensures count == DupsPass(e).count
  {
    ghost var h := t.cells;
    TreeNodes(h, root, e);
    if !t.cells[root].BinNode? {
      return 0;
    }
    var op := t.cells[root].op;
    ghost var a := Dups1(op, e, [], []);
    var c1 := Dups1At(t, op, root, Top, Top, e, [], []);
    ghost var h1 := t.cells;
    var c2 := Dups2At(t, op, root, Top, Top, a.tree, [], []);
    BecomesTwice(h, root, e, h1, root, a.tree, t.cells, root, DupsPass(e).tree);
    count := c1 + c2;
  }
}
