// menu_finalize on linked menus: next, list and parent pointers rewritten in place.
module MenuTree {
  import opened Wrappers
  import opened Expr
  import opened Submenu
  import opened Menu

  type Ptr = Option<Id>

  /** The pointer fields and the contents of all menus. */
  datatype Heap = Heap(next: map<Id, Ptr>, list: map<Id, Ptr>, parent: map<Id, Ptr>, entry: map<Id, Entry>)

  ghost predicate Allocated(h: Heap, id: Id) {
    id in h.next && id in h.list && id in h.parent && id in h.entry
  }

  /** From q on, the next pointers spell the forest f and then reach end; every entry of
      f names owner, the menu whose list it is in, as its parent, and so on below. */
  ghost predicate Seg(h: Heap, q: Ptr, owner: Ptr, f: Forest, end: Ptr)
    decreases f
  {
    match f
    case Nil => q == end
    case Cons(id, e, k, r) =>
      && q == Some(id) && Allocated(h, id)
      && h.entry[id] == e && h.parent[id] == owner
      && Seg(h, h.list[id], Some(id), k, None)
      && Seg(h, h.next[id], owner, r, end)
  }

  function Ids(f: Forest): set<Id> {
    match f
    case Nil => {}
    case Cons(id, _, k, r) => {id} + Ids(k) + Ids(r)
  }

  /** No menu occurs twice. */
  ghost predicate Distinct(f: Forest) {
    f.Cons? ==>
      && f.id !in Ids(f.kids) && f.id !in Ids(f.rest) && Ids(f.kids) !! Ids(f.rest)
      && Distinct(f.kids) && Distinct(f.rest)
  }

  /** The menus of ids are as they were. */
  ghost predicate Same(h: Heap, h': Heap, ids: set<Id>) {
    forall id: Id :: id in ids && Allocated(h, id) ==>
      && Allocated(h', id)
      && h'.next[id] == h.next[id] && h'.list[id] == h.list[id]
      && h'.parent[id] == h.parent[id] && h'.entry[id] == h.entry[id]
  }

  /** Only the menus of ids may differ. */
  ghost predicate SameOutside(h: Heap, h': Heap, ids: set<Id>) {
    forall id: Id :: id !in ids && Allocated(h, id) ==>
      && Allocated(h', id)
      && h'.next[id] == h.next[id] && h'.list[id] == h.list[id]
      && h'.parent[id] == h.parent[id] && h'.entry[id] == h.entry[id]
  }

  lemma OutsideTwice(h0: Heap, h1: Heap, h2: Heap, ids: set<Id>, ids': set<Id>, all: set<Id>)
    requires SameOutside(h0, h1, ids) && SameOutside(h1, h2, ids') && ids <= all && ids' <= all
    ensures SameOutside(h0, h2, all)
  {
  }

  lemma {:induction false} SegFrame(h: Heap, h': Heap, q: Ptr, owner: Ptr, f: Forest, end: Ptr)
    requires Seg(h, q, owner, f, end) && Same(h, h', Ids(f))
    ensures Seg(h', q, owner, f, end)
    decreases f
  {
    if f.Cons? {
      SegFrame(h, h', h.list[f.id], Some(f.id), f.kids, None);
      SegFrame(h, h', h.next[f.id], owner, f.rest, end);
    }
  }

  lemma {:induction false} SegAllocated(h: Heap, q: Ptr, owner: Ptr, f: Forest, end: Ptr, id: Id)
    requires Seg(h, q, owner, f, end) && id in Ids(f)
    ensures Allocated(h, id)
    decreases f
  {
    if id in Ids(f.kids) {
      SegAllocated(h, h.list[f.id], Some(f.id), f.kids, None, id);
    } else if id in Ids(f.rest) {
      SegAllocated(h, h.next[f.id], owner, f.rest, end, id);
    }
  }

  lemma {:induction false} SegAppend(h: Heap, q: Ptr, owner: Ptr, f: Forest, mid: Ptr, g: Forest, end: Ptr)
    requires Seg(h, q, owner, f, mid) && Seg(h, mid, owner, g, end)
    ensures Seg(h, q, owner, Append(f, g), end)
    decreases f
  {
    if f.Cons? {
      SegAppend(h, h.next[f.id], owner, f.rest, mid, g, end);
    }
  }

  lemma {:induction false} AppendIds(f: Forest, g: Forest)
    ensures Ids(Append(f, g)) == Ids(f) + Ids(g)
    ensures Distinct(Append(f, g)) <==> Distinct(f) && Distinct(g) && Ids(f) !! Ids(g)
  {
    if f.Cons? {
      AppendIds(f.rest, g);
    }
  }

  /** The last entry of a sibling list. */
  function Last(f: Forest): Id
    requires f.Cons?
  {
    if f.rest.Nil? then f.id else Last(f.rest)
  }

  lemma {:induction false} LastIn(f: Forest)
    requires f.Cons?
    ensures Last(f) in Ids(f)
  {
    if f.rest.Cons? {
      LastIn(f.rest);
    }
  }

  lemma {:induction false} LastAppend(f: Forest, g: Forest)
    requires g.Cons?
    ensures Append(f, g).Cons? && Last(Append(f, g)) == Last(g)
  {
    if f.Cons? {
      LastAppend(f.rest, g);
    }
  }

  /** Pointing the last entry somewhere else moves the segment's end. */
  lemma {:induction false} SegRelink(h: Heap, h': Heap, q: Ptr, owner: Ptr, f: Forest, end: Ptr, end': Ptr)
    requires f.Cons? && Distinct(f) && Seg(h, q, owner, f, end)
    requires Last(f) in h.next && h' == h.(next := h.next[Last(f) := end'])
    ensures Seg(h', q, owner, f, end')
    ensures h.next[Last(f)] == end
    decreases f
  {
    if f.rest.Nil? {
      SegFrame(h, h', h.list[f.id], Some(f.id), f.kids, None);
    } else {
      LastIn(f.rest);
      SegFrame(h, h', h.list[f.id], Some(f.id), f.kids, None);
      SegRelink(h, h', h.next[f.id], owner, f.rest, end, end');
    }
  }

  lemma {:induction false} SegLast(h: Heap, q: Ptr, owner: Ptr, f: Forest, end: Ptr)
    requires f.Cons? && Seg(h, q, owner, f, end)
    ensures Last(f) in h.next && h.next[Last(f)] == end
    decreases f
  {
    if f.rest.Cons? {
      SegLast(h, h.next[f.id], owner, f.rest, end);
    }
  }

  /** A loop at the cursor menu: done is behind it (owner o1), todo is still ahead (owner o2). */
  ghost predicate Cursor(h: Heap, q: Ptr, o1: Ptr, done: Forest, menu: Ptr, o2: Ptr, todo: Forest, ids: set<Id>) {
    && Seg(h, q, o1, done, menu) && Seg(h, menu, o2, todo, None)
    && Distinct(done) && Distinct(todo) && Ids(done) !! Ids(todo)
    && Ids(done) + Ids(todo) == ids
  }

  /** h' arose by rewriting the list ahead into f, whose first entry now belongs to o1. */
  ghost predicate Rewritten(h: Heap, h': Heap, todo: Forest, o1: Ptr, o2: Ptr, f: Forest) {
    && todo.Cons? && f.Cons? && f.id == todo.id
    && Ids(f) == Ids(todo) && Distinct(f)
    && SameOutside(h, h', Ids(todo))
    && Allocated(h', f.id) && h'.entry[f.id] == f.entry && h'.parent[f.id] == o1
    && Seg(h', h'.list[f.id], Some(f.id), f.kids, None)
    && Seg(h', h'.next[f.id], o2, f.rest, None)
  }

  function Snoc(done: Forest, f: Forest): Forest
    requires f.Cons?
  {
    Append(done, Cons(f.id, f.entry, f.kids, Nil))
  }

  /** The cursor moves past the entry. */
  lemma {:induction false} Advance(h: Heap, h': Heap, q: Ptr, o1: Ptr, done: Forest, menu: Ptr, o2: Ptr,
                                   todo: Forest, ids: set<Id>, f: Forest)
    requires Cursor(h, q, o1, done, menu, o2, todo, ids)
    requires Rewritten(h, h', todo, o1, o2, f)
    ensures Cursor(h', q, o1, Snoc(done, f), h'.next[f.id], o2, f.rest, ids)
    ensures Last(Snoc(done, f)) == f.id
  {
    var node := Cons(f.id, f.entry, f.kids, Nil);
    SegFrame(h, h', q, o1, done, menu);
    SegAppend(h', q, o1, done, menu, node, h'.next[f.id]);
    AppendIds(done, node);
    LastAppend(done, node);
  }

  /** The entry at the head of f and everything below it. */
  function Visited(f: Forest): seq<Id>
    requires f.Cons?
  {
    [f.id] + Preorder(f.kids)
  }

  lemma SnocTrace(base: seq<Id>, done: Forest, f: Forest)
    requires f.Cons?
    ensures base + Preorder(Snoc(done, f)) == base + Preorder(done) + Visited(f)
  {
    AppendPreorder(done, Cons(f.id, f.entry, f.kids, Nil));
  }

  lemma HeadTrace(base: seq<Id>, f: Forest, kids: Forest)
    requires f.Cons? && Preorder(f.kids) == Preorder(kids)
    ensures base + [f.id] + Preorder(kids) == base + Visited(f)
  {
  }

  /** New contents for the first entry ahead, with all links as they were. */
  lemma {:induction false} RewriteEntry(h: Heap, h': Heap, owner: Ptr, todo: Forest, f: Forest)
    requires todo.Cons? && Distinct(todo) && Seg(h, Some(todo.id), owner, todo, None)
    requires f.Cons? && f == todo.(entry := f.entry) && h' == h.(entry := h.entry[f.id := f.entry])
    ensures Rewritten(h, h', todo, owner, owner, f)
  {
    SegFrame(h, h', h.list[f.id], Some(f.id), f.kids, None);
    SegFrame(h, h', h.next[f.id], owner, f.rest, None);
  }

  lemma SnocAppend(done: Forest, f: Forest, g: Forest)
    requires f.Cons?
    ensures Append(Snoc(done, f), g) == Append(done, Cons(f.id, f.entry, f.kids, g))
  {
    AppendAssociative(done, Cons(f.id, f.entry, f.kids, Nil), g);
  }

  /** The last entry of one list is made to point at the head of another one. */
  lemma {:induction false} JoinLists(h: Heap, h': Heap, q: Ptr, owner: Ptr, f: Forest, r: Ptr, g: Forest)
    requires f.Cons? && Distinct(f) && Ids(f) !! Ids(g)
    requires Seg(h, q, owner, f, None) && Seg(h, r, owner, g, None)
    requires Last(f) in h.next && h' == h.(next := h.next[Last(f) := r])
    ensures Seg(h', q, owner, Append(f, g), None)
  {
    LastIn(f);
    SegRelink(h, h', q, owner, f, None, r);
    SegFrame(h, h', r, owner, g, None);
    SegAppend(h', q, owner, f, r, g, None);
  }

  // -------------------------------------- the specification keeps the menus

  lemma {:induction false} PropagateIds(outer: Dep, f: Forest, rd: RevDeps)
    ensures Ids(Propagate(outer, f, rd).0) == Ids(f)
    ensures Distinct(f) ==> Distinct(Propagate(outer, f, rd).0)
  {
    if f.Cons? {
      PropagateIds(outer, f.rest, AddSelects(f.entry.sym, InheritEntry(outer, f.entry).props, rd));
    }
  }

  lemma {:induction false} FlattenIds(f: Forest)
    ensures Ids(Flatten(f)) == Ids(f)
    ensures Distinct(f) ==> Distinct(Flatten(f))
    decreases Count(f)
  {
    if f.Cons? {
      if f.kids.Cons? && !f.entry.HasPrompt() {
        AppendIds(f.kids, f.rest);
        FlattenIds(Append(f.kids, f.rest));
      } else {
        FlattenIds(f.rest);
      }
    }
  }

  lemma {:induction false} FinalizeIds(f: Forest, rd: RevDeps)
    requires f.Cons? && Distinct(f)
    ensures Ids(FinalizeHead(f, rd).0) == Ids(f) && Distinct(FinalizeHead(f, rd).0)
    decreases Count(f), 0
  {
    if f.kids.Cons? {
      var a := Propagate(f.entry.Condition(), f.kids, rd);
      PropagateIds(f.entry.Condition(), f.kids, rd);
      FinalizeListIds(a.0, a.1);
      FlattenIds(FinalizeList(a.0, a.1).0);
    } else if f.entry.sym.Some? {
      var a := Adopt(f.entry.PromptVisible(), f.entry.sym.value, f.rest, rd);
      AdoptIds(f.entry.PromptVisible(), f.entry.sym.value, f.rest, rd);
      FlattenIds(a.0);
    }
  }

  lemma {:induction false} FinalizeListIds(f: Forest, rd: RevDeps)
    requires Distinct(f)
    ensures Ids(FinalizeList(f, rd).0) == Ids(f) && Distinct(FinalizeList(f, rd).0)
    decreases Count(f), 1
  {
    if f.Cons? {
      var h := FinalizeHead(f, rd);
      FinalizeIds(f, rd);
      FinalizeListIds(h.0.rest, h.1);
    }
  }

  lemma {:induction false} AdoptIds(prompt: Dep, sym: Symbol, f: Forest, rd: RevDeps)
    requires Distinct(f)
    ensures var r := Adopt(prompt, sym, f, rd);
            && Ids(r.0) + Ids(r.1) == Ids(f) && Ids(r.0) !! Ids(r.1)
            && Distinct(r.0) && Distinct(r.1)
    decreases Count(f), 1
  {
    if f.Cons? && Adopts(prompt, sym, f.entry.Condition()) {
      var h := FinalizeHead(f, rd);
      FinalizeIds(f, rd);
      AdoptIds(prompt, sym, h.0.rest, h.1);
    }
  }

  /** The siblings done were adopted, and adopting goes on with todo. */
  ghost predicate Adopting(prompt: Dep, sym: Symbol, all: Forest, rd0: RevDeps,
                           done: Forest, todo: Forest, rd: RevDeps) {
    var a := Adopt(prompt, sym, todo, rd);
    Adopt(prompt, sym, all, rd0) == (Append(done, a.0), a.1, a.2)
  }

  lemma AdoptingStep(prompt: Dep, sym: Symbol, all: Forest, rd0: RevDeps, done: Forest, todo: Forest, rd: RevDeps)
    requires Adopting(prompt, sym, all, rd0, done, todo, rd)
    requires todo.Cons? && Adopts(prompt, sym, todo.entry.Condition())
    ensures var r := FinalizeHead(todo, rd);
            Adopting(prompt, sym, all, rd0, Snoc(done, r.0), r.0.rest, r.1)
  {
    var r := FinalizeHead(todo, rd);
    SnocAppend(done, r.0, Adopt(prompt, sym, r.0.rest, r.1).0);
  }

  // ---------------------------------------------------------------- the class

  class Tree {
    var next: map<Id, Ptr>
    var list: map<Id, Ptr>
    var parent: map<Id, Ptr>
    var entry: map<Id, Entry>
    var revDep: RevDeps
    ghost var finalized: seq<Id>  // the menus menu_finalize was called on, in order

    constructor (h: Heap, rd: RevDeps)
      ensures H() == h && revDep == rd && finalized == []
    {
      next, list, parent, entry, revDep := h.next, h.list, h.parent, h.entry, rd;
      finalized := [];
    }

    ghost function H(): Heap
      reads this
    {
      Heap(next, list, parent, entry)
    }

    /** The body of the first loop: the new conditions of one entry, and its selects */
    method PropagateEntry(id: Id, outer: Dep)
      requires id in entry
      modifies this`entry, this`revDep
      ensures entry == old(entry)[id := InheritEntry(outer, old(entry)[id])]
      ensures revDep == AddSelects(entry[id].sym, entry[id].props, old(revDep))
    {
      var e := entry[id];
      var basedep := Inherit(outer, e.dep);
      var props, i := [], 0;
      while i < |e.props|
        invariant 0 <= i <= |e.props|
        invariant props == InheritProps(e.sym, basedep, e.props[..i])
        invariant revDep == AddSelects(e.sym, props, old(revDep))
        invariant entry == old(entry)
      {
        assert e.props[..i + 1][..i] == e.props[..i];
        var p := InheritProp(e.sym, basedep, e.props[i]);
        revDep := AddSelect(e.sym, p, revDep);
        assert (props + [p])[..|props|] == props;
        props := props + [p];
        i := i + 1;
      }
      assert e.props[..i] == e.props;
      entry := entry[id := e.(dep := basedep, props := props)];
    }

    /** The first loop of menu_finalize, over the list at q */
    method PropagateList(q: Ptr, ghost owner: Ptr, outer: Dep, ghost f: Forest)
      requires Seg(H(), q, owner, f, None) && Distinct(f)
      modifies this`entry, this`revDep
      ensures Seg(H(), q, owner, Propagate(outer, f, old(revDep)).0, None)
      ensures revDep == Propagate(outer, f, old(revDep)).1
      ensures SameOutside(old(H()), H(), Ids(f))
    {
      var menu := q;
      ghost var done, todo := Nil, f;
      ghost var h0 := H();
      while menu.Some?
        invariant Cursor(H(), q, owner, done, menu, owner, todo, Ids(f))
        invariant Propagate(outer, f, old(revDep)) ==
                  (Append(done, Propagate(outer, todo, revDep).0), Propagate(outer, todo, revDep).1)
        invariant SameOutside(h0, H(), Ids(f))
        decreases Count(todo)
      {
        var id := menu.value;
        ghost var h1 := H();
        PropagateEntry(id, outer);
        ghost var r := todo.(entry := InheritEntry(outer, todo.entry));
        RewriteEntry(h1, H(), owner, todo, r);
        Advance(h1, H(), q, owner, done, menu, owner, todo, Ids(f), r);
        SnocAppend(done, r, Propagate(outer, r.rest, revDep).0);
        done, todo := Snoc(done, r), r.rest;
        menu := next[id];
      }
      AppendAssociative(done, Nil, Nil);
    }

    /** The body of the last loop, for the entry id */
    method FlattenEntry(id: Id, parentId: Id, ghost todo: Forest)
      requires todo.Cons? && Seg(H(), Some(id), Some(parentId), todo, None) && Distinct(todo)
      modifies this`next, this`list, this`parent
      ensures Rewritten(old(H()), H(), todo, Some(parentId), Some(parentId), FlattenStep(todo))
    {
      if list[id].Some? && !entry[id].HasPrompt() {
        MoveUp(id, parentId, todo.kids, todo.rest);
        AppendIds(todo.kids, todo.rest);
      }
    }

    /** The last loop: move the children of prompt-less entries up, behind their parent. */
    method FlattenList(parentId: Id, ghost f: Forest)
      requires Allocated(H(), parentId) && Seg(H(), list[parentId], Some(parentId), f, None)
      requires Distinct(f) && parentId !in Ids(f)
      modifies this`next, this`list, this`parent
      ensures Allocated(H(), parentId)
      ensures Seg(H(), list[parentId], Some(parentId), Flatten(f), None)
      ensures SameOutside(old(H()), H(), Ids(f))
    {
      var menu := list[parentId];
      ghost var q := menu;
      ghost var done, todo := Nil, f;
      ghost var h0 := H();
      while menu.Some?
        invariant Cursor(H(), q, Some(parentId), done, menu, Some(parentId), todo, Ids(f))
        invariant Flatten(f) == Append(done, Flatten(todo))
        invariant SameOutside(h0, H(), Ids(f))
        invariant Allocated(H(), parentId) && list[parentId] == q
        decreases Count(todo)
      {
        var id := menu.value;
        ghost var h1, r := H(), FlattenStep(todo);
        FlattenEntry(id, parentId, todo);
        Advance(h1, H(), q, Some(parentId), done, menu, Some(parentId), todo, Ids(f), r);
        SnocAppend(done, r, Flatten(r.rest));
        done, todo := Snoc(done, r), r.rest;
        menu := next[id];
      }
      AppendAssociative(done, Nil, Nil);
    }

    /** for (last = q; ; last = last->next) { last->parent = parentId; if (!last->next) break; } */
    method Reparent(q: Ptr, id: Id, parentId: Id, ghost kids: Forest) returns (last: Id)
      requires kids.Cons? && Seg(H(), q, Some(id), kids, None) && Distinct(kids)
      modifies this`parent
      ensures Seg(H(), q, Some(parentId), kids, None)
      ensures last == Last(kids) && last in next
      ensures SameOutside(old(H()), H(), Ids(kids))
    {
      ghost var h0 := H();
      last := q.value;
      ghost var done, todo := Nil, kids;
      while true
        invariant Cursor(H(), q, Some(parentId), done, Some(last), Some(id), todo, Ids(kids))
        invariant todo.Cons? && Append(done, todo) == kids
        invariant SameOutside(h0, H(), Ids(kids))
        decreases Count(todo)
      {
        ghost var h1 := H();
        parent := parent[last := Some(parentId)];
        SegFrame(h1, H(), list[last], Some(last), todo.kids, None);
        SegFrame(h1, H(), next[last], Some(id), todo.rest, None);
        Advance(h1, H(), q, Some(parentId), done, Some(last), Some(id), todo, Ids(kids), todo);
        SnocAppend(done, todo, todo.rest);
        done, todo := Snoc(done, todo), todo.rest;
        if next[last].None? {
          break;
        }
        last := next[last].value;
      }
      AppendAssociative(done, Nil, Nil);
    }

    /** last->next = menu->next; menu->next = menu->list; menu->list = NULL; */
    method Splice(id: Id, last: Id, parentId: Id, ghost kids: Forest, ghost rest: Forest)
      requires Allocated(H(), id) && kids.Cons? && last == Last(kids) && last in next
      requires Seg(H(), list[id], Some(parentId), kids, None) && Seg(H(), next[id], Some(parentId), rest, None)
      requires Distinct(kids) && Ids(kids) !! Ids(rest) && id !in Ids(kids) && id !in Ids(rest)
      modifies this`next, this`list
      ensures Allocated(H(), id) && list[id] == None
      ensures Seg(H(), next[id], Some(parentId), Append(kids, rest), None)
      ensures SameOutside(old(H()), H(), Ids(kids) + {id})
      ensures parent == old(parent) && entry == old(entry)
    {
      ghost var h0 := H();
      LastIn(kids);
      next := next[last := next[id]];
      JoinLists(h0, H(), h0.list[id], Some(parentId), kids, h0.next[id], rest);
      ghost var h1 := H();
      assert SameOutside(h0, h1, Ids(kids));
      next := next[id := list[id]];
      list := list[id := None];
      assert SameOutside(h1, H(), {id});
      AppendIds(kids, rest);
      SegFrame(h1, H(), next[id], Some(parentId), Append(kids, rest), None);
    }

    /** The children of id become its next siblings. */
    method MoveUp(id: Id, parentId: Id, ghost kids: Forest, ghost rest: Forest)
      requires Allocated(H(), id) && kids.Cons? && list[id].Some?
      requires Seg(H(), list[id], Some(id), kids, None) && Seg(H(), next[id], Some(parentId), rest, None)
      requires Distinct(kids) && Distinct(rest) && Ids(kids) !! Ids(rest)
      requires id !in Ids(kids) && id !in Ids(rest)
      modifies this`next, this`list, this`parent
      ensures Allocated(H(), id) && list[id] == None
      ensures Seg(H(), next[id], Some(parentId), Append(kids, rest), None)
      ensures SameOutside(old(H()), H(), Ids(kids) + {id})
      ensures parent[id] == old(parent)[id] && entry[id] == old(entry)[id]
    {
      ghost var h0 := H();
      var last := Reparent(list[id], id, parentId, kids);
      SegFrame(h0, H(), next[id], Some(parentId), rest, None);
      Splice(id, last, parentId, kids, rest);
    }

    /** menu_finalize(p), where f spells the sibling list from p on */
    method Finalize(p: Id, ghost owner: Ptr, ghost f: Forest)
      requires f.Cons? && Seg(H(), Some(p), owner, f, None) && Distinct(f)
      modifies this
      ensures Seg(H(), Some(p), owner, FinalizeHead(f, old(revDep)).0, None)
      ensures revDep == FinalizeHead(f, old(revDep)).1
      ensures SameOutside(old(H()), H(), Ids(f))
      ensures finalized == old(finalized) + Visited(FinalizeHead(f, old(revDep)).0)
      decreases Count(f), 0, 1
    {
      finalized := finalized + [p];
      if list[p].Some? {
        FinalizeNested(p, owner, f);
        HeadTrace(old(finalized), FinalizeHead(f, old(revDep)).0, FinalizeHead(f, old(revDep)).0.kids);
      } else if entry[p].sym.Some? {
        FinalizeSymbol(p, owner, f);
        HeadTrace(old(finalized), FinalizeHead(f, old(revDep)).0, FinalizeHead(f, old(revDep)).0.kids);
      } else {
        HeadTrace(old(finalized), f, Nil);
        assert old(finalized) + [p] + [] == old(finalized) + [p];
      }
    }

    /** if (parent->list) { ... } and the flattening after it */
    method FinalizeNested(p: Id, ghost owner: Ptr, ghost f: Forest)
      requires f.Cons? && Seg(H(), Some(p), owner, f, None) && Distinct(f)
      requires f.kids.Cons?
      modifies this
      ensures Seg(H(), Some(p), owner, FinalizeHead(f, old(revDep)).0, None)
      ensures revDep == FinalizeHead(f, old(revDep)).1
      ensures SameOutside(old(H()), H(), Ids(f))
      ensures finalized == old(finalized) + Preorder(FinalizeHead(f, old(revDep)).0.kids)
      decreases Count(f), 0, 0
    {
      ghost var h0, rd0 := H(), revDep;
      var outer := entry[p].Condition();
      PropagateList(list[p], Some(p), outer, f.kids);
      ghost var a := Propagate(outer, f.kids, rd0);
      PropagateIds(outer, f.kids, rd0);
      FinalizeListIds(a.0, a.1);
      FinalizeChildren(p, a.0);
      FlattenPreorder(FinalizeList(a.0, a.1).0);
      FlattenList(p, FinalizeList(a.0, a.1).0);
      SegFrame(h0, H(), next[p], owner, f.rest, None);
    }

    /** else if (sym) { ... } and the flattening after it */
    method FinalizeSymbol(p: Id, ghost owner: Ptr, ghost f: Forest)
      requires f.Cons? && Seg(H(), Some(p), owner, f, None) && Distinct(f)
      requires f.kids.Nil? && f.entry.sym.Some?
      modifies this
      ensures Seg(H(), Some(p), owner, FinalizeHead(f, old(revDep)).0, None)
      ensures revDep == FinalizeHead(f, old(revDep)).1
      ensures SameOutside(old(H()), H(), Ids(f))
      ensures finalized == old(finalized) + Preorder(FinalizeHead(f, old(revDep)).0.kids)
      decreases Count(f), 0, 0
    {
      ghost var a := Adopt(f.entry.PromptVisible(), f.entry.sym.value, f.rest, revDep);
      AdoptIds(f.entry.PromptVisible(), f.entry.sym.value, f.rest, revDep);
      AdoptSiblings(p, owner, entry[p].PromptVisible(), entry[p].sym.value, f);
      ghost var h1 := H();
      FlattenPreorder(a.0);
      FlattenList(p, a.0);
      SegFrame(h1, H(), next[p], owner, a.1, None);
    }

    /** for (menu = parent->list; menu; menu = menu->next) menu_finalize(menu); */
    method FinalizeChildren(p: Id, ghost f: Forest)
      requires Allocated(H(), p) && Seg(H(), list[p], Some(p), f, None) && Distinct(f) && p !in Ids(f)
      modifies this
      ensures Allocated(H(), p)
      ensures Seg(H(), list[p], Some(p), FinalizeList(f, old(revDep)).0, None)
      ensures revDep == FinalizeList(f, old(revDep)).1
      ensures SameOutside(old(H()), H(), Ids(f))
      ensures finalized == old(finalized) + Preorder(FinalizeList(f, old(revDep)).0)
      decreases Count(f), 1
    {
      var menu := list[p];
      ghost var q := menu;
      ghost var done, todo := Nil, f;
      ghost var h0 := H();
      while menu.Some?
        invariant Cursor(H(), q, Some(p), done, menu, Some(p), todo, Ids(f)) && Count(todo) <= Count(f)
        invariant FinalizeList(f, old(revDep)) ==
                  (Append(done, FinalizeList(todo, revDep).0), FinalizeList(todo, revDep).1)
        invariant SameOutside(h0, H(), Ids(f))
        invariant Allocated(H(), p) && list[p] == q
        invariant finalized == old(finalized) + Preorder(done)
        decreases Count(todo)
      {
        var id := menu.value;
        ghost var h1, r := H(), FinalizeHead(todo, revDep);
        FinalizeIds(todo, revDep);
        Finalize(id, Some(p), todo);
        Advance(h1, H(), q, Some(p), done, menu, Some(p), todo, Ids(f), r.0);
        SnocAppend(done, r.0, FinalizeList(r.0.rest, r.1).0);
        SnocTrace(old(finalized), done, r.0);
        done, todo := Snoc(done, r.0), r.0.rest;
        menu := next[id];
      }
      AppendAssociative(done, Nil, Nil);
    }

    /** menu_finalize(menu); menu->parent = parent; */
    method AdoptOne(p: Id, ghost owner: Ptr, id: Id, ghost todo: Forest)
      requires todo.Cons? && Seg(H(), Some(id), owner, todo, None) && Distinct(todo)
      requires p !in Ids(todo)
      modifies this
      ensures var r := FinalizeHead(todo, old(revDep));
              && Rewritten(old(H()), H(), todo, Some(p), owner, r.0) && revDep == r.1
              && finalized == old(finalized) + Visited(r.0)
      decreases Count(todo), 1
    {
      ghost var r := FinalizeHead(todo, revDep);
      FinalizeIds(todo, revDep);
      Finalize(id, owner, todo);
      ghost var h2 := H();
      parent := parent[id := Some(p)];
      SegFrame(h2, H(), list[id], Some(id), r.0.kids, None);
      SegFrame(h2, H(), next[id], owner, r.0.rest, None);
    }

    /** One adoption, and menu = menu->next */
    method AdoptNext(p: Id, ghost owner: Ptr, id: Id, ghost q: Ptr,
                     ghost done: Forest, ghost todo: Forest, ghost ids: set<Id>)
      requires todo.Cons? && Cursor(H(), q, Some(p), done, Some(id), owner, todo, ids) && p !in ids
      modifies this
      ensures var r := FinalizeHead(todo, old(revDep));
              && id in next && Cursor(H(), q, Some(p), Snoc(done, r.0), next[id], owner, r.0.rest, ids)
              && Last(Snoc(done, r.0)) == id && revDep == r.1
              && finalized == old(finalized) + Visited(r.0)
      ensures SameOutside(old(H()), H(), ids)
      decreases Count(todo), 2
    {
      ghost var h1, r := H(), FinalizeHead(todo, revDep);
      AdoptOne(p, owner, id, todo);
      Advance(h1, H(), q, Some(p), done, Some(id), owner, todo, ids, r.0);
    }

    /** The sibling loop of menu_finalize: menu is where it stops, lastMenu the last one adopted */
    method AdoptLoop(p: Id, ghost owner: Ptr, prompt: Dep, sym: Symbol, ghost f: Forest)
      returns (menu: Ptr, lastMenu: Ptr, ghost done: Forest, ghost todo: Forest)
      requires f.Cons? && f.kids.Nil? && Seg(H(), Some(p), owner, f, None) && Distinct(f)
      modifies this
      ensures Allocated(H(), p) && Cursor(H(), next[p], Some(p), done, menu, owner, todo, Ids(f.rest))
      ensures Adopt(prompt, sym, f.rest, old(revDep)) == (done, todo, revDep)
      ensures lastMenu == if done.Nil? then None else Some(Last(done))
      ensures SameOutside(old(H()), H(), Ids(f.rest))
      ensures finalized == old(finalized) + Preorder(done)
      decreases Count(f.rest), 3
    {
      menu, lastMenu := next[p], None;
      ghost var q := menu;
      done, todo := Nil, f.rest;
      ghost var h0 := H();
      while menu.Some?
        invariant Cursor(H(), q, Some(p), done, menu, owner, todo, Ids(f.rest)) && Count(todo) <= Count(f.rest)
        invariant Adopting(prompt, sym, f.rest, old(revDep), done, todo, revDep)
        invariant lastMenu == if done.Nil? then None else Some(Last(done))
        invariant SameOutside(h0, H(), Ids(f.rest))
        invariant finalized == old(finalized) + Preorder(done)
        decreases Count(todo)
      {
        var id := menu.value;
        if !Adopts(prompt, sym, entry[id].Condition()) {
          break;
        }
        ghost var h1, r := H(), FinalizeHead(todo, revDep);
        AdoptingStep(prompt, sym, f.rest, old(revDep), done, todo, revDep);
        AdoptNext(p, owner, id, q, done, todo, Ids(f.rest));
        OutsideTwice(h0, h1, H(), Ids(f.rest), Ids(f.rest), Ids(f.rest));
        lastMenu := menu;
        SnocTrace(old(finalized), done, r.0);
        done, todo := Snoc(done, r.0), r.0.rest;
        menu := next[id];
      }
      AppendAssociative(done, Nil, Nil);
    }

    /** The branch of menu_finalize for an entry without a list */
    method AdoptSiblings(p: Id, ghost owner: Ptr, prompt: Dep, sym: Symbol, ghost f: Forest)
      requires f.Cons? && f.kids.Nil? && Seg(H(), Some(p), owner, f, None) && Distinct(f)
      modifies this
      ensures var a := Adopt(prompt, sym, f.rest, old(revDep));
              && Allocated(H(), p)
              && Seg(H(), list[p], Some(p), a.0, None)
              && Seg(H(), next[p], owner, a.1, None)
              && revDep == a.2
              && entry[p] == f.entry && parent[p] == owner
              && finalized == old(finalized) + Preorder(a.0)
      ensures SameOutside(old(H()), H(), Ids(f))
      decreases Count(f.rest), 4
    {
      ghost var h0 := H();
      ghost var done, todo;
      var menu, lastMenu;
      menu, lastMenu, done, todo := AdoptLoop(p, owner, prompt, sym, f);
      ghost var h1 := H();
      RelinkAdopted(p, owner, menu, lastMenu, done, todo, Ids(f.rest));
      OutsideTwice(h0, h1, H(), Ids(f.rest), Ids(done) + {p}, Ids(f));
    }

    /** if (last_menu) { ... } */
    method RelinkAdopted(p: Id, ghost owner: Ptr, menu: Ptr, lastMenu: Ptr, ghost done: Forest, ghost todo: Forest,
                         ghost ids: set<Id>)
      requires Allocated(H(), p) && list[p] == None && p !in ids
      requires Cursor(H(), next[p], Some(p), done, menu, owner, todo, ids)
      requires lastMenu == if done.Nil? then None else Some(Last(done))
      modifies this`next, this`list
      ensures Allocated(H(), p)
      ensures Seg(H(), list[p], Some(p), done, None) && Seg(H(), next[p], owner, todo, None)
      ensures SameOutside(old(H()), H(), Ids(done) + {p})
      ensures parent[p] == old(parent)[p] && entry[p] == old(entry)[p]
    {
      if lastMenu.Some? {
        SegLast(H(), next[p], Some(p), done, menu);
        Relink(p, owner, lastMenu.value, done, todo);
      }
    }

    /** parent->list = parent->next; parent->next = last->next; last->next = NULL; */
    method Relink(p: Id, ghost owner: Ptr, last: Id, ghost done: Forest, ghost todo: Forest)
      requires Allocated(H(), p) && done.Cons? && last == Last(done)
      requires p !in Ids(done) && p !in Ids(todo) && Ids(done) !! Ids(todo) && Distinct(done)
      requires last in next
      requires Seg(H(), next[p], Some(p), done, next[last]) && Seg(H(), next[last], owner, todo, None)
      modifies this`next, this`list
      ensures Allocated(H(), p)
      ensures Seg(H(), list[p], Some(p), done, None) && Seg(H(), next[p], owner, todo, None)
      ensures SameOutside(old(H()), H(), Ids(done) + {p})
      ensures parent[p] == old(parent)[p] && entry[p] == old(entry)[p]
    {
      ghost var h0, mid := H(), next[last];
      LastIn(done);
      list := list[p := next[p]];
      next := next[p := next[last]];
      ghost var h1 := H();
      assert SameOutside(h0, h1, {p});
      SegFrame(h0, h1, h0.next[p], Some(p), done, mid);
      SegFrame(h0, h1, mid, owner, todo, None);
      next := next[last := None];
      SegRelink(h1, H(), list[p], Some(p), done, mid, None);
      SegFrame(h1, H(), mid, owner, todo, None);
    }
  }

  lemma {:induction false} PreorderIds(f: Forest)
    ensures forall id: Id :: id in Preorder(f) <==> id in Ids(f)
    ensures Distinct(f) ==> forall i, j :: 0 <= i < j < |Preorder(f)| ==> Preorder(f)[i] != Preorder(f)[j]
  {
    if f.Cons? {
      PreorderIds(f.kids);
      PreorderIds(f.rest);
      var p, k, r := Preorder(f), Preorder(f.kids), Preorder(f.rest);
      if Distinct(f) {
        forall i, j | 0 <= i < j < |p|
          ensures p[i] != p[j]
        {
          assert j <= |k| ==> p[j] == k[j - 1] && k[j - 1] in k;
          assert j > |k| ==> p[j] == r[j - |k| - 1] && r[j - |k| - 1] in r;
          assert 1 <= i <= |k| ==> p[i] == k[i - 1] && k[i - 1] in k;
          assert i > |k| ==> p[i] == r[i - |k| - 1];
        }
      }
    }
  }

  /** The specification's result for a root without siblings */
  lemma RootKept(f: Forest, rd: RevDeps)
    requires f.Cons? && f.rest.Nil? && Distinct(f)
    ensures var g := FinalizeHead(f, rd).0;
            Distinct(g) && Preorder(g) == Preorder(f) && Flat(g.kids) && Visited(g) == Preorder(f)
    ensures forall i, j :: 0 <= i < j < |Preorder(f)| ==> Preorder(f)[i] != Preorder(f)[j]
  {
    var g := FinalizeHead(f, rd).0;
    FinalizePreorder(f, rd);
    FinalizeIds(f, rd);
    PreorderIds(f);
    if f.kids.Cons? {
      var a := Propagate(f.entry.Condition(), f.kids, rd);
      FlattenFlat(FinalizeList(a.0, a.1).0);
    }
    assert g.rest.Nil? && Visited(g) + [] == Visited(g);
  }

  /** Finalizing the root menu, which has no parent and no siblings, keeps all menus in order and
      visits each of them exactly once. */
  method FinalizeRoot(t: Tree, root: Id, ghost f: Forest)
    requires f.Cons? && f.rest.Nil? && Seg(t.H(), Some(root), None, f, None) && Distinct(f)
    modifies t
    ensures var g := FinalizeHead(f, old(t.revDep)).0;
            && Seg(t.H(), Some(root), None, g, None)
            && Distinct(g) && Preorder(g) == Preorder(f) && Flat(g.kids)
            && t.finalized == old(t.finalized) + Preorder(f)
            && (forall i, j :: 0 <= i < j < |Preorder(f)| ==> Preorder(f)[i] != Preorder(f)[j])
  {
    RootKept(f, t.revDep);
    t.Finalize(root, None, f);
  }
}
