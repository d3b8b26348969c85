// The iterative menu walk of conf_write: down the list pointers, along the next pointers and
// back up through the parent pointers, printing each SYMBOL_WRITE symbol once.
module ConfWalk {
  import opened Wrappers
  import opened Expr
  import opened Menu
  import opened MenuTree
  import opened Config
  import opened SymbolTable
  import ConfFile

  /** The entries' symbols in preorder. */
  function Syms(f: Forest): seq<Option<Symbol>> {
    match f
    case Nil => []
    case Cons(_, e, k, r) => [e.sym] + (Syms(k) + Syms(r))
  }

  /** The symbols printed when entries with these symbols are visited and write are flagged:
      printing a symbol clears its flag. */
  function Emitted(es: seq<Option<Symbol>>, write: set<Symbol>): seq<Symbol> {
    if es == [] then []
    else if es[0].Some? && es[0].value in write then [es[0].value] + Emitted(es[1..], write - {es[0].value})
    else Emitted(es[1..], write)
  }

  ghost predicate Unrepeated(out: seq<Symbol>) {
    forall i, j :: 0 <= i < j < |out| ==> out[i] != out[j]
  }

  lemma ConsUnrepeated(s: Symbol, tail: seq<Symbol>)
    requires Unrepeated(tail) && s !in tail
    ensures Unrepeated([s] + tail)
  {
    var out := [s] + tail;
    forall i, j | 0 <= i < j < |out|
      ensures out[i] != out[j]
    {
      assert out[j] == tail[j - 1];
      assert i > 0 ==> out[i] == tail[i - 1];
    }
  }

  /** Every flagged symbol with an entry is printed exactly once, and no other. */
  lemma {:induction false} EmittedOnce(es: seq<Option<Symbol>>, write: set<Symbol>)
    ensures forall s: Symbol :: s in Emitted(es, write) <==> s in write && Some(s) in es
    ensures Unrepeated(Emitted(es, write))
  {
    if es != [] {
      assert es == [es[0]] + es[1..];
      if es[0].Some? && es[0].value in write {
        EmittedOnce(es[1..], write - {es[0].value});
        ConsUnrepeated(es[0].value, Emitted(es[1..], write - {es[0].value}));
      } else {
        EmittedOnce(es[1..], write);
      }
    }
  }

  /** They come in the order of their first entries. */
  lemma {:induction false} EmittedInOrder(es: seq<Option<Symbol>>, fs: seq<Option<Symbol>>, write: set<Symbol>)
    ensures Emitted(es + fs, write) == Emitted(es, write) + Emitted(fs, write - (set s <- Emitted(es, write)))
    decreases |es|
  {
    if es == [] {
      assert es + fs == fs && write - (set s <- Emitted(es, write)) == write;
    } else {
      assert (es + fs)[1..] == es[1..] + fs;
      if es[0].Some? && es[0].value in write {
        var s0, rest := es[0].value, write - {es[0].value};
        EmittedInOrder(es[1..], fs, rest);
        assert rest - (set s <- Emitted(es[1..], rest)) == write - (set s <- Emitted(es, write));
      } else {
        EmittedInOrder(es[1..], fs, write);
      }
    }
  }

  // ---------------------------------------------------------------- the walk

  /** Where the walk stands: the open lists from the current one up to the root's. */
  datatype Context = Top(root: Id) | Below(owner: Id, rest: Forest, up: Context)

  function Owner(c: Context): Id {
    match c
    case Top(root) => root
    case Below(o, _, _) => o
  }

  /** Each open list continues at its owner's next pointer. */
  ghost predicate ContextOk(h: Heap, c: Context) {
    match c
    case Top(root) => Allocated(h, root) && h.next[root] == None && h.parent[root] == None
    case Below(o, rest, up) =>
      && Allocated(h, o) && h.parent[o] == Some(Owner(up))
      && Seg(h, h.next[o], Some(Owner(up)), rest, None)
      && ContextOk(h, up)
  }

  /** The symbols of the entries after the current list. */
  function Later(c: Context): seq<Option<Symbol>> {
    match c
    case Top(_) => []
    case Below(_, rest, up) => Syms(rest) + Later(up)
  }

  function Ahead(c: Context): nat {
    match c
    case Top(_) => 0
    case Below(_, rest, up) => Count(rest) + Ahead(up)
  }

  function Depth(c: Context): nat {
    match c
    case Top(_) => 0
    case Below(_, _, up) => 1 + Depth(up)
  }

  /** else while ((menu = menu->parent)) { if (menu->next) { menu = menu->next; break; } } */
  method Climb(t: Tree, from: Id, ghost c: Context) returns (menu: Ptr, ghost todo: Forest, ghost c': Context)
    requires ContextOk(t.H(), c) && Allocated(t.H(), from) && t.parent[from] == Some(Owner(c))
    ensures ContextOk(t.H(), c') && Seg(t.H(), menu, Some(Owner(c')), todo, None)
    ensures menu.Some? || (todo.Nil? && Later(c') == [])
    ensures Syms(todo) + Later(c') == Later(c)
    ensures Count(todo) + Ahead(c') == Ahead(c)
  {
    menu, todo, c' := t.parent[from], Nil, c;
    assert [] + Later(c) == Later(c);
    while menu.Some?
      invariant ContextOk(t.H(), c')
      invariant menu.Some? ==> menu.value == Owner(c')
      invariant menu.None? ==> c'.Top?
      invariant Later(c') == Later(c) && Ahead(c') == Ahead(c)
      decreases if menu.Some? then Depth(c') + 1 else 0
    {
      if t.next[menu.value].Some? {
        menu := t.next[menu.value];
        todo, c' := c'.rest, c'.up;
        return;
      }
      menu := t.parent[menu.value];
      if c'.Below? {
        assert c'.rest.Nil? && [] + Later(c'.up) == Later(c'.up);
        c' := c'.up;
      }
    }
  }

  /** The symbols whose evaluation sets SYMBOL_WRITE */
  ghost function Flagged(E: Env): set<Symbol> {
    set s | s in E.c.symbols && HasType(s) && E.M(s).write
  }

  ghost predicate Known(es: seq<Option<Symbol>>, c: Config) {
    forall s: Symbol :: Some(s) in es ==> s in c.symbols
  }

  /** What has been printed so far, and what the flags still set will print. */
  ghost predicate Printed(E: Env, all: seq<Option<Symbol>>, ahead: seq<Option<Symbol>>, text: string,
                          out: seq<Symbol>, cleared: set<Symbol>) {
    && Emitted(all, Flagged(E)) == out + Emitted(ahead, Flagged(E) - cleared)
    && text == ConfFile.WriteText(out, Current(E.M))
    && cleared == set s <- out
  }

  /** One visited entry: a flagged symbol is printed and its flag cleared. */
  lemma PrintStep(E: Env, all: seq<Option<Symbol>>, ahead: seq<Option<Symbol>>, text: string,
                  out: seq<Symbol>, cleared: set<Symbol>, s: Symbol)
    requires Printed(E, all, ahead, text, out, cleared) && ahead != [] && ahead[0] == Some(s)
    requires s in Flagged(E) && s !in cleared
    ensures var line := ConfFile.Printed(ConfFile.WriteLine(s, E.M(s).curr));
            Printed(E, all, ahead[1..], text + line, out + [s], cleared + {s})
  {
    var flags := Flagged(E) - cleared;
    Assoc(out, [s], Emitted(ahead[1..], flags - {s}));
    assert flags - {s} == Flagged(E) - (cleared + {s});
    ConfFile.WriteSnoc(out, s, Current(E.M));
  }

  lemma SkipStep(E: Env, all: seq<Option<Symbol>>, ahead: seq<Option<Symbol>>, text: string,
                 out: seq<Symbol>, cleared: set<Symbol>)
    requires Printed(E, all, ahead, text, out, cleared) && ahead != []
    requires ahead[0].Some? ==> ahead[0].value !in Flagged(E) - cleared
    ensures Printed(E, all, ahead[1..], text, out, cleared)
  {
  }

  /** The symbol of one entry: evaluate it and print it if SYMBOL_WRITE is set and not yet
      cleared.  As everything printed stays VALID, nothing sets the flag again. */
  method PrintSymbol(tab: Table, sym: Option<Symbol>, cleared0: set<Symbol>, text0: string, ghost E: Env,
                     ghost all: seq<Option<Symbol>>, ghost ahead: seq<Option<Symbol>>, ghost out0: seq<Symbol>)
    returns (text: string, cleared: set<Symbol>, ghost out: seq<Symbol>)
    requires tab.Valid() && tab.InEnv(E) && tab.Coherent(E, {})
    requires ahead != [] && ahead[0] == sym && (sym.Some? ==> sym.value in E.c.symbols)
    requires Printed(E, all, ahead, text0, out0, cleared0)
    modifies tab
    ensures tab.Valid() && tab.InEnv(E) && tab.Coherent(E, {})
    ensures Printed(E, all, ahead[1..], text, out, cleared)
  {
    text, cleared, out := text0, cleared0, out0;
    if sym.None? {
      SkipStep(E, all, ahead, text, out, cleared);
      return;
    }
    var s := sym.value;
    tab.CalcValue(s, E, {});
    if !HasType(s) || !tab.cache[s].write || s in cleared {
      SkipStep(E, all, ahead, text, out, cleared);
      return;
    }
    PrintStep(E, all, ahead, text, out, cleared, s);
    cleared, out := cleared + {s}, out + [s];
    text := text + ConfFile.Printed(ConfFile.WriteLine(s, tab.cache[s].curr));
  }

  /** conf_write's loop: from the root menu's list, every symbol is evaluated when it is met, and
      the lines printed are those of the flagged symbols, each with the value it means. */
  method ConfWrite(t: Tree, tab: Table, root: Id, ghost E: Env, ghost f: Forest) returns (text: string)
    requires ContextOk(t.H(), Top(root)) && Seg(t.H(), t.list[root], Some(root), f, None)
    requires tab.Valid() && tab.InEnv(E) && tab.Coherent(E, {}) && Known(Syms(f), E.c)
    modifies tab
    ensures tab.Valid() && tab.InEnv(E) && tab.Coherent(E, {})
    ensures text == ConfFile.WriteText(Emitted(Syms(f), Flagged(E)), Current(E.M))
  {
    text := "";
    var cleared: set<Symbol>, menu := {}, t.list[root];
    ghost var todo, c, out: seq<Symbol> := f, Top(root), [];
    assert Syms(f) + [] == Syms(f) && Flagged(E) - {} == Flagged(E);
    assert [] + Emitted(Syms(f), Flagged(E)) == Emitted(Syms(f), Flagged(E));
    while menu.Some?
      invariant tab.Valid() && tab.InEnv(E) && tab.Coherent(E, {})
      invariant ContextOk(t.H(), c) && Seg(t.H(), menu, Some(Owner(c)), todo, None)
      invariant menu.None? ==> Later(c) == []
      invariant Known(Syms(todo) + Later(c), E.c)
      invariant Printed(E, Syms(f), Syms(todo) + Later(c), text, out, cleared)
      decreases Count(todo) + Ahead(c)
    {
      var id := menu.value;
      var sym := t.entry[id].sym;
      ghost var es := Syms(todo) + Later(c);
      VisitHead(todo, Later(c));
      assert sym == es[0] && es[0] in es;
      text, cleared, out := PrintSymbol(tab, sym, cleared, text, E, Syms(f), es, out);
      assert forall e <- es[1..] :: e in es;
      menu, todo, c := Next(t, id, todo, c);
    }
    assert out + [] == out;
  }

  lemma VisitHead(todo: Forest, later: seq<Option<Symbol>>)
    requires todo.Cons?
    ensures var es := Syms(todo) + later;
            es != [] && es[0] == todo.entry.sym && es[1..] == Syms(todo.kids) + (Syms(todo.rest) + later)
  {
    Assoc([todo.entry.sym], Syms(todo.kids) + Syms(todo.rest), later);
    Assoc(Syms(todo.kids), Syms(todo.rest), later);
  }

  /** The end of the loop body: down, along or up */
  method Next(t: Tree, id: Id, ghost todo: Forest, ghost c: Context)
    returns (menu: Ptr, ghost todo': Forest, ghost c': Context)
    requires todo.Cons? && ContextOk(t.H(), c) && Seg(t.H(), Some(id), Some(Owner(c)), todo, None)
    ensures ContextOk(t.H(), c') && Seg(t.H(), menu, Some(Owner(c')), todo', None)
    ensures menu.None? ==> Later(c') == []
    ensures Syms(todo') + Later(c') == (Syms(todo) + Later(c))[1..]
    ensures Count(todo') + Ahead(c') < Count(todo) + Ahead(c)
  {
    VisitHead(todo, Later(c));
    assert Seg(t.H(), t.list[id], Some(id), todo.kids, None);
    if t.list[id].Some? {
      return t.list[id], todo.kids, Below(id, todo.rest, c);
    }
    assert todo.kids.Nil? && [] + (Syms(todo.rest) + Later(c)) == Syms(todo.rest) + Later(c);
    if t.next[id].Some? {
      return t.next[id], todo.rest, c;
    }
    assert todo.rest.Nil? && [] + Later(c) == Later(c);
    menu, todo', c' := Climb(t, id, c);
  }

  // ------------------------------------------------------- finalize, then write

  lemma {:induction false} AppendSyms(f: Forest, g: Forest)
    ensures Syms(Append(f, g)) == Syms(f) + Syms(g)
  {
    if f.Cons? {
      AppendSyms(f.rest, g);
      Assoc(Syms(f.kids), Syms(f.rest), Syms(g));
      Assoc([f.entry.sym], Syms(f.kids) + Syms(f.rest), Syms(g));
    }
  }

  lemma {:induction false} PropagateSyms(outer: Dep, f: Forest, rd: RevDeps)
    ensures Syms(Propagate(outer, f, rd).0) == Syms(f)
  {
    if f.Cons? {
      PropagateSyms(outer, f.rest, AddSelects(f.entry.sym, InheritEntry(outer, f.entry).props, rd));
    }
  }

  lemma {:induction false} FlattenSyms(f: Forest)
    ensures Syms(Flatten(f)) == Syms(f)
    decreases Count(f)
  {
    if f.Cons? {
      FlattenSyms(FlattenStep(f).rest);
      AppendSyms(f.kids, f.rest);
    }
  }

  /** Finalizing keeps the order of the symbols, and with it the order of the file. */
  lemma {:induction false} FinalizeSyms(f: Forest, rd: RevDeps)
    requires f.Cons?
    ensures Syms(FinalizeHead(f, rd).0) == Syms(f)
    decreases Count(f), 0
  {
    if f.kids.Cons? {
      var a := Propagate(f.entry.Condition(), f.kids, rd);
      PropagateSyms(f.entry.Condition(), f.kids, rd);
      FinalizeListSyms(a.0, a.1);
      FlattenSyms(FinalizeList(a.0, a.1).0);
    } else if f.entry.sym.Some? {
      var a := Adopt(f.entry.PromptVisible(), f.entry.sym.value, f.rest, rd);
      AdoptSyms(f.entry.PromptVisible(), f.entry.sym.value, f.rest, rd);
      FlattenSyms(a.0);
    }
  }

  lemma {:induction false} FinalizeListSyms(f: Forest, rd: RevDeps)
    ensures Syms(FinalizeList(f, rd).0) == Syms(f)
    decreases Count(f), 1
  {
    if f.Cons? {
      var h := FinalizeHead(f, rd);
      FinalizeSyms(f, rd);
      FinalizeListSyms(h.0.rest, h.1);
    }
  }

  lemma {:induction false} AdoptSyms(prompt: Dep, sym: Symbol, f: Forest, rd: RevDeps)
    ensures var r := Adopt(prompt, sym, f, rd); Syms(r.0) + Syms(r.1) == Syms(f)
    decreases Count(f), 1
  {
    if f.Cons? && Submenu.Adopts(prompt, sym, f.entry.Condition()) {
      var h := FinalizeHead(f, rd);
      var t := Adopt(prompt, sym, h.0.rest, h.1);
      FinalizeSyms(f, rd);
      AdoptSyms(prompt, sym, h.0.rest, h.1);
      Assoc(Syms(h.0.kids), Syms(t.0), Syms(t.1));
      Assoc([f.entry.sym], Syms(h.0.kids) + Syms(t.0), Syms(t.1));
    } else {
      assert [] + Syms(f) == Syms(f);
    }
  }

  /** The parsed menus are finalized and the configuration written: the lines are those of the
      flagged symbols, in the order in which the menus were parsed. */
  method FinalizeThenWrite(t: Tree, tab: Table, root: Id, ghost E: Env, ghost f: Forest) returns (text: string)
    requires f.Cons? && f.rest.Nil? && Seg(t.H(), Some(root), None, f, None) && Distinct(f)
    requires tab.Valid() && tab.InEnv(E) && tab.Coherent(E, {}) && Known(Syms(f.kids), E.c)
    modifies t, tab
    ensures text == ConfFile.WriteText(Emitted(Syms(f.kids), Flagged(E)), Current(E.M))
  {
    ghost var g := FinalizeHead(f, t.revDep).0;
    FinalizeSyms(f, t.revDep);
    assert g.entry == f.entry && g.rest.Nil?;
    assert Syms(g.kids) == Syms(g)[1..] == Syms(f)[1..] == Syms(f.kids);
    FinalizeRoot(t, root, f);
    text := ConfWrite(t, tab, root, E, g.kids);
  }

  /** The symbol is not set yet, is found under its name, and prints one line of a valid value. */
  ghost predicate Saveable(s: Symbol, x: Value, find: string -> Option<Symbol>, user: map<Symbol, User>) {
    && ConfFile.Findable(s, find) && s in user && user[s] == ConfFile.CLEARED
    && (s.typ == Int || s.typ == Hex ==> ConfFile.StringValid(s.typ, x.val))
    && ConfFile.PrintsOneLine(s, x)
  }

  lemma FlaggedPrints(E: Env, s: Symbol, find: string -> Option<Symbol>, user: map<Symbol, User>)
    requires Setting(E) && s in Flagged(E) && Saveable(s, E.M(s).curr, find, user)
    ensures ConfFile.Restorable(s, E.M(s).curr) && ConfFile.WriteLine(s, E.M(s).curr).Some?
  {
    SolutionNeverMod(E.c, E.user, E.modulesVal, E.M);
  }

  /** What is written for a menu tree, read back, restores exactly the values of the flagged symbols
      that have an entry, and sets nothing else. */
  lemma ConfigRoundTrip(E: Env, f: Forest, find: string -> Option<Symbol>, user: map<Symbol, User>)
    requires Setting(E)
    requires forall s: Symbol :: s in Flagged(E) && Some(s) in Syms(f) ==> Saveable(s, E.M(s).curr, find, user)
    ensures var text := ConfFile.WriteText(Emitted(Syms(f), Flagged(E)), Current(E.M));
            var user' := ConfFile.ReadText(text, find, user);
            forall s: Symbol :: s in user ==>
              s in user' && user'[s] == if s in Flagged(E) && Some(s) in Syms(f)
                                        then ConfFile.Saved(s, E.M(s).curr) else user[s]
  {
    EmittedOnce(Syms(f), Flagged(E));
    var out, v := Emitted(Syms(f), Flagged(E)), Current(E.M);
    forall s <- out
      ensures Saveable(s, v(s), find, user) && ConfFile.Restorable(s, v(s)) && ConfFile.WriteLine(s, v(s)).Some?
    {
      FlaggedPrints(E, s, find, user);
    }
    ConfFile.FileRoundTrip(out, v, find, user);
  }
}
