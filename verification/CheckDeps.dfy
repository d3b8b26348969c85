// The recursion check: a depth-first search over SYMBOL_CHECK / SYMBOL_CHECKED flags
// that unwinds to the repeated symbol, reports it there, and goes on.
module CheckDeps {
  import opened Wrappers
  import opened Expr
  import opened Submenu
  import opened Config

  /** The expressions sym_check_sym_deps descends into for one property. */
  predicate PropEdge(p: Property, t: Symbol) {
    !p.Select? && (ReadsDep(p.visible, t) || (p.Default? && Contains(p.value, t)))
  }

  /** sym_check_sym_deps(s) may call sym_check_deps(t). */
  predicate Edge(c: Config, s: Symbol, t: Symbol) {
    s in c.props && s in c.revDep
    && (ReadsDep(c.revDep[s], t) || exists p <- c.props[s] :: PropEdge(p, t))
  }

  ghost predicate Closed(c: Config) {
    && c.symbols == c.props.Keys == c.revDep.Keys
    && (forall s: Symbol, t: Symbol :: s in c.symbols && Edge(c, s, t) ==> t in c.symbols)
  }

  ghost predicate Walk(c: Config, p: seq<Symbol>) {
    forall i :: 0 <= i < |p| - 1 ==> Edge(c, p[i], p[i + 1])
  }

  ghost predicate Cycle(c: Config, p: seq<Symbol>) {
    |p| >= 2 && p[0] == p[|p| - 1] && Walk(c, p)
  }

  ghost predicate HasCycle(c: Config) {
    exists p: seq<Symbol> :: Cycle(c, p)
  }

  /** Every symbol in done has all its edges to earlier symbols of done. */
  ghost predicate Finished(c: Config, done: seq<Symbol>) {
    forall i: nat, t: Symbol :: i < |done| && Edge(c, done[i], t) ==> t in done[..i]
  }

  lemma FinishedAppend(c: Config, done: seq<Symbol>, s: Symbol)
    requires Finished(c, done)
    requires forall t: Symbol :: Edge(c, s, t) ==> t in done
    ensures Finished(c, done + [s])
  {
    var d := done + [s];
    forall i: nat, t: Symbol | i < |d| && Edge(c, d[i], t)
      ensures t in d[..i]
    {
      if i < |done| {
        assert d[..i] == done[..i];
      } else {
        assert d[..i] == done;
      }
    }
  }

  /** Position of the first occurrence, counted from 1; 0 for a symbol that is not there. */
  function Position(done: seq<Symbol>, s: Symbol): (r: nat)
    ensures s in done ==> 1 <= r <= |done| && done[r - 1] == s && s !in done[..r - 1]
    ensures s !in done ==> r == 0
  {
    if s !in done then 0
    else if done[|done| - 1] == s && s !in done[..|done| - 1] then |done|
    else Position(done[..|done| - 1], s)
  }

  lemma {:induction false} PositionFirst(done: seq<Symbol>, j: nat)
    requires j < |done|
    ensures Position(done, done[j]) <= j + 1
  {
    if j < |done| - 1 {
      PositionFirst(done[..|done| - 1], j);
      assert done[..|done| - 1][j] == done[j];
    }
  }

  /** Edges go to strictly earlier positions. */
  lemma FinishedDecreases(c: Config, done: seq<Symbol>, s: Symbol, t: Symbol)
    requires Finished(c, done) && s in done && Edge(c, s, t)
    ensures t in done && Position(done, t) < Position(done, s)
  {
    var i := Position(done, s) - 1;
    assert t in done[..i];
    var j :| 0 <= j < i && done[j] == t;
    PositionFirst(done, j);
  }

  lemma {:induction false} WalkDecreases(c: Config, done: seq<Symbol>, p: seq<Symbol>)
    requires Finished(c, done) && Walk(c, p) && |p| >= 1 && p[0] in done
    ensures p[|p| - 1] in done
    ensures |p| >= 2 ==> Position(done, p[|p| - 1]) < Position(done, p[0])
    decreases |p|
  {
    if |p| >= 2 {
      FinishedDecreases(c, done, p[0], p[1]);
      var q := p[1..];
      forall i | 0 <= i < |q| - 1
        ensures Edge(c, q[i], q[i + 1])
      {
        assert Edge(c, p[i + 1], p[i + 2]);
      }
      WalkDecreases(c, done, q);
    }
  }

  /** A finishing order over all symbols excludes every cycle. */
  lemma FinishedAcyclic(c: Config, done: seq<Symbol>)
    requires Closed(c) && Finished(c, done)
    requires forall s: Symbol :: s in c.symbols ==> s in done
    ensures !HasCycle(c)
  {
    forall p: seq<Symbol> | Cycle(c, p)
      ensures false
    {
      assert Edge(c, p[0], p[1]);
      WalkDecreases(c, done, p);
    }
  }

  /** The part of the search stack from a repeated symbol on is a cycle. */
  lemma StackCycle(c: Config, stack: seq<Symbol>, t: Symbol)
    requires Walk(c, stack) && t in stack && Edge(c, stack[|stack| - 1], t)
    ensures HasCycle(c)
  {
    var i :| 0 <= i < |stack| && stack[i] == t;
    var p := stack[i..] + [t];
    forall k | 0 <= k < |p| - 1
      ensures Edge(c, p[k], p[k + 1])
    {
      if k + 1 < |p| - 1 {
        assert Edge(c, stack[i + k], stack[i + k + 1]);
      }
    }
    assert Cycle(c, p);
  }

  class Checker {
    const c: Config
    var check: set<Symbol>
    var checked: set<Symbol>
    var errors: nat
    ghost var done: seq<Symbol>

    constructor (c: Config)
      requires Closed(c)
      ensures this.c == c && check == {} && checked == {} && errors == 0 && done == []
      ensures Inv([])
    {
      this.c := c;
      check, checked, errors, done := {}, {}, 0, [];
    }

    /** stack is the path of symbols under inspection; CHECK marks exactly them. */
    ghost predicate Inv(stack: seq<Symbol>)
      reads this
    {
      && Closed(c) && Walk(c, stack)
      && (forall s: Symbol :: s in check <==> s in stack)
      && check <= checked <= c.symbols
      && (errors > 0 ==> HasCycle(c))
      && (errors == 0 ==> Explored())
    }

    /** As long as nothing was reported, what has been left behind is finished. */
    ghost predicate Explored()
      reads this
    {
      && Finished(c, done)
      && (forall s: Symbol :: s in checked && s !in check ==> s in done)
    }

    /** A non-NULL result names a symbol still under inspection that lies on a cycle. */
    ghost predicate Unwinding(r: Option<Symbol>)
      reads this
    {
      r.Some? ==> r.value in check && HasCycle(c)
    }

    /** What a search from stack may change; without a report, what it saw is finished. */
    ghost predicate InvAfter(stack: seq<Symbol>, r: Option<Symbol>)
      reads this
    {
      && Closed(c) && Walk(c, stack)
      && (forall s: Symbol :: s in check <==> s in stack)
      && check <= checked <= c.symbols
      && (errors > 0 ==> HasCycle(c))
      && (r.None? && errors == 0 ==> Explored())
      && Unwinding(r)
    }

    twostate predicate Grows()
      reads this
    {
      && check == old(check) && old(checked) <= checked && old(errors) <= errors
      && old(done) <= done
    }

    /** sym_check_expr_deps, called while stack's last symbol is inspected */
    method CheckExpr(e: Expr, ghost stack: seq<Symbol>) returns (r: Option<Symbol>)
      requires Inv(stack) && stack != []
      requires forall t: Symbol :: Contains(e, t) ==> Edge(c, stack[|stack| - 1], t)
      modifies this
      ensures InvAfter(stack, r) && Grows()
      ensures r.None? && errors == 0 ==> forall t: Symbol :: Contains(e, t) ==> t in done
      decreases c.symbols - checked, 0, Size(e)
    {
      match e
      case Bin(_, left, right) =>
        assert forall t: Symbol :: Contains(left, t) || Contains(right, t) ==> Contains(e, t);
        r := CheckExpr(left, stack);
        if r.Some? {
          return;
        }
        r := CheckExpr(right, stack);
      case Not(a) =>
        assert forall t: Symbol :: Contains(a, t) ==> Contains(e, t);
        r := CheckExpr(a, stack);
      case Comp(_, lhs, rhs) =>
        assert Contains(e, lhs) && Contains(e, rhs);
        r := CheckSymbol(lhs, stack);
        if r.Some? {
          return;
        }
        r := CheckSymbol(rhs, stack);
      case Sym(s) =>
        assert Contains(e, s);
        r := CheckSymbol(s, stack);
    }

    method CheckDep(d: Dep, ghost stack: seq<Symbol>) returns (r: Option<Symbol>)
      requires Inv(stack) && stack != []
      requires forall t: Symbol :: ReadsDep(d, t) ==> Edge(c, stack[|stack| - 1], t)
      modifies this
      ensures InvAfter(stack, r) && Grows()
      ensures r.None? && errors == 0 ==> forall t: Symbol :: ReadsDep(d, t) ==> t in done
      decreases c.symbols - checked, 0, if d.Some? then Size(d.value) + 1 else 0
    {
      if d.None? {
        return None;
      }
      assert forall t: Symbol :: Contains(d.value, t) ==> ReadsDep(d, t);
      r := CheckExpr(d.value, stack);
    }

    /** One property of sym_check_sym_deps */
    method CheckProp(p: Property, ghost stack: seq<Symbol>) returns (r: Option<Symbol>)
      requires Inv(stack) && stack != []
      requires forall t: Symbol :: PropEdge(p, t) ==> Edge(c, stack[|stack| - 1], t)
      modifies this
      ensures InvAfter(stack, r) && Grows()
      ensures r.None? && errors == 0 ==> forall t: Symbol :: PropEdge(p, t) ==> t in done
      decreases c.symbols - checked, 1, 0
    {
      if p.Select? {
        return None;
      }
      assert forall t: Symbol :: ReadsDep(p.visible, t) ==> PropEdge(p, t);
      r := CheckDep(p.visible, stack);
      if r.Some? || !p.Default? {
        return;
      }
      assert forall t: Symbol :: Contains(p.value, t) ==> PropEdge(p, t);
      r := CheckExpr(p.value, stack);
    }

    /** sym_check_sym_deps(s), where s is the last symbol of stack */
    method CheckSymDeps(s: Symbol, ghost stack: seq<Symbol>) returns (r: Option<Symbol>)
      requires Inv(stack) && stack != [] && stack[|stack| - 1] == s && s in c.symbols
      modifies this
      ensures InvAfter(stack, r) && Grows()
      ensures r.None? && errors == 0 ==> forall t: Symbol :: Edge(c, s, t) ==> t in done
      decreases c.symbols - checked, 1, 1
    {
      r := CheckDep(c.revDep[s], stack);
      if r.Some? {
        return;
      }
      var ps := c.props[s];
      var i := 0;
      while i < |ps| && r.None?
        invariant 0 <= i <= |ps|
        invariant InvAfter(stack, r) && Grows()
        invariant r.None? && errors == 0 ==> forall t: Symbol :: ReadsDep(c.revDep[s], t) ==> t in done
        invariant r.None? && errors == 0 ==> forall p <- ps[..i], t: Symbol :: PropEdge(p, t) ==> t in done
        decreases |ps| - i
      {
        assert ps[i] in ps;
        assert ps[..i + 1] == ps[..i] + [ps[i]];
        r := CheckProp(ps[i], stack);
        i := i + 1;
      }
      assert ps[..|ps|] == ps;
    }

    /** sym_check_deps; NULL (None) means that no cycle is being unwound. */
    method CheckSymbol(s: Symbol, ghost stack: seq<Symbol>) returns (r: Option<Symbol>)
      requires Inv(stack) && s in c.symbols
      requires stack != [] ==> Edge(c, stack[|stack| - 1], s)
      modifies this
      ensures InvAfter(stack, r) && Grows()
      ensures r.None? && errors == 0 ==> s in done
      decreases c.symbols - checked, 0, 0
    {
      if s in check {
        StackCycle(c, stack, s);
        return Some(s);
      }
      if s in checked {
        return None;
      }
      ghost var inner := stack + [s];
      assert Walk(c, inner) by {
        forall i | 0 <= i < |inner| - 1
          ensures Edge(c, inner[i], inner[i + 1])
        {
        }
      }
      check, checked := check + {s}, checked + {s};
      r := CheckSymDeps(s, inner);
      check := check - {s};
      if r.None? && errors == 0 {
        FinishedAppend(c, done, s);
        done := done + [s];
      }
      if r == Some(s) {
        errors := errors + 1;
        r := None;
      }
    }

    /** The loop of conf_parse: an error is reported exactly when some dependency cycle exists. */
    method CheckAll(order: seq<Symbol>)
      requires Inv([]) && checked == {} && errors == 0
      requires forall s: Symbol :: s in order <==> s in c.symbols
      modifies this
      ensures Inv([])
      ensures errors > 0 <==> HasCycle(c)
      ensures errors == 0 ==> Finished(c, done) && forall s: Symbol :: s in c.symbols ==> s in done
    {
      for i := 0 to |order|
        invariant Inv([])
        invariant errors == 0 ==> forall s <- order[..i] :: s in done
      {
        assert order[i] in order;
        assert order[..i + 1] == order[..i] + [order[i]];
        ghost var before := done;
        var r := CheckSymbol(order[i], []);
        assert forall s <- before :: s in done[..|before|];
        assert r.None?;  // the repeated symbol is always found on the way back
      }
      assert order[..|order|] == order;
      if errors == 0 {
        FinishedAcyclic(c, done);
      }
    }
  }

  // ---------------------------------------------- what a clean check gives the evaluator

  /** Every range bound is a constant, as in "range 1 10". */
  ghost predicate ConstantBounds(c: Config) {
    forall s: Symbol, p: Property :: s in c.props && p in c.props[s] && p.Range?
      ==> !HasType(p.lo) && !HasType(p.hi)
  }

  /** With constant range bounds, a clean check makes the evaluator's graph acyclic. */
  lemma CheckedIsRanked(c: Config, done: seq<Symbol>)
    requires WellFormed(c) && Closed(c) && ConstantBounds(c) && Finished(c, done)
    requires forall s: Symbol :: s in c.symbols ==> s in done
    ensures Ranked(c, s => if HasType(s) then Position(done, s) else 0)
  {
    forall s: Symbol, t: Symbol | s in c.symbols && Reads(c, s, t) && HasType(t)
      ensures Position(done, t) < Position(done, s)
    {
      if !ReadsDep(c.revDep[s], t) {
        var p :| p in c.props[s] && PropReads(p, t);
        assert PropEdge(p, t);
      }
      FinishedDecreases(c, done, s, t);
    }
  }

  /** Every symbol with a property or a reverse dependency has a type, and none has a property of
      another kind than prompts, defaults, ranges and selects. */
  ghost predicate Ordinary(c: Config) {
    forall s: Symbol :: s in c.props && s in c.revDep ==>
      && (c.props[s] != [] || c.revDep[s].Some? ==> HasType(s))
      && forall p <- c.props[s] :: !p.Other?
  }

  /** The check descends only where the evaluator reads. */
  lemma EdgeIsRead(c: Config, s: Symbol, t: Symbol)
    requires Ordinary(c) && Edge(c, s, t)
    ensures Reads(c, s, t)
  {
    if !ReadsDep(c.revDep[s], t) {
      var p :| p in c.props[s] && PropEdge(p, t);
      assert PropReads(p, t);
    }
  }

  lemma {:induction false} WalkRanks(c: Config, rank: Symbol -> nat, p: seq<Symbol>)
    requires WellFormed(c) && Ranked(c, rank) && Ordinary(c) && Walk(c, p) && |p| >= 1
    ensures |p| >= 2 ==> rank(p[|p| - 1]) < rank(p[0])
    decreases |p|
  {
    if |p| >= 2 {
      assert Edge(c, p[0], p[1]);
      EdgeIsRead(c, p[0], p[1]);
      var q := p[1..];
      forall i | 0 <= i < |q| - 1
        ensures Edge(c, q[i], q[i + 1])
      {
        assert Edge(c, p[i + 1], p[i + 2]);
      }
      WalkRanks(c, rank, q);
    }
  }

  /** No configuration that the evaluator can order is refused. */
  lemma RankedHasNoCycle(c: Config, rank: Symbol -> nat)
    requires WellFormed(c) && Ranked(c, rank) && Ordinary(c)
    ensures !HasCycle(c)
  {
    forall p: seq<Symbol> | Cycle(c, p)
      ensures false
    {
      WalkRanks(c, rank, p);
    }
  }

  /** So for ordinary symbols and constant range bounds the check is exact: it finds nothing if and
      only if the evaluator's graph is acyclic. */
  method CheckExactly(k: Checker, order: seq<Symbol>)
    requires k.Inv([]) && k.checked == {} && k.errors == 0
    requires forall s: Symbol :: s in order <==> s in k.c.symbols
    requires WellFormed(k.c) && ConstantBounds(k.c) && Ordinary(k.c)
    modifies k
    ensures k.errors == 0 <==> exists rank: Symbol -> nat :: Ranked(k.c, rank)
  {
    k.CheckAll(order);
    if k.errors == 0 {
      ghost var done := k.done;
      CheckedIsRanked(k.c, done);
      ghost var rank := (s: Symbol) => if HasType(s) then Position(done, s) else 0;
      assert Ranked(k.c, rank);
    } else {
      forall rank: Symbol -> nat | Ranked(k.c, rank)
        ensures false
      {
        RankedHasNoCycle(k.c, rank);
      }
    }
  }

  /** A configuration that passes the check has exactly one meaning, for any user values. */
  lemma CheckedHasMeaning(c: Config, done: seq<Symbol>, user: map<Symbol, User>, modulesVal: Tristate)
    requires WellFormed(c) && Closed(c) && ConstantBounds(c) && Finished(c, done)
    requires forall s: Symbol :: s in c.symbols ==> s in done
    requires Users(c, user)
    ensures exists M: Solution :: Solves(c, user, modulesVal, M)
    ensures forall M: Solution, M': Solution, s: Symbol ::
              Solves(c, user, modulesVal, M) && Solves(c, user, modulesVal, M') && s in c.symbols ==> M(s) == M'(s)
  {
    var rank := (s: Symbol) => if HasType(s) then Position(done, s) else 0;
    CheckedIsRanked(c, done);
    assert Ranked(c, rank);
    RecursiveSolves(c, user, modulesVal, rank);
    forall M: Solution, M': Solution, s: Symbol
      | Solves(c, user, modulesVal, M) && Solves(c, user, modulesVal, M') && s in c.symbols
      ensures M(s) == M'(s)
    {
      SolutionUnique(c, user, modulesVal, M, M', rank, s);
    }
  }
}
