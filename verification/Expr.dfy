// Three-valued Kconfig expressions: the data of expr.h and the evaluator of expr.c,
// with a symbol's value supplied by a valuation.
module Expr {
  import opened Wrappers

  /** enum tristate { no, mod, yes }: the C code does arithmetic on it. */
  type Tristate = x: int | 0 <= x <= 2

  const NO: Tristate := 0
  const MOD: Tristate := 1
  const YES: Tristate := 2

  datatype SymbolType = Unknown | Boolean | Tri | Int | Hex | Str | Other

  /** Symbols are interned: pointer equality is equality of these values.  A SYMBOL_CONST symbol
      is looked up by its name alone and never gets a type. */
  datatype Symbol = Constant(name: string) | Variable(id: nat, name: string, kind: SymbolType) {
    const isConst: bool := Constant?

    const typ: SymbolType := if Constant? then Unknown else kind

    /** The symbol holds a tristate rather than a string. */
    predicate IsTristate() {
      typ == Boolean || typ == Tri
    }
  }

  const SYM_NO := Constant("n")
  const SYM_MOD := Constant("m")
  const SYM_YES := Constant("y")

  predicate IsYMN(s: Symbol) {
    s == SYM_YES || s == SYM_MOD || s == SYM_NO
  }

  predicate IsYN(s: Symbol) {
    s == SYM_YES || s == SYM_NO
  }

  datatype Op = And | Or

  /** E_SYMBOL, E_EQUAL/E_UNEQUAL, E_NOT, E_AND/E_OR. */
  datatype Expr =
    | Sym(sym: Symbol)
    | Comp(eq: bool, lhs: Symbol, rhs: Symbol)
    | Not(arg: Expr)
    | Bin(op: Op, left: Expr, right: Expr)

  /** A dependency pointer; NULL stands for y. */
  type Dep = Option<Expr>

  function Dual(op: Op): Op {
    if op == And then Or else And
  }

  /** The neutral symbol of an operator, and the absorbing one. */
  function Unit(op: Op): Symbol {
    if op == And then SYM_YES else SYM_NO
  }

  function Zero(op: Op): Symbol {
    Unit(Dual(op))
  }

  /** EXPR_AND is the minimum, EXPR_OR the maximum. */
  function Ap(op: Op, a: Tristate, b: Tristate): Tristate {
    match op
    case And => if a < b then a else b
    case Or => if a > b then a else b
  }

  predicate IsOp(op: Op, e: Expr) {
    e.Bin? && e.op == op
  }

  /** e1->type == e2->type */
  predicate SameType(e1: Expr, e2: Expr) {
    match e1
    case Sym(_) => e2.Sym?
    case Comp(eq, _, _) => e2.Comp? && e2.eq == eq
    case Not(_) => e2.Not?
    case Bin(op, _, _) => IsOp(op, e2)
  }

  function Size(e: Expr): (n: nat)
    ensures n >= 1
  {
    match e
    case Sym(_) => 1
    case Comp(_, _, _) => 1
    case Not(a) => 1 + Size(a)
    case Bin(_, l, r) => 1 + Size(l) + Size(r)
  }

  // ------------------------------------------------------------------ values

  /** struct symbol_value: sym->curr */
  datatype Value = Value(val: string, tri: Tristate)

  type Valuation = Symbol -> Value

  function TriString(t: Tristate): string {
    if t == NO then "n" else if t == MOD then "m" else "y"
  }

  /** sym_get_string_value */
  function StringOf(s: Symbol, x: Value): string {
    if s.IsTristate() then TriString(x.tri) else x.val
  }

  function StringValue(v: Valuation, s: Symbol): string {
    StringOf(s, v(s))
  }

  /** expr_calc_value, once every symbol has its value. */
  function Eval(e: Expr, v: Valuation): Tristate {
    match e
    case Sym(s) => v(s).tri
    case Comp(eq, l, r) => if (StringValue(v, l) == StringValue(v, r)) == eq then YES else NO
    case Not(a) => 2 - Eval(a, v)
    case Bin(op, l, r) => Ap(op, Eval(l, v), Eval(r, v))
  }

  function EvalDep(d: Dep, v: Valuation): Tristate {
    if d.None? then YES else Eval(d.value, v)
  }

  /** symbol_yes, symbol_mod and symbol_no always hold their static initial values. */
  ghost predicate Sane(v: Valuation) {
    && v(SYM_YES) == Value("y", YES)
    && v(SYM_MOD) == Value("m", MOD)
    && v(SYM_NO) == Value("n", NO)
  }

  /** Boolean symbols are never m; distinct interned constants have distinct strings. */
  ghost predicate WellTyped(v: Valuation) {
    && Sane(v)
    && (forall s: Symbol :: s.typ == Boolean ==> v(s).tri != MOD)
    && (forall s: Symbol, t: Symbol :: s.isConst && t.isConst && s != t ==> StringValue(v, s) != StringValue(v, t))
  }

  /** Every plain symbol leaf of e is n or y. */
  ghost predicate TwoValued(e: Expr, v: Valuation) {
    match e
    case Sym(s) => v(s).tri != MOD
    case Comp(_, _, _) => true
    case Not(a) => TwoValued(a, v)
    case Bin(_, l, r) => TwoValued(l, v) && TwoValued(r, v)
  }

  lemma {:induction false} TwoValuedEval(e: Expr, v: Valuation)
    requires TwoValued(e, v)
    ensures Eval(e, v) != MOD
  {
    match e
    case Sym(_) =>
    case Comp(_, _, _) =>
    case Not(a) => TwoValuedEval(a, v);
    case Bin(_, l, r) => TwoValuedEval(l, v); TwoValuedEval(r, v);
  }

  /** expr_alloc_and / expr_alloc_or, where a NULL operand gives the other one. */
  function AllocBin(op: Op, d1: Dep, d2: Dep): Dep {
    match (d1, d2)
    case (None, _) => d2
    case (_, None) => d1
    case (Some(a), Some(b)) => Some(Bin(op, a, b))
  }
}
