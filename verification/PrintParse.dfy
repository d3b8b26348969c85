// Printing an expression (expr_print) and reading it back with the expression part of
// the generated LALR parser: rules 100-108, states and actions as in its tables.
module PrintParse {
  import opened Wrappers
  import opened Expr
  import opened Cancel

  // --------------------------------------------------------------- expr_print

  /** enum expr_type, as far as expr_compare_type tells its members apart */
  datatype ExprType = T_NONE | T_OR | T_AND | T_NOT | T_COMP | T_LIST | T_SYMBOL

  function TypeOf(e: Expr): ExprType {
    match e
    case Sym(_) => T_SYMBOL
    case Comp(_, _, _) => T_COMP
    case Not(_) => T_NOT
    case Bin(op, _, _) => OpType(op)
  }

  function OpType(op: Op): ExprType {
    if op == And then T_AND else T_OR
  }

  /** expr_compare_type(t1, t2) > 0; each case falls through to the next one. */
  predicate ComparesHigher(t1: ExprType, t2: ExprType) {
    t1 != t2 &&
    match t1
    case T_COMP => t2 == T_NOT || t2 == T_AND || t2 == T_OR || t2 == T_LIST || t2 == T_NONE
    case T_NOT => t2 == T_AND || t2 == T_OR || t2 == T_LIST || t2 == T_NONE
    case T_AND => t2 == T_OR || t2 == T_LIST || t2 == T_NONE
    case T_OR => t2 == T_LIST || t2 == T_NONE
    case T_LIST => t2 == T_NONE
    case _ => false
  }

  datatype Token = Word(name: string) | Quote(name: string) | Unequal | Equal | Open | Close | OrTok | AndTok | NotTok

  function OpToken(op: Op): Token {
    if op == And then AndTok else OrTok
  }

  /** The token calls that expr_print makes, in order; prev is its prevtoken argument. */
  function Print(e: Expr, prev: ExprType): seq<Token> {
    var inner :=
      match e
      case Sym(s) => [Word(s.name)]
      case Not(a) => [NotTok] + Print(a, T_NOT)
      case Comp(eq, l, r) => [Word(l.name), if eq then Equal else Unequal, Word(r.name)]
      case Bin(op, l, r) => Print(l, OpType(op)) + ([OpToken(op)] + Print(r, OpType(op)));
    if ComparesHigher(prev, TypeOf(e)) then [Open] + inner + [Close] else inner
  }

  // ------------------------------------------------------------ the automaton

  /** The rest of the line; T_EOL follows the last token. */
  datatype Tokens = Eol | Tok(head: Token, tail: Tokens)

  datatype Semantic = VTok | VString(str: string) | VSymbol(sym: Symbol) | VExpr(expr: Expr)

  /** yyss and yyvs, top first */
  datatype Stack = Bottom | Push(below: Stack, state: nat, val: Semantic)

  datatype Machine = Machine(stack: Stack, input: Tokens)

  datatype Outcome = Running(m: Machine) | Accepted(e: Expr) | Rejected

  /** States 14 ("if" entry), 140 ("depends on") and 155 (trailing "if") start an expression. */
  predicate IsStart(s: nat) {
    s == 14 || s == 140 || s == 155
  }

  /** States in which an operand comes next. */
  predicate WantsOperand(s: nat) {
    IsStart(s) || s == 58 || s == 59 || s == 83 || s == 84
  }

  /** yytable, where it says shift */
  function Shift(s: nat, t: Token): Option<nat> {
    if WantsOperand(s) then
      match t
      case Word(_) => Some(56)
      case Quote(_) => Some(57)
      case Open => Some(58)
      case NotTok => Some(59)
      case _ => None
    else if s == 86 || s == 87 then
      match t
      case Word(_) => Some(56)
      case Quote(_) => Some(57)
      case _ => None
    else if s == 61 then
      match t
      case Unequal => Some(86)
      case Equal => Some(87)
      case _ => None
    else if s == 60 || s == 154 || s == 169 || s == 81 then
      match t
      case OrTok => Some(83)
      case AndTok => Some(84)
      case Close => if s == 81 then Some(133) else None
      case _ => None
    else if s == 134 then
      if t == AndTok then Some(84) else None
    else None
  }

  /** yydefact: the rule to reduce with when nothing is shifted, 0 for an error */
  function DefaultRule(s: nat): nat {
    if s == 56 then 107 else if s == 57 then 108
    else if s == 61 then 100 else if s == 82 then 104
    else if s == 133 then 103 else if s == 134 then 105
    else if s == 135 then 106 else if s == 136 then 102
    else if s == 137 then 101 else 0
  }

  /** yypgoto / yydefgoto for the nonterminal expr */
  function GotoExpr(s: nat): nat {
    if s == 58 then 81 else if s == 59 then 82 else if s == 83 then 134
    else if s == 84 then 135 else if s == 140 then 154 else if s == 155 then 169 else 60
  }

  /** yypgoto / yydefgoto for the nonterminal symbol */
  function GotoSymbol(s: nat): nat {
    if s == 86 then 136 else if s == 87 then 137 else 61
  }

  function PushExpr(below: Stack, e: Expr): Option<Stack> {
    if below.Push? then Some(Push(below, GotoExpr(below.state), VExpr(e))) else None
  }

  function PushSymbol(below: Stack, s: Symbol): Option<Stack> {
    if below.Push? then Some(Push(below, GotoSymbol(below.state), VSymbol(s))) else None
  }

  /** Rules 107, 108 and 100 have one right-hand side symbol. */
  function Reduce1(rule: nat, v: Semantic, below: Stack, lookup: (string, bool) -> Symbol): Option<Stack> {
    if rule == 107 && v.VString? then PushSymbol(below, lookup(v.str, false))
    else if rule == 108 && v.VString? then PushSymbol(below, lookup(v.str, true))
    else if rule == 100 && v.VSymbol? then PushExpr(below, Sym(v.sym))
    else None
  }

  /** Rules 101, 102, 103, 105 and 106 have three. */
  function Reduce3(rule: nat, v1: Semantic, v2: Semantic, v3: Semantic, below: Stack): Option<Stack> {
    if rule == 101 && v1.VSymbol? && v3.VSymbol? then PushExpr(below, Comp(true, v1.sym, v3.sym))
    else if rule == 102 && v1.VSymbol? && v3.VSymbol? then PushExpr(below, Comp(false, v1.sym, v3.sym))
    else if rule == 103 && v2.VExpr? then PushExpr(below, v2.expr)
    else if rule == 105 && v1.VExpr? && v3.VExpr? then PushExpr(below, Bin(Or, v1.expr, v3.expr))
    else if rule == 106 && v1.VExpr? && v3.VExpr? then PushExpr(below, Bin(And, v1.expr, v3.expr))
    else None
  }

  /** yyreduce: pop the right-hand side, run the action, push the result */
  function Reduce(rule: nat, stack: Stack, lookup: (string, bool) -> Symbol): Option<Stack> {
    if rule == 0 || stack.Bottom? then None
    else
      var s1 := stack.below;
      if rule == 107 || rule == 108 || rule == 100 then Reduce1(rule, stack.val, s1, lookup)
      else if s1.Bottom? then None
      else if rule == 104 then (if stack.val.VExpr? then PushExpr(s1.below, Not(stack.val.expr)) else None)
      else if s1.below.Bottom? then None
      else Reduce3(rule, s1.below.val, s1.val, stack.val, s1.below.below)
  }

  function Shifted(t: Token): Semantic {
    match t
    case Word(n) => VString(n)
    case Quote(n) => VString(n)
    case _ => VTok
  }

  /** One turn of yyparse's goto loop; an expression that T_EOL follows is complete. */
  function Step(m: Machine, lookup: (string, bool) -> Symbol): Outcome {
    if m.stack.Bottom? then Rejected
    else
      var s := m.stack.state;
      if m.input.Tok? && Shift(s, m.input.head).Some? then
        Running(Machine(Push(m.stack, Shift(s, m.input.head).value, Shifted(m.input.head)), m.input.tail))
      else if m.input.Eol? && (s == 60 || s == 154 || s == 169) && m.stack.val.VExpr? then
        Accepted(m.stack.val.expr)
      else
        var r := Reduce(DefaultRule(s), m.stack, lookup);
        if r.None? then Rejected else Running(Machine(r.value, m.input))
  }

  function Weight(s: Stack): nat {
    match s
    case Bottom => 0
    case Push(b, _, v) => Weight(b) + (if v.VString? then 3 else if v.VSymbol? then 2 else 1)
  }

  function Length(t: Tokens): nat {
    if t.Eol? then 0 else 1 + Length(t.tail)
  }

  /** Shifts use up input; reductions make the stack lighter. */
  function Measure(m: Machine): nat {
    4 * Length(m.input) + Weight(m.stack)
  }

  lemma ReduceLighter(rule: nat, stack: Stack, lookup: (string, bool) -> Symbol)
    requires Reduce(rule, stack, lookup).Some?
    ensures Weight(Reduce(rule, stack, lookup).value) < Weight(stack)
  {
    var s1 := stack.below;
    if s1.Push? && s1.below.Push? {
      assert Weight(s1) == Weight(s1.below) + (if s1.val.VString? then 3 else if s1.val.VSymbol? then 2 else 1);
      assert Weight(s1.below) > Weight(s1.below.below);
    }
  }

  lemma StepDecreases(m: Machine, lookup: (string, bool) -> Symbol)
    ensures Step(m, lookup).Running? ==> Measure(Step(m, lookup).m) < Measure(m)
  {
    if m.stack.Push? && Reduce(DefaultRule(m.stack.state), m.stack, lookup).Some? {
      ReduceLighter(DefaultRule(m.stack.state), m.stack, lookup);
    }
  }

  /** The parser's verdict from m on. */
  function Run(m: Machine, lookup: (string, bool) -> Symbol): Dep
    decreases Measure(m)
  {
    StepDecreases(m, lookup);
    match Step(m, lookup)
    case Running(m') => Run(m', lookup)
    case Accepted(e) => Some(e)
    case Rejected => None
  }

  lemma RunStep(m: Machine, m': Machine, lookup: (string, bool) -> Symbol)
    requires Step(m, lookup) == Running(m')
    ensures Run(m, lookup) == Run(m', lookup)
  {
  }

  function Prepend(ts: seq<Token>, rest: Tokens): Tokens {
    if ts == [] then rest else Tok(ts[0], Prepend(ts[1..], rest))
  }

  /** The parser in state start, in front of an expression and T_EOL. */
  function Initial(start: nat, ts: seq<Token>): Machine {
    Machine(Push(Bottom, start, VTok), Prepend(ts, Eol))
  }

  /** yyparse on the tokens of one expression */
  method Parse(start: nat, ts: seq<Token>, lookup: (string, bool) -> Symbol) returns (r: Dep)
    ensures r == Run(Initial(start, ts), lookup)
  {
    var m := Initial(start, ts);
    while true
      invariant Run(m, lookup) == Run(Initial(start, ts), lookup)
      decreases Measure(m)
    {
      StepDecreases(m, lookup);
      match Step(m, lookup)
      case Running(m') => m := m';
      case Accepted(e) => return Some(e);
      case Rejected => return None;
    }
  }

  // ------------------------------------------------------- left association

  /** x op y, where the op-chain of y is hung below x from the left. */
  function Graft(op: Op, x: Expr, y: Expr): (r: Expr)
    ensures IsOp(op, r)
  {
    if IsOp(op, y) then Bin(op, Graft(op, x, y.left), y.right) else Bin(op, x, y)
  }

  /** The expression with all AND and OR chains re-associated to the left. */
  function LeftAssoc(e: Expr): (r: Expr)
    ensures TypeOf(r) == TypeOf(e)
  {
    match e
    case Not(a) => Not(LeftAssoc(a))
    case Bin(op, l, r) => Graft(op, LeftAssoc(l), LeftAssoc(r))
    case _ => e
  }

  lemma {:induction false} GraftAssociative(op: Op, x: Expr, y: Expr, z: Expr)
    ensures Graft(op, Graft(op, x, y), z) == Graft(op, x, Graft(op, y, z))
  {
    if IsOp(op, z) {
      GraftAssociative(op, x, y, z.left);
    }
  }

  lemma {:induction false} GraftSound(op: Op, x: Expr, y: Expr, v: Valuation)
    ensures Eval(Graft(op, x, y), v) == Ap(op, Eval(x, v), Eval(y, v))
  {
    if IsOp(op, y) {
      GraftSound(op, x, y.left, v);
      ApShuffle(op, Eval(x, v), Eval(y.left, v), Eval(y.right, v), YES);
    }
  }

  /** Re-association keeps the value. */
  lemma {:induction false} LeftAssocSound(e: Expr, v: Valuation)
    ensures Eval(LeftAssoc(e), v) == Eval(e, v)
  {
    match e
    case Not(a) => LeftAssocSound(a, v);
    case Bin(op, l, r) =>
      LeftAssocSound(l, v);
      LeftAssocSound(r, v);
      GraftSound(op, LeftAssoc(l), LeftAssoc(r), v);
    case _ =>
  }

  lemma {:induction false} GraftPrint(op: Op, x: Expr, y: Expr)
    ensures Print(Graft(op, x, y), OpType(op)) ==
            Print(x, OpType(op)) + ([OpToken(op)] + Print(y, OpType(op)))
  {
    if IsOp(op, y) {
      GraftPrint(op, x, y.left);
      var p, q, r, t := Print(x, OpType(op)), Print(y.left, OpType(op)), Print(y.right, OpType(op)), [OpToken(op)];
      assert (p + (t + q)) + (t + r) == p + (t + (q + (t + r)));
    }
  }

  lemma {:induction false} GraftPrintAny(op: Op, x: Expr, y: Expr, prev: ExprType)
    ensures Print(Graft(op, x, y), prev) == Print(Bin(op, x, y), prev)
  {
    GraftPrint(op, x, y);
    var g := Graft(op, x, y);
    assert Print(g, OpType(op)) == Print(g.left, OpType(op)) + ([OpToken(op)] + Print(g.right, OpType(op)));
  }

  /** The re-associated expression prints the same. */
  lemma {:induction false} LeftAssocPrint(e: Expr, prev: ExprType)
    ensures Print(LeftAssoc(e), prev) == Print(e, prev)
    decreases e
  {
    match e
    case Not(a) => LeftAssocPrint(a, T_NOT);
    case Bin(op, l, r) =>
      LeftAssocPrint(l, OpType(op));
      LeftAssocPrint(r, OpType(op));
      GraftPrintAny(op, LeftAssoc(l), LeftAssoc(r), prev);
    case _ =>
  }

  // ------------------------------------------------------------- round trip

  /** Looking up a symbol's printed name finds the symbol: true of named non-constant symbols and y/m/n. */
  predicate Named(e: Expr, lookup: (string, bool) -> Symbol) {
    match e
    case Sym(s) => lookup(s.name, false) == s
    case Comp(_, l, r) => lookup(l.name, false) == l && lookup(r.name, false) == r
    case Not(a) => Named(a, lookup)
    case Bin(_, l, r) => Named(l, lookup) && Named(r, lookup)
  }

  lemma {:induction false} PrependAppend(a: seq<Token>, b: seq<Token>, rest: Tokens)
    ensures Prepend(a + b, rest) == Prepend(a, Prepend(b, rest))
  {
    if a == [] {
      assert a + b == b;
    } else {
      assert (a + b)[1..] == a[1..] + b;
      PrependAppend(a[1..], b, rest);
    }
  }

  /** An operand is complete unless a comparison follows. */
  predicate Ends(rest: Tokens) {
    rest.Tok? ==> rest.head != Equal && rest.head != Unequal
  }

  /** The stack after an expression has been recognized on top of it. */
  function WithExpr(stack: Stack, e: Expr): Stack
    requires stack.Push?
  {
    Push(stack, GotoExpr(stack.state), VExpr(e))
  }

  lemma ReadSymbol(stack: Stack, s: Symbol, rest: Tokens, lookup: (string, bool) -> Symbol)
    requires stack.Push? && WantsOperand(stack.state) && Ends(rest) && lookup(s.name, false) == s
    ensures Run(Machine(stack, Tok(Word(s.name), rest)), lookup) == Run(Machine(WithExpr(stack, Sym(s)), rest), lookup)
  {
    var m1 := Machine(Push(stack, 56, VString(s.name)), rest);
    var m2 := Machine(Push(stack, 61, VSymbol(s)), rest);
    RunStep(Machine(stack, Tok(Word(s.name), rest)), m1, lookup);
    RunStep(m1, m2, lookup);
    RunStep(m2, Machine(WithExpr(stack, Sym(s)), rest), lookup);
  }

  lemma ReadComp(stack: Stack, eq: bool, l: Symbol, r: Symbol, rest: Tokens, lookup: (string, bool) -> Symbol)
    requires stack.Push? && WantsOperand(stack.state)
    requires lookup(l.name, false) == l && lookup(r.name, false) == r
    ensures Run(Machine(stack, Tok(Word(l.name), Tok(if eq then Equal else Unequal, Tok(Word(r.name), rest)))), lookup)
            == Run(Machine(WithExpr(stack, Comp(eq, l, r)), rest), lookup)
  {
    var t := if eq then Equal else Unequal;
    var s, s' := if eq then 87 else 86, if eq then 137 else 136;
    var i2 := Tok(Word(r.name), rest);
    var m1 := Machine(Push(stack, 56, VString(l.name)), Tok(t, i2));
    var m2 := Machine(Push(stack, 61, VSymbol(l)), Tok(t, i2));
    var m3 := Machine(Push(m2.stack, s, VTok), i2);
    var m4 := Machine(Push(m3.stack, 56, VString(r.name)), rest);
    var m5 := Machine(Push(m3.stack, s', VSymbol(r)), rest);
    RunStep(Machine(stack, Tok(Word(l.name), Tok(t, i2))), m1, lookup);
    RunStep(m1, m2, lookup);
    RunStep(m2, m3, lookup);
    RunStep(m3, m4, lookup);
    RunStep(m4, m5, lookup);
    RunStep(m5, Machine(WithExpr(stack, Comp(eq, l, r)), rest), lookup);
  }

  lemma ReadNot(stack: Stack, a: Expr, rest: Tokens, lookup: (string, bool) -> Symbol)
    requires stack.Push? && WantsOperand(stack.state)
    ensures Run(Machine(WithExpr(Push(stack, 59, VTok), a), rest), lookup)
            == Run(Machine(WithExpr(stack, Not(a)), rest), lookup)
  {
    RunStep(Machine(WithExpr(Push(stack, 59, VTok), a), rest), Machine(WithExpr(stack, Not(a)), rest), lookup);
  }

  lemma ReadClose(stack: Stack, e: Expr, rest: Tokens, lookup: (string, bool) -> Symbol)
    requires stack.Push? && WantsOperand(stack.state)
    ensures Run(Machine(WithExpr(Push(stack, 58, VTok), e), Tok(Close, rest)), lookup)
            == Run(Machine(WithExpr(stack, e), rest), lookup)
  {
    var m1 := Machine(WithExpr(Push(stack, 58, VTok), e), Tok(Close, rest));
    var m2 := Machine(Push(m1.stack, 133, VTok), rest);
    RunStep(m1, m2, lookup);
    RunStep(m2, Machine(WithExpr(stack, e), rest), lookup);
  }

  /** A token that opens an operand or continues an expression is shifted. */
  lemma ReadShift(stack: Stack, t: Token, rest: Tokens, lookup: (string, bool) -> Symbol)
    requires stack.Push? && Shift(stack.state, t).Some?
    ensures Run(Machine(stack, Tok(t, rest)), lookup)
            == Run(Machine(Push(stack, Shift(stack.state, t).value, Shifted(t)), rest), lookup)
  {
    RunStep(Machine(stack, Tok(t, rest)),
            Machine(Push(stack, Shift(stack.state, t).value, Shifted(t)), rest), lookup);
  }

  /** x op y is reduced, unless a tighter AND follows an OR. */
  lemma ReadBin(stack: Stack, x: Expr, op: Op, y: Expr, rest: Tokens, lookup: (string, bool) -> Symbol)
    requires stack.Push? && WantsOperand(stack.state)
    requires op == Or ==> EndsTerm(rest)
    ensures Run(Machine(WithExpr(Push(WithExpr(stack, x), if op == And then 84 else 83, VTok), y), rest), lookup)
            == Run(Machine(WithExpr(stack, Bin(op, x, y)), rest), lookup)
  {
    RunStep(Machine(WithExpr(Push(WithExpr(stack, x), if op == And then 84 else 83, VTok), y), rest),
            Machine(WithExpr(stack, Bin(op, x, y)), rest), lookup);
  }

  /** What may follow a complete OR operand. */
  predicate EndsTerm(rest: Tokens) {
    Ends(rest) && (rest.Tok? ==> rest.head != AndTok)
  }

  lemma CompTokens(eq: bool, l: Symbol, r: Symbol, prev: ExprType, rest: Tokens)
    requires prev != T_COMP && prev != T_LIST
    ensures Prepend(Print(Comp(eq, l, r), prev), rest)
            == Tok(Word(l.name), Tok(if eq then Equal else Unequal, Tok(Word(r.name), rest)))
  {
    var t := if eq then Equal else Unequal;
    assert Print(Comp(eq, l, r), prev) == [Word(l.name)] + ([t] + [Word(r.name)]);
    PrependAppend([Word(l.name)], [t] + [Word(r.name)], rest);
    PrependAppend([t], [Word(r.name)], rest);
  }

  lemma NotTokens(a: Expr, prev: ExprType, rest: Tokens)
    requires prev == T_NONE || prev == T_OR || prev == T_AND || prev == T_NOT
    ensures Prepend(Print(Not(a), prev), rest) == Tok(NotTok, Prepend(Print(a, T_NOT), rest))
  {
    PrependAppend([NotTok], Print(a, T_NOT), rest);
  }

  lemma SymTokens(s: Symbol, prev: ExprType, rest: Tokens)
    requires prev == T_NONE || prev == T_OR || prev == T_AND || prev == T_NOT
    ensures Prepend(Print(Sym(s), prev), rest) == Tok(Word(s.name), rest)
  {
  }

  /** The tokens of a chain, one operator at a time. */
  lemma BinTokens(e: Expr, prev: ExprType, rest: Tokens)
    requires e.Bin? && !ComparesHigher(prev, TypeOf(e))
    ensures Prepend(Print(e, prev), rest) ==
            Prepend(Print(e.left, OpType(e.op)), Tok(OpToken(e.op), Prepend(Print(e.right, OpType(e.op)), rest)))
  {
    var l, r := Print(e.left, OpType(e.op)), Print(e.right, OpType(e.op));
    PrependAppend(l, [OpToken(e.op)] + r, rest);
    PrependAppend([OpToken(e.op)], r, rest);
  }

  lemma ParenTokens(e: Expr, prev: ExprType, rest: Tokens)
    requires e.Bin? && ComparesHigher(prev, TypeOf(e))
    ensures Prepend(Print(e, prev), rest) == Tok(Open, Prepend(Print(e, T_NONE), Tok(Close, rest)))
  {
    var body := Print(e, T_NONE);
    PrependAppend([Open] + body, [Close], rest);
    PrependAppend([Open], body, Tok(Close, rest));
  }

  /** Printed as an operand of prev, e is a single unit: a leaf, a negation or parenthesized. */
  predicate IsUnit(e: Expr, prev: ExprType) {
    !e.Bin? || ComparesHigher(prev, TypeOf(e))
  }

  lemma {:induction false} ReadUnit(stack: Stack, e: Expr, prev: ExprType, rest: Tokens,
                                    lookup: (string, bool) -> Symbol)
    requires stack.Push? && WantsOperand(stack.state) && IsUnit(e, prev) && Ends(rest) && Named(e, lookup)
    requires prev == T_NONE || prev == T_OR || prev == T_AND || prev == T_NOT
    ensures Run(Machine(stack, Prepend(Print(e, prev), rest)), lookup)
            == Run(Machine(WithExpr(stack, LeftAssoc(e)), rest), lookup)
    decreases Size(e), 2
  {
    match e
    case Sym(s) =>
      SymTokens(s, prev, rest);
      ReadSymbol(stack, s, rest, lookup);
    case Comp(eq, l, r) =>
      CompTokens(eq, l, r, prev, rest);
      ReadComp(stack, eq, l, r, rest, lookup);
    case Not(a) =>
      NotTokens(a, prev, rest);
      ReadShift(stack, NotTok, Prepend(Print(a, T_NOT), rest), lookup);
      ReadUnit(Push(stack, 59, VTok), a, T_NOT, rest, lookup);
      ReadNot(stack, LeftAssoc(a), rest, lookup);
    case Bin(_, _, _) =>
      ParenTokens(e, prev, rest);
      ReadShift(stack, Open, Prepend(Print(e, T_NONE), Tok(Close, rest)), lookup);
      ReadBody(Push(stack, 58, VTok), e, Tok(Close, rest), lookup);
      ReadClose(stack, LeftAssoc(e), rest, lookup);
  }

  /** The operands of an AND chain, read from the first one on. */
  lemma {:induction false} ReadAnds(stack: Stack, e: Expr, prev: ExprType, rest: Tokens,
                                    lookup: (string, bool) -> Symbol)
    requires stack.Push? && (IsStart(stack.state) || stack.state == 58 || stack.state == 83)
    requires IsUnit(e, prev) || IsOp(And, e)
    requires prev == T_NONE || prev == T_OR || prev == T_AND
    requires Ends(rest) && Named(e, lookup)
    ensures Run(Machine(stack, Prepend(Print(e, prev), rest)), lookup)
            == Run(Machine(WithExpr(stack, LeftAssoc(e)), rest), lookup)
    decreases Size(e), 3
  {
    if IsUnit(e, prev) {
      ReadUnit(stack, e, prev, rest, lookup);
    } else {
      BinTokens(e, prev, rest);
      ReadAnds(stack, e.left, T_AND, Tok(AndTok, Prepend(Print(e.right, T_AND), rest)), lookup);
      MoreAnds(stack, LeftAssoc(e.left), e.right, rest, lookup);
    }
  }

  /** "&& e" behind x: the operands of e are joined to x one by one. */
  lemma {:induction false} MoreAnds(stack: Stack, x: Expr, e: Expr, rest: Tokens, lookup: (string, bool) -> Symbol)
    requires stack.Push? && (IsStart(stack.state) || stack.state == 58 || stack.state == 83)
    requires Ends(rest) && Named(e, lookup)
    ensures Run(Machine(WithExpr(stack, x), Tok(AndTok, Prepend(Print(e, T_AND), rest))), lookup)
            == Run(Machine(WithExpr(stack, Graft(And, x, LeftAssoc(e))), rest), lookup)
    decreases Size(e), 4
  {
    if IsOp(And, e) {
      BinTokens(e, T_AND, rest);
      MoreAnds(stack, x, e.left, Tok(AndTok, Prepend(Print(e.right, T_AND), rest)), lookup);
      MoreAnds(stack, Graft(And, x, LeftAssoc(e.left)), e.right, rest, lookup);
      GraftAssociative(And, x, LeftAssoc(e.left), LeftAssoc(e.right));
    } else {
      ReadShift(WithExpr(stack, x), AndTok, Prepend(Print(e, T_AND), rest), lookup);
      ReadUnit(Push(WithExpr(stack, x), 84, VTok), e, T_AND, rest, lookup);
      ReadBin(stack, x, And, LeftAssoc(e), rest, lookup);
    }
  }

  /** An AND or OR expression printed without parentheses around it. */
  lemma {:induction false} ReadBody(stack: Stack, e: Expr, rest: Tokens, lookup: (string, bool) -> Symbol)
    requires stack.Push? && (IsStart(stack.state) || stack.state == 58)
    requires e.Bin? && EndsTerm(rest) && Named(e, lookup)
    ensures Run(Machine(stack, Prepend(Print(e, T_NONE), rest)), lookup)
            == Run(Machine(WithExpr(stack, LeftAssoc(e)), rest), lookup)
    decreases Size(e), 1
  {
    BinTokens(e, T_NONE, rest);
    if e.op == Or {
      ReadAll(stack, e.left, T_OR, Tok(OrTok, Prepend(Print(e.right, T_OR), rest)), lookup);
      MoreOrs(stack, LeftAssoc(e.left), e.right, rest, lookup);
    } else {
      ReadAnds(stack, e.left, T_AND, Tok(AndTok, Prepend(Print(e.right, T_AND), rest)), lookup);
      MoreAnds(stack, LeftAssoc(e.left), e.right, rest, lookup);
    }
  }

  /** A whole expression, read from its first token on. */
  lemma {:induction false} ReadAll(stack: Stack, e: Expr, prev: ExprType, rest: Tokens,
                                   lookup: (string, bool) -> Symbol)
    requires stack.Push? && (IsStart(stack.state) || stack.state == 58)
    requires prev == T_NONE || prev == T_OR
    requires EndsTerm(rest) && Named(e, lookup)
    ensures Run(Machine(stack, Prepend(Print(e, prev), rest)), lookup)
            == Run(Machine(WithExpr(stack, LeftAssoc(e)), rest), lookup)
    decreases Size(e), 5
  {
    if e.Bin? {
      ReadBody(stack, e, rest, lookup);
    } else {
      ReadUnit(stack, e, prev, rest, lookup);
    }
  }

  /** "|| e" behind x: the terms of e are joined to x one by one. */
  lemma {:induction false} MoreOrs(stack: Stack, x: Expr, e: Expr, rest: Tokens, lookup: (string, bool) -> Symbol)
    requires stack.Push? && (IsStart(stack.state) || stack.state == 58)
    requires EndsTerm(rest) && Named(e, lookup)
    ensures Run(Machine(WithExpr(stack, x), Tok(OrTok, Prepend(Print(e, T_OR), rest))), lookup)
            == Run(Machine(WithExpr(stack, Graft(Or, x, LeftAssoc(e))), rest), lookup)
    decreases Size(e), 4
  {
    if IsOp(Or, e) {
      BinTokens(e, T_OR, rest);
      MoreOrs(stack, x, e.left, Tok(OrTok, Prepend(Print(e.right, T_OR), rest)), lookup);
      MoreOrs(stack, Graft(Or, x, LeftAssoc(e.left)), e.right, rest, lookup);
      GraftAssociative(Or, x, LeftAssoc(e.left), LeftAssoc(e.right));
    } else {
      ReadShift(WithExpr(stack, x), OrTok, Prepend(Print(e, T_OR), rest), lookup);
      ReadAnds(Push(WithExpr(stack, x), 83, VTok), e, T_OR, rest, lookup);
      ReadBin(stack, x, Or, LeftAssoc(e), rest, lookup);
    }
  }

  /** Parsing what was printed gives the expression back, with its chains left-associated. */
  lemma ParsePrint(start: nat, e: Expr, lookup: (string, bool) -> Symbol)
    requires IsStart(start) && Named(e, lookup)
    ensures Run(Initial(start, Print(e, T_NONE)), lookup) == Some(LeftAssoc(e))
  {
    var stack := Push(Bottom, start, VTok);
    ReadAll(stack, e, T_NONE, Eol, lookup);
    var last := Machine(WithExpr(stack, LeftAssoc(e)), Eol);
    assert Step(last, lookup) == Accepted(LeftAssoc(e));
  }

  /** Hence the read-back expression has the same value everywhere and prints the same. */
  lemma PrintParseRoundTrip(start: nat, e: Expr, lookup: (string, bool) -> Symbol, v: Valuation)
    requires IsStart(start) && Named(e, lookup)
    ensures var r := Run(Initial(start, Print(e, T_NONE)), lookup);
            r.Some? && Eval(r.value, v) == Eval(e, v) && Print(r.value, T_NONE) == Print(e, T_NONE)
  {
    ParsePrint(start, e, lookup);
    LeftAssocSound(e, v);
    LeftAssocPrint(e, T_NONE);
  }

  // ------------------------------------------------------------ parentheses

  function Opens(ts: seq<Token>): nat {
    if ts == [] then 0 else (if ts[0] == Open then 1 else 0) + Opens(ts[1..])
  }

  lemma {:induction false} OpensAppend(a: seq<Token>, b: seq<Token>)
    ensures Opens(a + b) == Opens(a) + Opens(b)
  {
    if a == [] {
      assert a + b == b;
    } else {
      assert (a + b)[1..] == a[1..] + b;
      OpensAppend(a[1..], b);
    }
  }

  /** An AND or OR below a negation, or an OR as operand of an AND */
  predicate Looser(parent: ExprType, e: Expr) {
    e.Bin? && (parent == T_NOT || (parent == T_AND && e.op == Or))
  }

  /** The number of operands that bind looser than what stands around them */
  function LooseOperands(e: Expr): nat {
    match e
    case Sym(_) => 0
    case Comp(_, _, _) => 0
    case Not(a) => LooseOperands(a) + (if a.Bin? then 1 else 0)
    case Bin(op, l, r) =>
      LooseOperands(l) + LooseOperands(r)
      + (if op == And && IsOp(Or, l) then 1 else 0) + (if op == And && IsOp(Or, r) then 1 else 0)
  }

  /** Around e itself there are parentheses if it binds looser. */
  lemma OuterParentheses(e: Expr, prev: ExprType)
    requires prev == T_NONE || prev == T_OR || prev == T_AND || prev == T_NOT
    ensures Opens(Print(e, prev)) == Opens(Print(e, T_NONE)) + (if Looser(prev, e) then 1 else 0)
  {
    var inner := Print(e, T_NONE);
    if Looser(prev, e) {
      assert Print(e, prev) == [Open] + inner + [Close];
      OpensAppend([Open] + inner, [Close]);
      OpensAppend([Open], inner);
    } else {
      assert Print(e, prev) == inner;
    }
  }

  /** One pair of parentheses is printed for each of them, and no other. */
  lemma {:induction false} PrintParentheses(e: Expr)
    ensures Opens(Print(e, T_NONE)) == LooseOperands(e)
  {
    match e
    case Sym(s) => assert Print(e, T_NONE) == [Word(s.name)];
    case Comp(eq, l, r) =>
      var t := [if eq then Equal else Unequal];
      assert Print(e, T_NONE) == [Word(l.name)] + (t + [Word(r.name)]);
      OpensAppend([Word(l.name)], t + [Word(r.name)]);
      OpensAppend(t, [Word(r.name)]);
    case Not(a) =>
      PrintParentheses(a);
      OuterParentheses(a, T_NOT);
      OpensAppend([NotTok], Print(a, T_NOT));
    case Bin(op, l, r) =>
      PrintParentheses(l);
      PrintParentheses(r);
      OuterParentheses(l, OpType(op));
      OuterParentheses(r, OpType(op));
      var pl, pr := Print(l, OpType(op)), Print(r, OpType(op));
      assert Print(e, T_NONE) == pl + ([OpToken(op)] + pr);
      OpensAppend(pl, [OpToken(op)] + pr);
      OpensAppend([OpToken(op)], pr);
  }

  // None of them can be left out: the text without it is that of another expression, as which
  // ParsePrint reads it.

  lemma BareBelowNot(op: Op, a: Expr, b: Expr)
    requires !a.Bin?
    ensures [NotTok] + Print(Bin(op, a, b), T_NONE) == Print(Bin(op, Not(a), b), T_NONE)
  {
    var pa, pb, o := Print(a, OpType(op)), Print(b, OpType(op)), [OpToken(op)];
    assert Print(a, T_NOT) == pa && Print(Not(a), OpType(op)) == [NotTok] + pa;
    assert [NotTok] + (pa + (o + pb)) == ([NotTok] + pa) + (o + pb);
  }

  lemma BareLeftOfAnd(a: Expr, b: Expr, c: Expr)
    requires !IsOp(Or, b)
    ensures Print(Bin(Or, a, b), T_NONE) + ([AndTok] + Print(c, T_AND)) == Print(Bin(Or, a, Bin(And, b, c)), T_NONE)
  {
    var pa, pb, pc := Print(a, T_OR), Print(b, T_OR), Print(c, T_AND);
    assert Print(b, T_AND) == pb && Print(Bin(And, b, c), T_OR) == pb + ([AndTok] + pc);
    assert (pa + ([OrTok] + pb)) + ([AndTok] + pc) == pa + ([OrTok] + (pb + ([AndTok] + pc)));
  }

  lemma BareRightOfAnd(a: Expr, b: Expr, c: Expr)
    requires !IsOp(Or, b)
    ensures Print(a, T_AND) + ([AndTok] + Print(Bin(Or, b, c), T_NONE)) == Print(Bin(Or, Bin(And, a, b), c), T_NONE)
  {
    var pa, pb, pc := Print(a, T_AND), Print(b, T_OR), Print(c, T_OR);
    assert Print(b, T_AND) == pb && Print(Bin(And, a, b), T_OR) == pa + ([AndTok] + pb);
    assert pa + ([AndTok] + (pb + ([OrTok] + pc))) == (pa + ([AndTok] + pb)) + ([OrTok] + pc);
  }

  /** A quoted word is looked up as a constant. */
  lemma ReadQuote(start: nat, name: string, lookup: (string, bool) -> Symbol)
    requires IsStart(start)
    ensures Run(Initial(start, [Quote(name)]), lookup) == Some(Sym(lookup(name, true)))
  {
    var stack, s := Push(Bottom, start, VTok), lookup(name, true);
    assert Prepend([Quote(name)], Eol) == Tok(Quote(name), Prepend([], Eol));
    var m1 := Machine(Push(stack, 57, VString(name)), Eol);
    var m2 := Machine(Push(stack, 61, VSymbol(s)), Eol);
    var m3 := Machine(WithExpr(stack, Sym(s)), Eol);
    RunStep(Initial(start, [Quote(name)]), m1, lookup);
    RunStep(m1, m2, lookup);
    RunStep(m2, m3, lookup);
    assert Step(m3, lookup) == Accepted(Sym(s));
  }
}
