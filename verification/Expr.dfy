/** Tristate expressions of the Kconfig engine: values, symbols, trees and their meaning. */
module Expr {
  import opened Wrappers


  // n < m < y; conjunction is the minimum, disjunction the maximum, negation 2 - x.
  type Tristate = t: int | 0 <= t <= 2

  const NO: Tristate := 0
  const MOD: Tristate := 1
  const YES: Tristate := 2

  datatype Op = AndOp | OrOp

  function Apply(op: Op, x: Tristate, y: Tristate): Tristate {
    match op
    case AndOp => if x < y then x else y
    case OrOp => if x > y then x else y
  }

  function Negate(x: Tristate): Tristate {
    2 - x
  }

  function Dual(op: Op): Op {
    if op.AndOp? then OrOp else AndOp
  }

  datatype SymType = UnknownType | BooleanType | TristateType | IntType | HexType | StringType

  /** A symbol is either a constant (SYMBOL_CONST, identified by its text) or a configuration
      symbol. Equality of these values stands for equality of `struct symbol` pointers. */
  datatype Symbol = Const(name: string) | Config(name: string, ty: SymType) {
    predicate IsBoolean() { Config? && ty.BooleanType? }
    predicate IsTristate() { Config? && ty.TristateType? }
  }

  // symbol_yes, symbol_mod and symbol_no
  const SymYes := Const("y")
  const SymMod := Const("m")
  const SymNo := Const("n")

  datatype Expr =
    | Sym(s: Symbol)
    | Equal(l: Symbol, r: Symbol)
    | Unequal(l: Symbol, r: Symbol)
    | Not(e: Expr)
    | Bin(op: Op, a: Expr, b: Expr)

  const ExprYes := Sym(SymYes)
  const ExprNo := Sym(SymNo)

  // The constant that changes nothing under `op`, and the one that decides it.
  function Unit(op: Op): Expr {
    if op.AndOp? then ExprYes else ExprNo
  }

  function Zero(op: Op): Expr {
    if op.AndOp? then ExprNo else ExprYes
  }

  predicate IsOp(op: Op, e: Expr) {
    e.Bin? && e.op == op
  }

  predicate IsYn(e: Expr) {
    e == ExprYes || e == ExprNo
  }

  function Size(e: Expr): (n: nat)
    ensures n >= 1
  {
    match e
    case Not(x) => 1 + Size(x)
    case Bin(_, a, b) => 1 + Size(a) + Size(b)
    case _ => 1
  }

  /** The values the evaluator reads: a tristate for every symbol, the text of the symbols that
      are not boolean or tristate, and the value of MODULES. */
  datatype Valuation = Valuation(tri: Symbol -> Tristate, text: Symbol -> string, modules: Tristate)

  function ConstTri(name: string): Tristate {
    if name == "y" then YES else if name == "m" then MOD else NO
  }

  function TriOf(v: Valuation, s: Symbol): Tristate {
    if s.Const? then ConstTri(s.name) else v.tri(s)
  }

  function TriText(t: Tristate, modules: Tristate): string {
    if t == NO then "n" else if t == YES then "y" else if modules == NO then "n" else "m"
  }

  // sym_get_string_value
  function TextOf(v: Valuation, s: Symbol): string {
    if s.Const? then s.name
    else if s.ty.BooleanType? || s.ty.TristateType? then TriText(v.tri(s), v.modules)
    else v.text(s)
  }

  function Truth(b: bool): Tristate {
    if b then YES else NO
  }

  // expr_calc_value
  function Eval(e: Expr, v: Valuation): Tristate {
    match e
    case Sym(s) => TriOf(v, s)
    case Equal(l, r) => Truth(TextOf(v, l) == TextOf(v, r))
    case Unequal(l, r) => Truth(TextOf(v, l) != TextOf(v, r))
    case Not(x) => Negate(Eval(x, v))
    case Bin(op, a, b) => Apply(op, Eval(a, v), Eval(b, v))
  }

  lemma UnitFactor(op: Op, x: Tristate, v: Valuation)
    ensures Apply(op, Eval(Unit(op), v), x) == x == Apply(op, x, Eval(Unit(op), v))
  {
  }

  // A missing condition always holds.
  function EvalCond(e: Option<Expr>, v: Valuation): Tristate {
    if e.Some? then Eval(e.value, v) else YES
  }

  /** Booleans are never m, tristates never m with modules off. */
  ghost predicate WellTyped(v: Valuation) {
    && (forall s: Symbol :: s.IsBoolean() ==> v.tri(s) != MOD)
    && (forall s: Symbol :: s.IsTristate() && v.modules == NO ==> v.tri(s) != MOD)
  }

  /** No symbol that `e` reads as a condition is m; the constant m is excluded too. */
  predicate TwoValued(e: Expr, v: Valuation) {
    match e
    case Sym(s) => TriOf(v, s) != MOD
    case Not(x) => TwoValued(x, v)
    case Bin(_, a, b) => TwoValued(a, v) && TwoValued(b, v)
    case _ => true
  }

  lemma {:induction false} TwoValuedEval(e: Expr, v: Valuation)
    requires TwoValued(e, v)
    ensures Eval(e, v) != MOD
  {
    match e
    case Not(x) => TwoValuedEval(x, v);
    case Bin(_, a, b) =>
      TwoValuedEval(a, v);
      TwoValuedEval(b, v);
    case _ =>
  }

  // expr_eliminate_yn: negations are not entered.
  function EliminateYn(e: Expr): (r: Expr)
    ensures Size(r) <= Size(e)
  {
    if !e.Bin? then e else
    var a := EliminateYn(e.a);
    var b := EliminateYn(e.b);
    if a == Zero(e.op) || b == Zero(e.op) then Zero(e.op)
    else if a == Unit(e.op) then b
    else if b == Unit(e.op) then a
    else Bin(e.op, a, b)
  }

  lemma {:induction false} EliminateYnMeaning(e: Expr, v: Valuation)
    ensures Eval(EliminateYn(e), v) == Eval(e, v)
  {
    if e.Bin? {
      EliminateYnMeaning(e.a, v);
      EliminateYnMeaning(e.b, v);
    }
  }

  lemma {:induction false} EliminateYnTwoValued(e: Expr, v: Valuation)
    requires TwoValued(e, v)
    ensures TwoValued(EliminateYn(e), v)
  {
    if e.Bin? {
      EliminateYnTwoValued(e.a, v);
      EliminateYnTwoValued(e.b, v);
    }
  }
}
