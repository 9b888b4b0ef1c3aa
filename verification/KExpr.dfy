/** Expressions of kconfiglib: n-ary conjunctions and disjunctions over symbols and strings. */
module KExpr {
  import opened Wrappers
  import opened Expr

  type Name = string

  datatype Atom = ASym(name: Name) | AStr(text: string)

  datatype KExpr =
    | KAtom(a: Atom)
    | KCompare(equal: bool, l: Atom, r: Atom)
    | KNot(e: KExpr)
    | KOp(op: Op, es: seq<KExpr>)

  function AtomSyms(a: Atom): set<Name> {
    if a.ASym? then {a.name} else {}
  }

  // _get_expr_syms
  function ExprSyms(e: KExpr): set<Name>
    decreases e, 1
  {
    match e
    case KAtom(a) => AtomSyms(a)
    case KCompare(_, l, r) => AtomSyms(l) + AtomSyms(r)
    case KNot(x) => ExprSyms(x)
    case KOp(_, es) => ListSyms(e, |es|)
  }

  // The symbols in the first `n` operands.
  function ListSyms(e: KExpr, n: nat): set<Name>
    requires e.KOp? && n <= |e.es|
    decreases e, 0, n
  {
    if n == 0 then {} else ListSyms(e, n - 1) + ExprSyms(e.es[n - 1])
  }

  function OptSyms(e: Option<KExpr>): set<Name> {
    if e.Some? then ExprSyms(e.value) else {}
  }

  /** What evaluation reads: the text of every symbol, whether it is boolean or tristate, and whether
      modules are on. */
  datatype World = World(val: Name -> string, tri: Name -> bool, mods: bool)

  // _str_val
  function AtomText(a: Atom, w: World): string {
    if a.ASym? then w.val(a.name) else a.text
  }

  // _eval_expr_2; a symbol that is not boolean or tristate counts as n
  function Eval2(e: KExpr, w: World): Tristate
    decreases e, 1
  {
    match e
    case KAtom(ASym(s)) => if w.tri(s) then ConstTri(w.val(s)) else NO
    case KAtom(AStr(t)) => ConstTri(t)
    case KCompare(equal, l, r) => Truth(equal == (AtomText(l, w) == AtomText(r, w)))
    case KNot(x) => Negate(Eval2(x, w))
    case KOp(op, es) => EvalList(e, |es|, w)
  }

  function EvalList(e: KExpr, n: nat, w: World): Tristate
    requires e.KOp? && n <= |e.es|
    decreases e, 0, n
  {
    if n == 0 then (if e.op.AndOp? then YES else NO)
    else Apply(e.op, EvalList(e, n - 1, w), Eval2(e.es[n - 1], w))
  }

  // m counts as y when modules are off
  function Promote(t: Tristate, mods: bool): Tristate {
    if t == MOD && !mods then YES else t
  }

  // _eval_expr; an absent expression is y
  function EvalOpt(e: Option<KExpr>, w: World): Tristate {
    if e.Some? then Promote(Eval2(e.value, w), w.mods) else YES
  }

  ghost predicate Agree(ss: set<Name>, v: World, w: World) {
    v.mods == w.mods && forall s :: s in ss ==> v.val(s) == w.val(s) && v.tri(s) == w.tri(s)
  }

  lemma {:induction false} Eval2Agree(e: KExpr, v: World, w: World)
    requires Agree(ExprSyms(e), v, w)
    ensures Eval2(e, v) == Eval2(e, w)
    decreases e, 1
  {
    match e
    case KAtom(a) =>
      if a.ASym? {
        assert a.name in ExprSyms(e);
      }
    case KCompare(_, l, r) =>
      assert l.ASym? ==> l.name in ExprSyms(e);
      assert r.ASym? ==> r.name in ExprSyms(e);
    case KNot(x) => Eval2Agree(x, v, w);
    case KOp(_, es) => EvalListAgree(e, |es|, v, w);
  }

  lemma {:induction false} EvalListAgree(e: KExpr, n: nat, v: World, w: World)
    requires e.KOp? && n <= |e.es| && Agree(ListSyms(e, n), v, w)
    ensures EvalList(e, n, v) == EvalList(e, n, w)
    decreases e, 0, n
  {
    if n > 0 {
      EvalListAgree(e, n - 1, v, w);
      Eval2Agree(e.es[n - 1], v, w);
    }
  }

  lemma EvalOptAgree(e: Option<KExpr>, v: World, w: World)
    requires Agree(OptSyms(e), v, w)
    ensures EvalOpt(e, v) == EvalOpt(e, w)
  {
    if e.Some? {
      Eval2Agree(e.value, v, w);
    }
  }

  /** Constant conditions that are never m: no symbols, and no "m" used as a condition. */
  predicate Plain(e: KExpr)
    decreases e, 1
  {
    match e
    case KAtom(a) => a.AStr? && a.text != "m"
    case KCompare(_, l, r) => l.AStr? && r.AStr?
    case KNot(x) => Plain(x)
    case KOp(_, es) => PlainList(e, |es|)
  }

  predicate PlainList(e: KExpr, n: nat)
    requires e.KOp? && n <= |e.es|
    decreases e, 0, n
  {
    n == 0 || (PlainList(e, n - 1) && Plain(e.es[n - 1]))
  }

  lemma {:induction false} PlainEval(e: KExpr, v: World, w: World)
    requires Plain(e)
    ensures Eval2(e, v) == Eval2(e, w) != MOD
    decreases e, 1
  {
    match e
    case KAtom(_) =>
    case KCompare(_, _, _) =>
    case KNot(x) => PlainEval(x, v, w);
    case KOp(_, es) => PlainListEval(e, |es|, v, w);
  }

  lemma {:induction false} PlainListEval(e: KExpr, n: nat, v: World, w: World)
    requires e.KOp? && n <= |e.es| && PlainList(e, n)
    ensures EvalList(e, n, v) == EvalList(e, n, w) != MOD
    decreases e, 0, n
  {
    if n > 0 {
      PlainListEval(e, n - 1, v, w);
      PlainEval(e.es[n - 1], v, w);
    }
  }
}
