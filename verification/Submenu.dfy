/** The tests by which menu_finalize turns following entries into an automatic submenu. */
module Submenu {
  import opened Wrappers
  import opened Expr
  import opened Equality
  import opened Normalisation
  import opened Joining
  import opened Duplicates
  import opened Slots
  import Semantics

  datatype Relation = IsEqual | IsUnequal

  function Opposite(t: Relation): Relation {
    if t.IsEqual? then IsUnequal else IsEqual
  }

  function NotIf(b: bool, e: Expr): Expr {
    if b then Not(e) else e
  }

  // expr_trans_compare for y and n: an expression for "e = sym" or "e != sym"
  function TransCompare(e: Expr, t: Relation, sym: Symbol): Expr
    requires sym == SymYes || sym == SymNo
  {
    match e
    case Bin(op, a, b) =>
      var x, y := TransCompare(a, IsEqual, sym), TransCompare(b, IsEqual, sym);
      NotIf(t.IsUnequal?, Bin(if sym == SymYes then op else Dual(op), x, y))
    case Not(x) => TransCompare(x, Opposite(t), sym)
    case Sym(s) => if t.IsEqual? then Equal(s, sym) else Unequal(s, sym)
    case _ => NotIf(t.IsEqual? != (sym == SymYes), e)
  }

  // ... and for a missing expression
  function TransCompareOpt(e: Option<Expr>, t: Relation, sym: Symbol): Expr
    requires sym == SymYes || sym == SymNo
  {
    match e
    case None => NotIf(t.IsUnequal?, Sym(sym))
    case Some(x) => TransCompare(x, t, sym)
  }

  // expr_contains_symbol
  predicate ContainsSymbol(e: Expr, sym: Symbol) {
    match e
    case Bin(_, a, b) => ContainsSymbol(a, sym) || ContainsSymbol(b, sym)
    case Sym(s) => s == sym
    case Equal(l, r) => l == sym || r == sym
    case Unequal(l, r) => l == sym || r == sym
    case Not(x) => ContainsSymbol(x, sym)
  }

  // expr_depends_symbol
  predicate DependsSymbol(e: Expr, sym: Symbol) {
    match e
    case Bin(op, a, b) => op.AndOp? && (DependsSymbol(a, sym) || DependsSymbol(b, sym))
    case Sym(s) => s == sym
    case Equal(l, r) => l == sym && (r == SymYes || r == SymMod)
    case Unequal(l, r) => l == sym && r == SymNo
    case Not(_) => false
  }

  /** expr_trans_compare says what it should where no condition is m. */
  lemma {:induction false} TransCompareMeaning(e: Expr, t: Relation, sym: Symbol, v: Valuation)
    requires sym == SymYes || sym == SymNo
    requires WellTyped(v) && TwoValued(e, v) && Conditional(e)
    ensures Eval(TransCompare(e, t, sym), v) == Truth(t.IsEqual? == (Eval(e, v) == TriOf(v, sym)))
    ensures TwoValued(TransCompare(e, t, sym), v)
  {
    YmnDistinct();
    match e
    case Bin(_, a, b) =>
      hide WellTyped, TextOf;
      TransCompareMeaning(a, IsEqual, sym, v);
      TransCompareMeaning(b, IsEqual, sym, v);
      TwoValuedEval(a, v);
      TwoValuedEval(b, v);
    case Not(x) =>
      hide WellTyped, TextOf;
      TransCompareMeaning(x, Opposite(t), sym, v);
      TwoValuedEval(x, v);
    case Sym(s) => CompareSymbol(s, t, sym, v);
    case _ =>
  }

  lemma CompareSymbol(s: Symbol, t: Relation, sym: Symbol, v: Valuation)
    requires sym == SymYes || sym == SymNo
    requires WellTyped(v) && TwoValued(Sym(s), v) && Conditional(Sym(s))
    ensures Eval(TransCompare(Sym(s), t, sym), v) == Truth(t.IsEqual? == (TriOf(v, s) == TriOf(v, sym)))
  {
    YmnDistinct();
    if !IsYmn(s) {
      TriTextFaithful(s, v);
    }
  }

  /** With an m the flip under negation is wrong: !s is m, hence not n, but "!s != n" is rewritten to "s = n". */
  lemma TransCompareNeedsTwoValued(s: Symbol, v: Valuation)
    requires s.IsTristate() && v.tri(s) == MOD && v.modules == YES
    ensures Eval(Not(Sym(s)), v) != NO
    ensures Eval(TransCompare(Not(Sym(s)), IsUnequal, SymNo), v) == NO
  {
    YmnDistinct();
    assert TransCompare(Not(Sym(s)), IsUnequal, SymNo) == TransCompare(Sym(s), IsEqual, SymNo) == Equal(s, SymNo);
  }

  /** A condition that depends on a symbol holds only where the symbol is set. */
  lemma {:induction false} DependsSymbolForces(e: Expr, sym: Symbol, v: Valuation)
    requires WellTyped(v) && (sym.IsBoolean() || sym.IsTristate())
    requires DependsSymbol(e, sym) && Eval(e, v) != NO
    ensures TriOf(v, sym) != NO
  {
    YmnDistinct();
    TriTextFaithful(sym, v);
    if e.Bin? {
      if DependsSymbol(e.a, sym) {
        DependsSymbolForces(e.a, sym, v);
      } else {
        DependsSymbolForces(e.b, sym, v);
      }
    }
  }

  lemma {:induction false} CancelThenCompare(op: Op, e1: Expr, e2: Expr, p: Pair, v: Valuation)
    requires p == CancelCommon(op, e1, e2) && Eval(p.e1, v) <= Eval(p.e2, v)
    ensures Eval(e1, v) <= Eval(e2, v)
  {
    var c := CancelCommonFactor(op, e1, e2, v);
  }

  /** If expr_eliminate_eq reduces the second expression to y, the first implies it: under every
      valuation its value is at most that of the second. */
  lemma {:induction false} EliminateEqImplies(e1: Expr, e2: Expr, v: Valuation)
    requires EliminateEq(e1, e2).e2 == ExprYes
    ensures Eval(e1, v) <= Eval(e2, v)
  {
    YmnDistinct();
    var p := if e1.Bin? then CancelCommon(e1.op, e1, e2) else Pair(e1, e2);
    var q := if p.e2.Bin? && !IsOp(p.e2.op, p.e1) then CancelCommon(p.e2.op, p.e1, p.e2) else p;
    EliminateYnMeaning(q.e2, v);
    assert Eval(q.e2, v) == YES;
    if p.e2.Bin? && !IsOp(p.e2.op, p.e1) {
      CancelThenCompare(p.e2.op, p.e1, p.e2, q, v);
    }
    if e1.Bin? {
      CancelThenCompare(e1.op, e1, e2, p, v);
    }
  }

  // The condition of an entry, brought to the form in which conditions are compared.
  function Comparable(dep: Option<Expr>): Expr {
    EliminateDups(Transform(TransCompareOpt(dep, IsUnequal, SymNo)))
  }

  /** Does an entry with condition `dep` join the submenu of a symbol whose prompt has condition `prompt`? */
  predicate JoinsSubmenu(sym: Symbol, prompt: Option<Expr>, dep: Option<Expr>) {
    dep.Some? && ContainsSymbol(dep.value, sym)
    && (DependsSymbol(dep.value, sym) || EliminateEq(Comparable(dep), Comparable(prompt)).e2 == ExprYes)
  }

  ghost predicate PlainCondition(e: Option<Expr>, v: Valuation) {
    e.Some? ==> Conditional(e.value) && TwoValued(e.value, v)
  }

  lemma TransCompareOptMeaning(e: Option<Expr>, v: Valuation)
    requires WellTyped(v) && PlainCondition(e, v)
    ensures var x := TransCompareOpt(e, IsUnequal, SymNo); TwoValued(x, v) && Eval(x, v) == Truth(EvalCond(e, v) != NO)
  {
    YmnDistinct();
    assert TriOf(v, SymNo) == NO;
    if e.Some? {
      hide TransCompare, Eval, TwoValued;
      TransCompareMeaning(e.value, IsUnequal, SymNo, v);
    } else {
      assert Eval(Sym(SymNo), v) == NO && TwoValued(Sym(SymNo), v);
    }
  }

  lemma ComparableMeaning(e: Option<Expr>, v: Valuation)
    requires WellTyped(v) && PlainCondition(e, v)
    ensures Eval(Comparable(e), v) == Truth(EvalCond(e, v) != NO)
  {
    hide TransCompareOpt, Eval, TwoValued, Transform, EliminateDups;
    var x := TransCompareOpt(e, IsUnequal, SymNo);
    TransCompareOptMeaning(e, v);
    TransformMeaning(x, v);
    TransformTwoValued(x, v);
    EliminateDupsMeaning(Transform(x), v);
  }

  /** Soundness of automatic submenus: where the entry's condition holds, the parent symbol is set or
      the parent's own prompt condition holds. */
  lemma SubmenuSound(sym: Symbol, prompt: Option<Expr>, dep: Option<Expr>, v: Valuation)
    requires WellTyped(v) && (sym.IsBoolean() || sym.IsTristate())
    requires PlainCondition(prompt, v) && PlainCondition(dep, v)
    requires JoinsSubmenu(sym, prompt, dep) && EvalCond(dep, v) != NO
    ensures TriOf(v, sym) != NO || EvalCond(prompt, v) != NO
  {
    if DependsSymbol(dep.value, sym) {
      DependsSymbolForces(dep.value, sym, v);
    } else {
      EliminateEqImplies(Comparable(dep), Comparable(prompt), v);
      ComparableMeaning(dep, v);
      ComparableMeaning(prompt, v);
    }
  }

  // ----- completeness -----

  lemma {:induction false} ContainsExact(e: Expr, sym: Symbol)
    ensures ContainsSymbol(e, sym) <==> sym in Semantics.Syms(e)
  {
    match e
    case Bin(_, a, b) =>
      ContainsExact(a, sym);
      ContainsExact(b, sym);
    case Not(x) => ContainsExact(x, sym);
    case _ =>
  }

  // The operand says that the symbol is set.
  predicate SaysSet(x: Expr, sym: Symbol) {
    x == Sym(sym) || x == Equal(sym, SymYes) || x == Equal(sym, SymMod) || x == Unequal(sym, SymNo)
  }

  /** One of the operands of the conjunction `e` says that the symbol is set. */
  ghost predicate HasConjunct(e: Expr, sym: Symbol) {
    exists p: Slot :: IsSlot(AndOp, e, p) && SaysSet(Get(AndOp, e, p), sym)
  }

  lemma {:induction false} ConjunctFound(e: Expr, sym: Symbol, p: Slot)
    requires IsSlot(AndOp, e, p) && SaysSet(Get(AndOp, e, p), sym)
    ensures DependsSymbol(e, sym) && ContainsSymbol(e, sym)
  {
    if p != [] {
      ConjunctFound(Child(e, p[0]), sym, p[1..]);
    }
  }

  lemma {:induction false} ConjunctOf(e: Expr, sym: Symbol) returns (p: Slot)
    requires DependsSymbol(e, sym)
    ensures IsSlot(AndOp, e, p) && SaysSet(Get(AndOp, e, p), sym)
  {
    p := [];
    if e.Bin? {
      var side := if DependsSymbol(e.a, sym) then Left else Right;
      var q := ConjunctOf(Child(e, side), sym);
      p := [side] + q;
    }
  }

  /** expr_depends_symbol finds a conjunct that says the symbol is set exactly when there is one. */
  lemma DependsExact(e: Expr, sym: Symbol)
    ensures DependsSymbol(e, sym) <==> HasConjunct(e, sym)
  {
    if DependsSymbol(e, sym) {
      var p := ConjunctOf(e, sym);
    }
    if HasConjunct(e, sym) {
      var p :| IsSlot(AndOp, e, p) && SaysSet(Get(AndOp, e, p), sym);
      ConjunctFound(e, sym, p);
    }
  }

  /** Between conjunctions without y and n, expr_eliminate_eq leaves y of the second exactly when every conjunct of it
      is one of the first. */
  lemma EliminateEqExact(e1: Expr, e2: Expr)
    requires YnFree(e1) && YnFree(e2) && !IsOp(OrOp, e1) && !IsOp(OrOp, e2)
    requires IsOp(AndOp, e1) || IsOp(AndOp, e2)
    ensures EliminateEq(e1, e2).e2 == ExprYes <==> Operands(AndOp, e2) <= Operands(AndOp, e1)
  {
    hide CancelCommon, EliminateYn, Operands, Remaining, YnFree, Cancelled;
    YnFreeCancelled(AndOp, e1);
    YnFreeCancelled(AndOp, e2);
    CancelCommonExact(AndOp, e1, e2);
    CancelCommonSpine(AndOp, e1, e2);
    var p := CancelCommon(AndOp, e1, e2);
    CancelledOnce(e1, e2);
    EliminateYnCancelled(AndOp, p.e2);
    EmptyDifference(Operands(AndOp, e2), Operands(AndOp, e1));
  }

  // One round of cancelling is all there is.
  lemma CancelledOnce(e1: Expr, e2: Expr)
    requires !IsOp(OrOp, e1) && !IsOp(OrOp, e2) && (IsOp(AndOp, e1) || IsOp(AndOp, e2))
    ensures EliminateEq(e1, e2).e2 == EliminateYn(CancelCommon(AndOp, e1, e2).e2)
  {
    hide CancelCommon, EliminateYn;
    CancelCommonSpine(AndOp, e1, e2);
    if !e2.Bin? {
      SingleStays(AndOp, e1, e2);
    }
  }

  lemma {:induction false} SingleStays(op: Op, e1: Expr, e2: Expr)
    requires !e2.Bin?
    ensures !CancelCommon(op, e1, e2).e2.Bin?
  {
    hide ExprEq;
    if IsOp(op, e1) {
      SingleStays(op, e1.a, e2);
      SingleStays(op, e1.b, CancelCommon(op, e1.a, e2).e2);
    }
  }

  /** The submenu test passes exactly when the symbol occurs in the condition and either a conjunct says that it is
      set or cancelling leaves y of the prompt's condition. */
  lemma JoinsExact(sym: Symbol, prompt: Option<Expr>, dep: Option<Expr>)
    ensures JoinsSubmenu(sym, prompt, dep) <==>
      && dep.Some? && sym in Semantics.Syms(dep.value)
      && (HasConjunct(dep.value, sym) || EliminateEq(Comparable(dep), Comparable(prompt)).e2 == ExprYes)
    ensures dep.Some? && HasConjunct(dep.value, sym) ==> JoinsSubmenu(sym, prompt, dep)
  {
    hide Comparable, EliminateEq;
    if dep.Some? {
      ContainsExact(dep.value, sym);
      DependsExact(dep.value, sym);
      if HasConjunct(dep.value, sym) {
        var p :| IsSlot(AndOp, dep.value, p) && SaysSet(Get(AndOp, dep.value, p), sym);
        ConjunctFound(dep.value, sym, p);
      }
    }
  }
}
