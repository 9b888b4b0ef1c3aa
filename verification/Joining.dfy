/** expr_join_or and expr_join_and: two operands of one group merged into one. */
module Joining {
  import opened Wrappers
  import opened Expr
  import opened Equality
  import Normalisation

  // The symbol a first operand is about, and that of a second operand (where only !SYMBOL may be negated).
  function FirstSymbol(e: Expr): Option<Symbol> {
    match e
    case Sym(s) => Some(s)
    case Equal(l, _) => Some(l)
    case Unequal(l, _) => Some(l)
    case Not(x) => if x.Sym? then Some(x.s) else if x.Equal? || x.Unequal? then Some(x.l) else None
    case Bin(_, _, _) => None
  }

  function SecondSymbol(e: Expr): Option<Symbol> {
    if e.Not? && !e.e.Sym? then None else FirstSymbol(e)
  }

  function CommonSymbol(e1: Expr, e2: Expr): Option<Symbol> {
    var s1, s2 := FirstSymbol(e1), SecondSymbol(e2);
    if s1.Some? && s1 == s2 && (s1.value.IsBoolean() || s1.value.IsTristate()) then s1 else None
  }

  predicate BothCompare(e1: Expr, e2: Expr, s: Symbol, t: Symbol)
    requires (e1.Equal? && e2.Equal?) || (e1.Unequal? && e2.Unequal?)
  {
    (e1.r == s && e2.r == t) || (e1.r == t && e2.r == s)
  }

  // expr_join_or
  function JoinOr(e1: Expr, e2: Expr): Option<Expr> {
    if ExprEq(e1, e2) then Some(e1) else
    match CommonSymbol(e1, e2)
    case None => None
    case Some(s) =>
      if s.IsTristate() && e1.Equal? && e2.Equal? && BothCompare(e1, e2, SymYes, SymMod) then Some(Unequal(s, SymNo))
      else if s.IsTristate() && e1.Equal? && e2.Equal? && BothCompare(e1, e2, SymYes, SymNo)
        then Some(Unequal(s, SymMod))
      else if s.IsTristate() && e1.Equal? && e2.Equal? && BothCompare(e1, e2, SymMod, SymNo)
        then Some(Unequal(s, SymYes))
      else if s.IsBoolean() && ((e1 == Not(Sym(s)) && e2 == Sym(s)) || (e2 == Not(Sym(s)) && e1 == Sym(s)))
        then Some(ExprYes)
      else None
  }

  // (a='b') && (a!='c') for constants b and c
  function JoinEqualUnequal(s: Symbol, b: Symbol, c: Symbol): Option<Expr> {
    if !b.Const? || !c.Const? then None else if b != c then Some(Equal(s, b)) else Some(ExprNo)
  }

  // expr_join_and
  function JoinAnd(e1: Expr, e2: Expr): Option<Expr> {
    if ExprEq(e1, e2) then Some(e1) else
    match CommonSymbol(e1, e2)
    case None => None
    case Some(s) =>
      if (e1.Sym? && e2 == Equal(s, SymYes)) || (e2.Sym? && e1 == Equal(s, SymYes)) then Some(Equal(s, SymYes))
      else if (e1.Sym? && e2 == Unequal(s, SymNo)) || (e2.Sym? && e1 == Unequal(s, SymNo)) then Some(Sym(s))
      else if (e1.Sym? && e2 == Unequal(s, SymMod)) || (e2.Sym? && e1 == Unequal(s, SymMod)) then Some(Equal(s, SymYes))
      else if !s.IsTristate() then None
      else if e1.Equal? && e2.Unequal? then JoinEqualUnequal(s, e1.r, e2.r)
      else if e1.Unequal? && e2.Equal? then JoinEqualUnequal(s, e2.r, e1.r)
      else if e1.Unequal? && e2.Unequal? && BothCompare(e1, e2, SymYes, SymNo) then Some(Equal(s, SymMod))
      else if e1.Unequal? && e2.Unequal? && BothCompare(e1, e2, SymYes, SymMod) then Some(Equal(s, SymNo))
      else if e1.Unequal? && e2.Unequal? && BothCompare(e1, e2, SymMod, SymNo) then Some(Equal(s, SymYes))
      else None
  }

  function Join(op: Op, e1: Expr, e2: Expr): Option<Expr> {
    if op.AndOp? then JoinAnd(e1, e2) else JoinOr(e1, e2)
  }

  lemma YmnDistinct()
    ensures "y" != "m" && "m" != "n" && "y" != "n"
    ensures SymYes != SymMod && SymMod != SymNo && SymYes != SymNo
  {
    assert "y"[0] != "m"[0] && "m"[0] != "n"[0] && "y"[0] != "n"[0];
  }

  // A boolean or tristate symbol reads as one of n, m and y; its text tells its value.
  lemma TriTextFaithful(s: Symbol, v: Valuation)
    requires WellTyped(v) && (s.IsBoolean() || s.IsTristate())
    ensures TextOf(v, s) == "y" <==> v.tri(s) == YES
    ensures TextOf(v, s) == "m" <==> v.tri(s) == MOD
    ensures TextOf(v, s) == "n" <==> v.tri(s) == NO
  {
    YmnDistinct();
  }

  lemma {:induction false} JoinOrMeaning(e1: Expr, e2: Expr, v: Valuation)
    requires WellTyped(v) && JoinOr(e1, e2).Some?
    ensures Eval(JoinOr(e1, e2).value, v) == Apply(OrOp, Eval(e1, v), Eval(e2, v))
  {
    if ExprEq(e1, e2) {
      ExprEqSound(e1, e2, v);
    } else {
      YmnDistinct();
      TriTextFaithful(CommonSymbol(e1, e2).value, v);
    }
  }

  lemma {:induction false} JoinAndMeaning(e1: Expr, e2: Expr, v: Valuation)
    requires WellTyped(v) && JoinAnd(e1, e2).Some?
    ensures Eval(JoinAnd(e1, e2).value, v) == Apply(AndOp, Eval(e1, v), Eval(e2, v))
  {
    if ExprEq(e1, e2) {
      ExprEqSound(e1, e2, v);
    } else {
      YmnDistinct();
      TriTextFaithful(CommonSymbol(e1, e2).value, v);
    }
  }

  /** A join is exact in three values under every well-typed valuation. */
  lemma JoinMeaning(op: Op, e1: Expr, e2: Expr, v: Valuation)
    requires WellTyped(v) && Join(op, e1, e2).Some?
    ensures Eval(Join(op, e1, e2).value, v) == Apply(op, Eval(e1, v), Eval(e2, v))
  {
    if op.AndOp? {
      JoinAndMeaning(e1, e2, v);
    } else {
      JoinOrMeaning(e1, e2, v);
    }
  }

  // The result is an operand again, no larger than what it replaces, and keeps two-valued and
  // normalised operands so.
  lemma JoinShape(op: Op, e1: Expr, e2: Expr)
    requires Join(op, e1, e2).Some?
    ensures var j := Join(op, e1, e2).value; 1 + Size(j) <= Size(e1) + Size(e2) && (j == e1 || !j.Bin?)
    ensures Normalisation.Normalised(e1) && Normalisation.Normalised(e2)
      ==> Normalisation.Normalised(Join(op, e1, e2).value)
  {
    YmnDistinct();
  }

  lemma JoinConditional(op: Op, e1: Expr, e2: Expr)
    requires Join(op, e1, e2).Some? && Normalisation.Conditional(e1) && Normalisation.Conditional(e2)
    ensures Normalisation.Conditional(Join(op, e1, e2).value)
  {
  }

  lemma JoinTwoValued(op: Op, e1: Expr, e2: Expr, v: Valuation)
    requires Join(op, e1, e2).Some? && TwoValued(e1, v) && TwoValued(e2, v)
    ensures TwoValued(Join(op, e1, e2).value, v)
  {
    YmnDistinct();
  }
}
