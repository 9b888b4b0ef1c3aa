/** expr_transform and expr_trans_bool. */
module Normalisation {
  import opened Expr

  predicate IsYmn(s: Symbol) {
    s == SymYes || s == SymMod || s == SymNo
  }

  /** What every rewrite of expr_transform lowers or keeps; negation doubles the weight below it. */
  function Weight(e: Expr): (n: nat)
    ensures n >= 1
  {
    match e
    case Sym(_) => 1
    case Equal(_, _) => 2
    case Unequal(_, _) => 2
    case Not(x) => 2 * Weight(x)
    case Bin(_, a, b) => 1 + Weight(a) + Weight(b)
  }

  // A boolean symbol compared with y, m or n becomes the symbol, its negation or a constant.
  function TransformComparison(e: Expr): (r: Expr)
    requires e.Equal? || e.Unequal?
    ensures Weight(r) <= Weight(e)
  {
    if !e.l.IsBoolean() || !IsYmn(e.r) then e
    else if e.r == SymMod then (if e.Equal? then ExprNo else ExprYes)
    else if e.Equal? == (e.r == SymYes) then Sym(e.l)
    else Not(Sym(e.l))
  }

  function Flip(e: Expr): (r: Expr)
    requires e.Equal? || e.Unequal?
    ensures Weight(r) == 2
  {
    if e.Equal? then Unequal(e.l, e.r) else Equal(e.l, e.r)
  }

  // !(a || b) -> !a && !b, and its dual
  function PushNot(x: Expr): (r: Expr)
    requires x.Bin?
    ensures Weight(r) < Weight(Not(x))
  {
    assert Weight(Not(x.a)) == 2 * Weight(x.a) && Weight(Not(x.b)) == 2 * Weight(x.b);
    Bin(Dual(x.op), Not(x.a), Not(x.b))
  }

  // expr_transform
  function Transform(e: Expr): (r: Expr)
    ensures Weight(r) <= Weight(e)
    decreases Weight(e)
  {
    match e
    case Sym(_) => e
    case Equal(_, _) => TransformComparison(e)
    case Unequal(_, _) => TransformComparison(e)
    case Bin(op, a, b) => Bin(op, Transform(a), Transform(b))
    case Not(x0) =>
      var x := Transform(x0);
      match x
      case Not(y) => Transform(y)
      case Equal(_, _) => Flip(x)
      case Unequal(_, _) => Flip(x)
      case Bin(_, _, _) => Transform(PushNot(x))
      case Sym(s) =>
        if s == SymYes then ExprNo else if s == SymMod then x else if s == SymNo then ExprYes else Not(x)
  }

  /** Negation only at symbols other than y, m and n, and no boolean compared with one of these. */
  predicate Normalised(e: Expr) {
    match e
    case Sym(_) => true
    case Equal(l, r) => !(l.IsBoolean() && IsYmn(r))
    case Unequal(l, r) => !(l.IsBoolean() && IsYmn(r))
    case Not(x) => x.Sym? && !IsYmn(x.s)
    case Bin(_, a, b) => Normalised(a) && Normalised(b)
  }

  /** Every symbol read as a condition is boolean, tristate or one of the constants y, m and n. */
  predicate Conditional(e: Expr) {
    match e
    case Sym(s) => IsYmn(s) || s.IsBoolean() || s.IsTristate()
    case Not(x) => Conditional(x)
    case Bin(_, a, b) => Conditional(a) && Conditional(b)
    case _ => true
  }

  lemma {:induction false} TransformNormalises(e: Expr)
    ensures Normalised(Transform(e))
    decreases Weight(e)
  {
    match e
    case Bin(_, a, b) =>
      TransformNormalises(a);
      TransformNormalises(b);
    case Not(x0) =>
      TransformNormalises(x0);
      var x := Transform(x0);
      if x.Not? {
        TransformNormalises(x.e);
      } else if x.Bin? {
        TransformNormalises(PushNot(x));
      }
    case _ =>
  }

  lemma {:induction false} TransformFixesNormalised(e: Expr)
    requires Normalised(e)
    ensures Transform(e) == e
  {
    if e.Bin? {
      TransformFixesNormalised(e.a);
      TransformFixesNormalised(e.b);
    }
  }

  lemma TransformIdempotent(e: Expr)
    ensures Transform(Transform(e)) == Transform(e)
  {
    TransformNormalises(e);
    TransformFixesNormalised(Transform(e));
  }

  lemma ComparisonMeaning(e: Expr, v: Valuation)
    requires WellTyped(v) && (e.Equal? || e.Unequal?)
    ensures Eval(TransformComparison(e), v) == Eval(e, v)
  {
    if e.l.IsBoolean() && IsYmn(e.r) {
      assert TextOf(v, e.r) == e.r.name;
      assert TextOf(v, e.l) == TriText(v.tri(e.l), v.modules);
    }
  }

  lemma FlipMeaning(e: Expr, v: Valuation)
    requires e.Equal? || e.Unequal?
    ensures Eval(Flip(e), v) == Negate(Eval(e, v))
  {
  }

  lemma PushNotMeaning(x: Expr, v: Valuation)
    requires x.Bin?
    ensures Eval(PushNot(x), v) == Negate(Eval(x, v))
  {
  }

  /** The three-valued meaning survives under every well-typed valuation. */
  lemma {:induction false} TransformMeaning(e: Expr, v: Valuation)
    requires WellTyped(v)
    ensures Eval(Transform(e), v) == Eval(e, v)
    decreases Weight(e)
  {
    match e
    case Sym(_) =>
    case Bin(_, a, b) =>
      hide WellTyped, Apply;
      TransformMeaning(a, v);
      TransformMeaning(b, v);
    case Not(x0) =>
      hide WellTyped, Apply, TransformComparison, Flip, PushNot;
      TransformMeaning(x0, v);
      var x := Transform(x0);
      if x.Not? {
        TransformMeaning(x.e, v);
      } else if x.Bin? {
        TransformMeaning(PushNot(x), v);
        PushNotMeaning(x, v);
      } else if !x.Sym? {
        FlipMeaning(x, v);
      }
    case _ => ComparisonMeaning(e, v);
  }

  lemma {:induction false} TransformTwoValued(e: Expr, v: Valuation)
    requires WellTyped(v) && TwoValued(e, v)
    ensures TwoValued(Transform(e), v)
    decreases Weight(e)
  {
    match e
    case Bin(_, a, b) =>
      TransformTwoValued(a, v);
      TransformTwoValued(b, v);
    case Not(x0) =>
      TransformTwoValued(x0, v);
      var x := Transform(x0);
      if x.Not? {
        TransformTwoValued(x.e, v);
      } else if x.Bin? {
        TransformTwoValued(PushNot(x), v);
      }
    case _ =>
  }

  lemma {:induction false} TransformConditional(e: Expr)
    requires Conditional(e)
    ensures Conditional(Transform(e))
    decreases Weight(e)
  {
    match e
    case Bin(_, a, b) =>
      TransformConditional(a);
      TransformConditional(b);
    case Not(x0) =>
      TransformConditional(x0);
      var x := Transform(x0);
      if x.Not? {
        TransformConditional(x.e);
      } else if x.Bin? {
        TransformConditional(PushNot(x));
      }
    case _ =>
  }

  // expr_trans_bool: FOO!=n becomes FOO for a tristate FOO.
  function TransBool(e: Expr): Expr {
    match e
    case Bin(op, a, b) => Bin(op, TransBool(a), TransBool(b))
    case Not(x) => Not(TransBool(x))
    case Unequal(l, r) => if l.IsTristate() && r == SymNo then Sym(l) else e
    case _ => e
  }

  /** On normalised input the rewritten condition is n exactly where the original is. */
  lemma {:induction false} TransBoolKeepsNonNo(e: Expr, v: Valuation)
    requires WellTyped(v) && Normalised(e)
    ensures Eval(TransBool(e), v) == NO <==> Eval(e, v) == NO
  {
    match e
    case Bin(_, a, b) =>
      TransBoolKeepsNonNo(a, v);
      TransBoolKeepsNonNo(b, v);
    case _ =>
  }

  // FOO!=n for a tristate FOO occurs nowhere.
  predicate NoneUnequalNo(e: Expr) {
    match e
    case Bin(_, a, b) => NoneUnequalNo(a) && NoneUnequalNo(b)
    case Not(x) => NoneUnequalNo(x)
    case Unequal(l, r) => !l.IsTristate() || r != SymNo
    case _ => true
  }

  /** Every FOO!=n is rewritten, and an expression without any is left as it is. */
  lemma {:induction false} TransBoolComplete(e: Expr)
    ensures NoneUnequalNo(TransBool(e))
    ensures NoneUnequalNo(e) ==> TransBool(e) == e
  {
    match e
    case Bin(_, a, b) =>
      TransBoolComplete(a);
      TransBoolComplete(b);
    case Not(x) => TransBoolComplete(x);
    case _ =>
  }

  // No symbol of the configuration is m.
  ghost predicate Boolean(v: Valuation) {
    forall s: Symbol :: s.Config? ==> v.tri(s) != MOD
  }

  /** What expr_trans_bool keeps; its result is again fit to be handed down. */
  lemma {:induction false} TransBoolKeeps(e: Expr)
    ensures Normalised(e) ==> Normalised(TransBool(e))
    ensures Conditional(e) ==> Conditional(TransBool(e))
    ensures forall v :: Boolean(v) && TwoValued(e, v) ==> TwoValued(TransBool(e), v)
  {
    match e
    case Not(x) => TransBoolKeeps(x);
    case Bin(_, a, b) =>
      TransBoolKeeps(a);
      TransBoolKeeps(b);
    case _ =>
  }

  function Promote(t: Tristate): Tristate {
    if t == MOD then YES else t
  }

  // sym_calc_visibility for a symbol that is not tristate: the maximum over the prompts, m raised to y.
  ghost function NonTristateVisibility(prompts: seq<Expr>, v: Valuation): Tristate {
    Promote(MaxValue(prompts, v))
  }

  ghost function MaxValue(es: seq<Expr>, v: Valuation): Tristate {
    if es == [] then NO else Apply(OrOp, MaxValue(es[..|es| - 1], v), Eval(es[|es| - 1], v))
  }

  ghost function TransBoolAll(es: seq<Expr>): (rs: seq<Expr>)
    ensures |rs| == |es|
  {
    if es == [] then [] else TransBoolAll(es[..|es| - 1]) + [TransBool(es[|es| - 1])]
  }

  lemma {:induction false} TransBoolKeepsVisibility(prompts: seq<Expr>, v: Valuation)
    requires WellTyped(v) && forall e :: e in prompts ==> Normalised(e)
    ensures MaxValue(TransBoolAll(prompts), v) == NO <==> MaxValue(prompts, v) == NO
    ensures NonTristateVisibility(TransBoolAll(prompts), v) == NonTristateVisibility(prompts, v)
  {
    if prompts != [] {
      var n := |prompts| - 1;
      TransBoolKeepsVisibility(prompts[..n], v);
      TransBoolKeepsNonNo(prompts[n], v);
      assert TransBoolAll(prompts)[..n] == TransBoolAll(prompts[..n]);
    }
  }

  /** Outside negation normal form the rewrite does change which conditions hold. */
  lemma TransBoolNeedsNormalised(s: Symbol, v: Valuation)
    requires s.IsTristate() && v.modules == YES && v.tri(s) == MOD
    ensures Eval(Not(Unequal(s, SymNo)), v) == NO
    ensures Eval(TransBool(Not(Unequal(s, SymNo))), v) == MOD
  {
    var e := Unequal(s, SymNo);
    assert TextOf(v, s) == "m" && TextOf(v, SymNo) == "n";
    assert "m"[0] != "n"[0];
    assert TransBool(Not(e)) == Not(Sym(s));
  }
}
