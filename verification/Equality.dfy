/** expr_eq and the common-factor elimination it is mutually recursive with. */
module Equality {
  import opened Expr

  datatype Pair = Pair(e1: Expr, e2: Expr)

  // expr_eq
  predicate ExprEq(e1: Expr, e2: Expr)
    decreases Size(e1) + Size(e2), 2
  {
    if e1.Not? && e2.Not? then ExprEq(e1.e, e2.e)
    else if e1.Bin? && e2.Bin? && e1.op == e2.op then
      var p := EliminateEq(e1, e2);
      p.e1.Sym? && p.e2.Sym? && p.e1.s == p.e2.s
    else !e1.Bin? && !e1.Not? && e1 == e2
  }

  // __expr_eliminate_eq; the two slots belong to different trees.
  function CancelCommon(op: Op, e1: Expr, e2: Expr): (p: Pair)
    ensures Size(p.e1) <= Size(e1) && Size(p.e2) <= Size(e2)
    decreases Size(e1) + Size(e2), if IsOp(op, e1) || IsOp(op, e2) then 0 else 3
  {
    if IsOp(op, e1) then
      var p := CancelCommon(op, e1.a, e2);
      var q := CancelCommon(op, e1.b, p.e2);
      Pair(Bin(op, p.e1, q.e1), q.e2)
    else if IsOp(op, e2) then
      var p := CancelCommon(op, e1, e2.a);
      var q := CancelCommon(op, p.e1, e2.b);
      Pair(q.e1, Bin(op, p.e2, q.e2))
    else if e1 == e2 && IsYn(e1) then Pair(e1, e2)
    else if !ExprEq(e1, e2) then Pair(e1, e2)
    else Pair(Unit(op), Unit(op))
  }

  // expr_eliminate_eq on two expressions that are present
  function EliminateEq(e1: Expr, e2: Expr): (p: Pair)
    decreases Size(e1) + Size(e2), 1
  {
    var p := if e1.Bin? then CancelCommon(e1.op, e1, e2) else Pair(e1, e2);
    var q := if p.e2.Bin? && !IsOp(p.e2.op, p.e1) then CancelCommon(p.e2.op, p.e1, p.e2) else p;
    Pair(EliminateYn(q.e1), EliminateYn(q.e2))
  }

  // ----- soundness: an answer of true means equal values under every valuation -----

  /** `p` is `e1`, `e2` with a common factor `c` taken out. */
  ghost predicate Factors(op: Op, c: Tristate, e1: Expr, e2: Expr, p: Pair, v: Valuation) {
    && Eval(e1, v) == Apply(op, c, Eval(p.e1, v))
    && Eval(e2, v) == Apply(op, c, Eval(p.e2, v))
  }

  // Taking a factor out of both operands in turn takes their combination out of the group.
  lemma ApplyRegroup(op: Op, c1: Tristate, c2: Tristate, x: Tristate, y: Tristate)
    ensures Apply(op, Apply(op, c1, x), Apply(op, c2, y)) == Apply(op, Apply(op, c1, c2), Apply(op, x, y))
    ensures Apply(op, c1, Apply(op, c2, x)) == Apply(op, Apply(op, c1, c2), x)
  {
  }

  lemma {:induction false} CancelCommonFactor(op: Op, e1: Expr, e2: Expr, v: Valuation) returns (c: Tristate)
    ensures Factors(op, c, e1, e2, CancelCommon(op, e1, e2), v)
    decreases Size(e1) + Size(e2), if IsOp(op, e1) || IsOp(op, e2) then 0 else 3
  {
    hide Factors, ExprEq;
    if IsOp(op, e1) {
      var p := CancelCommon(op, e1.a, e2);
      var c1 := CancelCommonFactor(op, e1.a, e2, v);
      var q := CancelCommon(op, e1.b, p.e2);
      var c2 := CancelCommonFactor(op, e1.b, p.e2, v);
      c := Apply(op, c1, c2);
      FactorsLeft(op, c1, c2, e1, e2, p, q, v);
      assert CancelCommon(op, e1, e2) == Pair(Bin(op, p.e1, q.e1), q.e2);
    } else if IsOp(op, e2) {
      var p := CancelCommon(op, e1, e2.a);
      var c1 := CancelCommonFactor(op, e1, e2.a, v);
      var q := CancelCommon(op, p.e1, e2.b);
      var c2 := CancelCommonFactor(op, p.e1, e2.b, v);
      c := Apply(op, c1, c2);
      FactorsRight(op, c1, c2, e1, e2, p, q, v);
      assert CancelCommon(op, e1, e2) == Pair(q.e1, Bin(op, p.e2, q.e2));
    } else {
      var same := !(e1 == e2 && IsYn(e1)) && ExprEq(e1, e2);
      if same {
        ExprEqSound(e1, e2, v);
      }
      c := if same then Eval(e1, v) else Eval(Unit(op), v);
      FactorsOperands(op, e1, e2, same, v);
    }
  }

  lemma FactorsLeft(op: Op, c1: Tristate, c2: Tristate, e1: Expr, e2: Expr, p: Pair, q: Pair, v: Valuation)
    requires IsOp(op, e1) && Factors(op, c1, e1.a, e2, p, v) && Factors(op, c2, e1.b, p.e2, q, v)
    ensures Factors(op, Apply(op, c1, c2), e1, e2, Pair(Bin(op, p.e1, q.e1), q.e2), v)
  {
    ApplyRegroup(op, c1, c2, Eval(p.e1, v), Eval(q.e1, v));
    ApplyRegroup(op, c1, c2, Eval(q.e2, v), NO);
  }

  lemma FactorsRight(op: Op, c1: Tristate, c2: Tristate, e1: Expr, e2: Expr, p: Pair, q: Pair, v: Valuation)
    requires IsOp(op, e2) && Factors(op, c1, e1, e2.a, p, v) && Factors(op, c2, p.e1, e2.b, q, v)
    ensures Factors(op, Apply(op, c1, c2), e1, e2, Pair(q.e1, Bin(op, p.e2, q.e2)), v)
  {
    ApplyRegroup(op, c1, c2, Eval(p.e2, v), Eval(q.e2, v));
    ApplyRegroup(op, c1, c2, Eval(q.e1, v), NO);
  }

  lemma FactorsOperands(op: Op, e1: Expr, e2: Expr, same: bool, v: Valuation)
    requires same ==> Eval(e1, v) == Eval(e2, v)
    ensures Factors(op, if same then Eval(e1, v) else Eval(Unit(op), v), e1, e2,
              if same then Pair(Unit(op), Unit(op)) else Pair(e1, e2), v)
  {
    UnitFactor(op, Eval(e1, v), v);
    UnitFactor(op, Eval(e2, v), v);
  }

  lemma {:induction false} ExprEqSound(e1: Expr, e2: Expr, v: Valuation)
    requires ExprEq(e1, e2)
    ensures Eval(e1, v) == Eval(e2, v)
    decreases Size(e1) + Size(e2), 2
  {
    if e1.Not? && e2.Not? {
      ExprEqSound(e1.e, e2.e, v);
    } else if e1.Bin? && e2.Bin? && e1.op == e2.op {
      var p := CancelCommon(e1.op, e1, e2);
      CancelCommonSpine(e1.op, e1, e2);
      var c := CancelCommonFactor(e1.op, e1, e2, v);
      EliminateYnMeaning(p.e1, v);
      EliminateYnMeaning(p.e2, v);
    }
  }

  // A root that is an `op` node stays one.
  lemma {:induction false} CancelCommonSpine(op: Op, e1: Expr, e2: Expr)
    ensures IsOp(op, e1) ==> IsOp(op, CancelCommon(op, e1, e2).e1)
    ensures IsOp(op, e2) ==> IsOp(op, CancelCommon(op, e1, e2).e2)
    decreases Size(e1) + Size(e2)
  {
    if IsOp(op, e1) {
      CancelCommonSpine(op, e1.a, e2);
      CancelCommonSpine(op, e1.b, CancelCommon(op, e1.a, e2).e2);
    }
  }

  // ----- what it decides: equality up to associativity and commutativity -----

  // Derivations in the equational theory of associativity and commutativity.
  datatype Proof =
    | Refl
    | Symm(p: Proof)
    | Trans(mid: Expr, p: Proof, q: Proof)
    | UnderNot(p: Proof)
    | UnderBin(p: Proof, q: Proof)
    | Comm
    | Assoc

  ghost predicate Derives(p: Proof, x: Expr, y: Expr)
    decreases p
  {
    match p
    case Refl => x == y
    case Symm(q) => Derives(q, y, x)
    case Trans(mid, q, r) => Derives(q, x, mid) && Derives(r, mid, y)
    case UnderNot(q) => x.Not? && y.Not? && Derives(q, x.e, y.e)
    case UnderBin(q, r) => x.Bin? && y.Bin? && x.op == y.op && Derives(q, x.a, y.a) && Derives(r, x.b, y.b)
    case Comm => x.Bin? && y == Bin(x.op, x.b, x.a)
    case Assoc => x.Bin? && IsOp(x.op, x.a) && y == Bin(x.op, x.a.a, Bin(x.op, x.a.b, x.b))
  }

  ghost predicate AcEqual(x: Expr, y: Expr) {
    exists p :: Derives(p, x, y)
  }

  // Normal forms: the operands of a maximal && or || group as a multiset.
  datatype Norm = NLeaf(e: Expr) | NNot(n: Norm) | NBin(op: Op, ms: multiset<Norm>)

  ghost function Normal(e: Expr): Norm
    decreases e, 0
  {
    match e
    case Not(x) => NNot(Normal(x))
    case Bin(op, a, b) => NBin(op, Operands(op, a) + Operands(op, b))
    case _ => NLeaf(e)
  }

  ghost function Operands(op: Op, e: Expr): multiset<Norm>
    decreases e, 1
  {
    if IsOp(op, e) then Operands(op, e.a) + Operands(op, e.b) else multiset{Normal(e)}
  }

  predicate YnFree(e: Expr) {
    match e
    case Sym(_) => !IsYn(e)
    case Not(x) => YnFree(x)
    case Bin(_, a, b) => YnFree(a) && YnFree(b)
    case _ => true
  }

  // Every operand of the `op` group at `e` is free of y and n, or is the unit put there by cancelling.
  ghost predicate Cancelled(op: Op, e: Expr) {
    if IsOp(op, e) then Cancelled(op, e.a) && Cancelled(op, e.b) else e == Unit(op) || YnFree(e)
  }

  // The operands that are left.
  ghost function Remaining(op: Op, e: Expr): multiset<Norm> {
    if IsOp(op, e) then Remaining(op, e.a) + Remaining(op, e.b)
    else if e == Unit(op) then multiset{}
    else multiset{Normal(e)}
  }

  lemma {:induction false} YnFreeCancelled(op: Op, e: Expr)
    requires YnFree(e)
    ensures Cancelled(op, e) && Remaining(op, e) == Operands(op, e)
  {
    if IsOp(op, e) {
      YnFreeCancelled(op, e.a);
      YnFreeCancelled(op, e.b);
    }
  }

  lemma DifferenceInTurn(l: multiset<Norm>, r: multiset<Norm>, e: multiset<Norm>)
    ensures (l - e) + (r - (e - l)) == (l + r) - e
    ensures (e - l) - r == e - (l + r)
  {
  }

  /** `p` is `e1`, `e2` with the operands they share cancelled, as multisets. */
  ghost predicate Differences(op: Op, e1: Expr, e2: Expr, p: Pair) {
    && Cancelled(op, p.e1) && Cancelled(op, p.e2)
    && Remaining(op, p.e1) == Remaining(op, e1) - Remaining(op, e2)
    && Remaining(op, p.e2) == Remaining(op, e2) - Remaining(op, e1)
  }

  lemma DifferencesLeft(op: Op, e1: Expr, e2: Expr, p: Pair, q: Pair)
    requires IsOp(op, e1) && Differences(op, e1.a, e2, p) && Differences(op, e1.b, p.e2, q)
    ensures Differences(op, e1, e2, Pair(Bin(op, p.e1, q.e1), q.e2))
  {
    DifferenceInTurn(Remaining(op, e1.a), Remaining(op, e1.b), Remaining(op, e2));
  }

  lemma DifferencesRight(op: Op, e1: Expr, e2: Expr, p: Pair, q: Pair)
    requires IsOp(op, e2) && Differences(op, e1, e2.a, p) && Differences(op, p.e1, e2.b, q)
    ensures Differences(op, e1, e2, Pair(q.e1, Bin(op, p.e2, q.e2)))
  {
    DifferenceInTurn(Remaining(op, e2.a), Remaining(op, e2.b), Remaining(op, e1));
  }

  /** First-match cancelling computes the two multiset differences. */
  lemma {:induction false} CancelCommonExact(op: Op, e1: Expr, e2: Expr)
    requires Cancelled(op, e1) && Cancelled(op, e2)
    ensures Differences(op, e1, e2, CancelCommon(op, e1, e2))
    decreases Size(e1) + Size(e2), if IsOp(op, e1) || IsOp(op, e2) then 0 else 4
  {
    if IsOp(op, e1) {
      CancelCommonExact(op, e1.a, e2);
      var p := CancelCommon(op, e1.a, e2);
      assert Cancelled(op, p.e2);
      CancelCommonExact(op, e1.b, p.e2);
      var q := CancelCommon(op, e1.b, p.e2);
      DifferencesLeft(op, e1, e2, p, q);
      assert CancelCommon(op, e1, e2) == Pair(Bin(op, p.e1, q.e1), q.e2);
    } else if IsOp(op, e2) {
      CancelCommonExact(op, e1, e2.a);
      var p := CancelCommon(op, e1, e2.a);
      assert Cancelled(op, p.e1);
      CancelCommonExact(op, p.e1, e2.b);
      var q := CancelCommon(op, p.e1, e2.b);
      DifferencesRight(op, e1, e2, p, q);
      assert CancelCommon(op, e1, e2) == Pair(q.e1, Bin(op, p.e2, q.e2));
    } else {
      if YnFree(e1) && YnFree(e2) {
        ExprEqNormal(e1, e2);
      }
      DifferencesOperands(op, e1, e2, CancelCommon(op, e1, e2), ExprEq(e1, e2));
    }
  }

  lemma {:induction false} DifferencesOperands(op: Op, e1: Expr, e2: Expr, p: Pair, same: bool)
    requires Cancelled(op, e1) && Cancelled(op, e2) && !IsOp(op, e1) && !IsOp(op, e2)
    requires YnFree(e1) && YnFree(e2) ==> (same <==> Normal(e1) == Normal(e2))
    requires same && (IsYn(e1) || IsYn(e2)) ==> e1 == e2
    requires p == if (e1 == e2 && IsYn(e1)) || !same then Pair(e1, e2) else Pair(Unit(op), Unit(op))
    ensures Differences(op, e1, e2, p)
  {
  }

  lemma {:induction false} EliminateYnFree(e: Expr)
    requires YnFree(e)
    ensures EliminateYn(e) == e
  {
    if e.Bin? {
      EliminateYnFree(e.a);
      EliminateYnFree(e.b);
    }
  }

  // Eliminating y and n from a cancelled group drops exactly the units.
  lemma {:induction false} EliminateYnCancelled(op: Op, e: Expr)
    requires Cancelled(op, e)
    ensures EliminateYn(e) == Unit(op) <==> Remaining(op, e) == multiset{}
    ensures EliminateYn(e) != Zero(op)
    ensures Cancelled(op, EliminateYn(e)) && Remaining(op, EliminateYn(e)) == Remaining(op, e)
  {
    if IsOp(op, e) {
      EliminateYnCancelled(op, e.a);
      EliminateYnCancelled(op, e.b);
    } else if e != Unit(op) {
      EliminateYnFree(e);
    }
  }

  lemma {:induction false} ExprEqNormal(e1: Expr, e2: Expr)
    requires YnFree(e1) && YnFree(e2)
    ensures ExprEq(e1, e2) <==> Normal(e1) == Normal(e2)
    decreases Size(e1) + Size(e2), 2
  {
    if e1.Not? && e2.Not? {
      ExprEqNormal(e1.e, e2.e);
    } else if e1.Bin? && e2.Bin? && e1.op == e2.op {
      YnFreeCancelled(e1.op, e1);
      YnFreeCancelled(e1.op, e2);
      CancelCommonExact(e1.op, e1, e2);
      CancelCommonSpine(e1.op, e1, e2);
      var p := CancelCommon(e1.op, e1, e2);
      GroupsEqual(e1.op, e1, e2, p);
    }
  }

  // Two groups cancel to the same symbol exactly when nothing remains of either.
  lemma GroupsEqual(op: Op, e1: Expr, e2: Expr, p: Pair)
    requires Differences(op, e1, e2, p)
    ensures var x, y := EliminateYn(p.e1), EliminateYn(p.e2);
      (x.Sym? && y.Sym? && x.s == y.s) <==> Remaining(op, e1) == Remaining(op, e2)
  {
    hide EliminateYn, Remaining, Cancelled;
    EliminateYnCancelled(op, p.e1);
    EliminateYnCancelled(op, p.e2);
    SameDifference(Remaining(op, e1), Remaining(op, e2));
  }

  lemma SameDifference<T>(m1: multiset<T>, m2: multiset<T>)
    ensures m1 - m2 == m2 - m1 ==> m1 == m2
    ensures m1 == m2 ==> m1 - m2 == multiset{} == m2 - m1
  {
    if m1 - m2 == m2 - m1 {
      forall n ensures m1[n] == m2[n] {
        assert (m1 - m2)[n] == (m2 - m1)[n];
      }
    }
  }

  lemma EmptyDifference<T>(a: multiset<T>, b: multiset<T>)
    ensures a - b == multiset{} <==> a <= b
  {
    if a - b == multiset{} {
      forall x ensures a[x] <= b[x] {
        assert (a - b)[x] == 0;
      }
    }
  }

  // ----- normal forms are equal exactly when a derivation exists -----

  lemma {:induction false} OperandsFromNormal(op: Op, e: Expr)
    ensures Operands(op, e) == if Normal(e).NBin? && Normal(e).op == op then Normal(e).ms else multiset{Normal(e)}
  {
  }

  lemma {:induction false} DerivesNormal(p: Proof, x: Expr, y: Expr)
    requires Derives(p, x, y)
    ensures Normal(x) == Normal(y)
  {
    match p
    case Refl =>
    case Symm(q) => DerivesNormal(q, y, x);
    case Trans(mid, q, r) =>
      DerivesNormal(q, x, mid);
      DerivesNormal(r, mid, y);
    case UnderNot(q) => DerivesNormal(q, x.e, y.e);
    case UnderBin(q, r) =>
      DerivesNormal(q, x.a, y.a);
      DerivesNormal(r, x.b, y.b);
      SameOperands(x.op, x.a, y.a);
      SameOperands(x.op, x.b, y.b);
    case Comm =>
    case Assoc => NormalAssoc(x.op, x.a.a, x.a.b, x.b);
  }

  lemma SameOperands(op: Op, x: Expr, y: Expr)
    requires Normal(x) == Normal(y)
    ensures Operands(op, x) == Operands(op, y)
  {
    OperandsFromNormal(op, x);
    OperandsFromNormal(op, y);
  }

  lemma NormalAssoc(op: Op, x: Expr, y: Expr, z: Expr)
    ensures Normal(Bin(op, Bin(op, x, y), z)) == Normal(Bin(op, x, Bin(op, y, z)))
  {
    UnionAssoc(Operands(op, x), Operands(op, y), Operands(op, z));
  }

  lemma UnionAssoc<T>(a: multiset<T>, b: multiset<T>, c: multiset<T>)
    ensures (a + b) + c == a + (b + c)
  {
  }

  lemma AcRefl(x: Expr)
    ensures AcEqual(x, x)
  {
    assert Derives(Refl, x, x);
  }

  lemma AcSymm(x: Expr, y: Expr)
    requires AcEqual(x, y)
    ensures AcEqual(y, x)
  {
    var p :| Derives(p, x, y);
    assert Derives(Symm(p), y, x);
  }

  lemma AcTrans(x: Expr, y: Expr, z: Expr)
    requires AcEqual(x, y) && AcEqual(y, z)
    ensures AcEqual(x, z)
  {
    var p :| Derives(p, x, y);
    var q :| Derives(q, y, z);
    assert Derives(Trans(y, p, q), x, z);
  }

  lemma AcBin(op: Op, x: Expr, y: Expr, x': Expr, y': Expr)
    requires AcEqual(x, x') && AcEqual(y, y')
    ensures AcEqual(Bin(op, x, y), Bin(op, x', y'))
  {
    var p :| Derives(p, x, x');
    var q :| Derives(q, y, y');
    assert Derives(UnderBin(p, q), Bin(op, x, y), Bin(op, x', y'));
  }

  lemma AcAssoc(op: Op, x: Expr, y: Expr, z: Expr)
    ensures AcEqual(Bin(op, Bin(op, x, y), z), Bin(op, x, Bin(op, y, z)))
  {
    assert Derives(Assoc, Bin(op, Bin(op, x, y), z), Bin(op, x, Bin(op, y, z)));
  }

  // x op (y op z) = y op (x op z)
  lemma AcSwap(op: Op, x: Expr, y: Expr, z: Expr)
    ensures AcEqual(Bin(op, x, Bin(op, y, z)), Bin(op, y, Bin(op, x, z)))
  {
    var l, m1, m2, r := Bin(op, x, Bin(op, y, z)), Bin(op, Bin(op, x, y), z), Bin(op, Bin(op, y, x), z),
      Bin(op, y, Bin(op, x, z));
    AcAssoc(op, x, y, z);
    AcSymm(m1, l);
    assert Derives(Comm, Bin(op, x, y), Bin(op, y, x));
    AcRefl(z);
    AcBin(op, Bin(op, x, y), z, Bin(op, y, x), z);
    AcAssoc(op, y, x, z);
    AcTrans(l, m1, m2);
    AcTrans(l, m2, r);
  }

  // The operands of the `op` group at `e`, left to right, and the right-nested group made of them.
  ghost function OperandList(op: Op, e: Expr): (xs: seq<Expr>)
    ensures |xs| >= 1
  {
    if IsOp(op, e) then OperandList(op, e.a) + OperandList(op, e.b) else [e]
  }

  ghost function Comb(op: Op, xs: seq<Expr>): Expr
    requires |xs| >= 1
  {
    if |xs| == 1 then xs[0] else Bin(op, xs[0], Comb(op, xs[1..]))
  }

  lemma {:induction false} CombConcat(op: Op, xs: seq<Expr>, ys: seq<Expr>)
    requires |xs| >= 1 && |ys| >= 1
    ensures AcEqual(Bin(op, Comb(op, xs), Comb(op, ys)), Comb(op, xs + ys))
  {
    if |xs| == 1 {
      assert (xs + ys)[1..] == ys;
      AcRefl(Comb(op, xs + ys));
    } else {
      var rest := Comb(op, xs[1..]);
      CombConcat(op, xs[1..], ys);
      assert (xs + ys)[1..] == xs[1..] + ys;
      AcAssoc(op, xs[0], rest, Comb(op, ys));
      AcRefl(xs[0]);
      AcBin(op, xs[0], Bin(op, rest, Comb(op, ys)), xs[0], Comb(op, xs[1..] + ys));
      AcTrans(Bin(op, Comb(op, xs), Comb(op, ys)), Bin(op, xs[0], Bin(op, rest, Comb(op, ys))), Comb(op, xs + ys));
    }
  }

  lemma {:induction false} AcComb(op: Op, e: Expr)
    ensures AcEqual(e, Comb(op, OperandList(op, e)))
  {
    if IsOp(op, e) {
      var xs, ys := OperandList(op, e.a), OperandList(op, e.b);
      AcComb(op, e.a);
      AcComb(op, e.b);
      AcBin(op, e.a, e.b, Comb(op, xs), Comb(op, ys));
      CombConcat(op, xs, ys);
      AcTrans(e, Bin(op, Comb(op, xs), Comb(op, ys)), Comb(op, xs + ys));
    } else {
      AcRefl(e);
    }
  }

  ghost function Normals(xs: seq<Expr>): multiset<Norm> {
    if xs == [] then multiset{} else multiset{Normal(xs[0])} + Normals(xs[1..])
  }

  lemma {:induction false} NormalsConcat(xs: seq<Expr>, ys: seq<Expr>)
    ensures Normals(xs + ys) == Normals(xs) + Normals(ys)
  {
    if xs == [] {
      assert xs + ys == ys;
    } else {
      assert (xs + ys)[1..] == xs[1..] + ys;
      NormalsConcat(xs[1..], ys);
    }
  }

  lemma {:induction false} OperandListNormals(op: Op, e: Expr)
    ensures Normals(OperandList(op, e)) == Operands(op, e)
  {
    if IsOp(op, e) {
      OperandListNormals(op, e.a);
      OperandListNormals(op, e.b);
      NormalsConcat(OperandList(op, e.a), OperandList(op, e.b));
    }
  }

  lemma {:induction false} OperandListSmaller(op: Op, e: Expr, x: Expr)
    requires x in OperandList(op, e)
    ensures Size(x) <= Size(e) && (IsOp(op, e) ==> Size(x) < Size(e))
  {
    if IsOp(op, e) {
      if x in OperandList(op, e.a) {
        OperandListSmaller(op, e.a, x);
      } else {
        OperandListSmaller(op, e.b, x);
      }
    }
  }

  lemma {:induction false} FindNormal(ys: seq<Expr>, n: Norm) returns (j: nat)
    requires n in Normals(ys)
    ensures j < |ys| && Normal(ys[j]) == n
  {
    hide Normal;
    if Normal(ys[0]) == n {
      j := 0;
    } else {
      var k := FindNormal(ys[1..], n);
      j := k + 1;
    }
  }

  function Without(ys: seq<Expr>, j: nat): seq<Expr>
    requires j < |ys|
  {
    ys[..j] + ys[j + 1..]
  }

  // An operand can be brought to the front of a group.
  lemma {:induction false} CombFront(op: Op, ys: seq<Expr>, j: nat)
    requires j < |ys| && |ys| >= 2
    ensures AcEqual(Comb(op, ys), Bin(op, ys[j], Comb(op, Without(ys, j))))
  {
    if j == 0 {
      assert Without(ys, 0) == ys[1..];
      AcRefl(Comb(op, ys));
    } else if |ys| == 2 {
      assert Without(ys, 1) == [ys[0]] && ys[1..] == [ys[1]];
      assert Derives(Comm, Comb(op, ys), Bin(op, ys[1], ys[0]));
    } else {
      var tail := ys[1..];
      CombFront(op, tail, j - 1);
      assert Without(ys, j)[1..] == Without(tail, j - 1);
      var rest := Comb(op, Without(tail, j - 1));
      AcRefl(ys[0]);
      AcBin(op, ys[0], Comb(op, tail), ys[0], Bin(op, ys[j], rest));
      AcSwap(op, ys[0], ys[j], rest);
      AcTrans(Comb(op, ys), Bin(op, ys[0], Bin(op, ys[j], rest)), Bin(op, ys[j], Bin(op, ys[0], rest)));
    }
  }

  lemma {:induction false} NormalsFront(ys: seq<Expr>, j: nat)
    requires j < |ys|
    ensures Normals(ys) == multiset{Normal(ys[j])} + Normals(Without(ys, j))
  {
    NormalsConcat(ys[..j], ys[j..]);
    NormalsConcat(ys[..j], ys[j + 1..]);
    assert ys == ys[..j] + ys[j..] && ys[j..][1..] == ys[j + 1..];
  }

  lemma {:induction false} NormalsSize(xs: seq<Expr>)
    ensures |Normals(xs)| == |xs|
  {
    if xs != [] {
      NormalsSize(xs[1..]);
    }
  }

  lemma {:induction false} CombPermuted(op: Op, xs: seq<Expr>, ys: seq<Expr>, bound: nat)
    requires |xs| >= 1 && |ys| >= 1 && Normals(xs) == Normals(ys)
    requires forall x :: x in xs ==> Size(x) < bound
    ensures AcEqual(Comb(op, xs), Comb(op, ys))
    decreases bound, 0, |xs|
  {
    hide AcEqual, Normal, Size, Normals;
    var j := SharedNormal(xs, ys);
    NormalAc(xs[0], ys[j]);
    if |xs| == 1 {
      assert ys == [ys[j]];
    } else {
      var zs := Without(ys, j);
      CombFront(op, ys, j);
      CombPermuted(op, xs[1..], zs, bound);
      AcBin(op, xs[0], Comb(op, xs[1..]), ys[j], Comb(op, zs));
      AcSymm(Comb(op, ys), Bin(op, ys[j], Comb(op, zs)));
      AcTrans(Comb(op, xs), Bin(op, ys[j], Comb(op, zs)), Comb(op, ys));
    }
  }

  // The first of `xs` has a counterpart in `ys`, and the others remain permutations of each other.
  lemma SharedNormal(xs: seq<Expr>, ys: seq<Expr>) returns (j: nat)
    requires |xs| >= 1 && |ys| >= 1 && Normals(xs) == Normals(ys)
    ensures |xs| == |ys| && j < |ys| && Normal(xs[0]) == Normal(ys[j]) && Normals(xs[1..]) == Normals(Without(ys, j))
  {
    hide Normal;
    NormalsSize(xs);
    NormalsSize(ys);
    assert Normals(xs)[Normal(xs[0])] > 0;
    j := FindNormal(ys, Normal(xs[0]));
    NormalsFront(ys, j);
    UnionCancel(multiset{Normal(xs[0])}, Normals(xs[1..]), Normals(Without(ys, j)));
  }

  lemma UnionCancel<T>(a: multiset<T>, b: multiset<T>, c: multiset<T>)
    requires a + b == a + c
    ensures b == c
  {
    assert b == (a + b) - a && c == (a + c) - a;
  }

  lemma {:induction false} NormalAc(x: Expr, y: Expr)
    requires Normal(x) == Normal(y)
    ensures AcEqual(x, y)
    decreases Size(x), 1
  {
    match x
    case Not(x1) =>
      NormalAc(x1, y.e);
      var p :| Derives(p, x1, y.e);
      assert Derives(UnderNot(p), x, y);
    case Bin(op, _, _) =>
      var xs, ys := OperandList(op, x), OperandList(op, y);
      OperandListNormals(op, x);
      OperandListNormals(op, y);
      forall z | z in xs ensures Size(z) < Size(x) {
        OperandListSmaller(op, x, z);
      }
      CombPermuted(op, xs, ys, Size(x));
      AcComb(op, x);
      AcComb(op, y);
      AcSymm(y, Comb(op, ys));
      AcTrans(x, Comb(op, xs), Comb(op, ys));
      AcTrans(x, Comb(op, ys), y);
    case _ =>
      AcRefl(x);
  }

  /** On expressions without y and n constants, expr_eq decides exactly the equational theory of
      associativity and commutativity; hence it is an equivalence there. */
  lemma ExprEqDecidesAc(e1: Expr, e2: Expr)
    requires YnFree(e1) && YnFree(e2)
    ensures ExprEq(e1, e2) <==> AcEqual(e1, e2)
  {
    ExprEqNormal(e1, e2);
    if AcEqual(e1, e2) {
      var p :| Derives(p, e1, e2);
      DerivesNormal(p, e1, e2);
    } else if Normal(e1) == Normal(e2) {
      NormalAc(e1, e2);
    }
  }

  lemma ExprEqEquivalence(e1: Expr, e2: Expr, e3: Expr)
    requires YnFree(e1) && YnFree(e2) && YnFree(e3)
    ensures ExprEq(e1, e1)
    ensures ExprEq(e1, e2) ==> ExprEq(e2, e1)
    ensures ExprEq(e1, e2) && ExprEq(e2, e3) ==> ExprEq(e1, e3)
  {
    ExprEqNormal(e1, e1);
    ExprEqNormal(e1, e2);
    ExprEqNormal(e2, e1);
    ExprEqNormal(e2, e3);
    ExprEqNormal(e1, e3);
  }
}
