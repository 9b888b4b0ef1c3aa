/** What expr_eliminate_dups leaves: no two operands that a rule would merge, no operand contradicted by another. */
module Irredundance {
  import opened Wrappers
  import opened Expr
  import opened Equality
  import opened Normalisation
  import opened Joining
  import opened Slots
  import opened Duplicates

  // ----- the pairs -----

  predicate Comparing(x: Expr, y: Expr) {
    (x.Equal? || x.Unequal?) && (y.Equal? || y.Unequal?) && x.l == y.l && x.l.IsTristate()
  }

  // s || !s for a boolean, s='a' || s='b' for a tristate and two of y, m and n
  predicate OrPair(x: Expr, y: Expr) {
    || (x.Sym? && x.s.IsBoolean() && y == Not(x))
    || (Comparing(x, y) && x.Equal? && y.Equal? && x.r != y.r && IsYmn(x.r) && IsYmn(y.r))
  }

  // s && s='y', s && s!='n', s && s!='m'; for a tristate s='a' && s!='b' with constants, and s!='a' && s!='b' for two
  // of y, m and n
  predicate AndPair(x: Expr, y: Expr) {
    || (x.Sym? && (x.s.IsBoolean() || x.s.IsTristate())
        && (y == Equal(x.s, SymYes) || y == Unequal(x.s, SymNo) || y == Unequal(x.s, SymMod)))
    || (Comparing(x, y) && x.Equal? && y.Unequal? && x.r.Const? && y.r.Const?)
    || (Comparing(x, y) && x.Unequal? && y.Unequal? && x.r != y.r && IsYmn(x.r) && IsYmn(y.r))
  }

  /** One of the two operands is superfluous next to the other. */
  predicate Redundant(op: Op, x: Expr, y: Expr) {
    || ExprEq(x, y)
    || (op.OrOp? && (OrPair(x, y) || OrPair(y, x)))
    || (op.AndOp? && (AndPair(x, y) || AndPair(y, x)))
  }

  /** The rules merge exactly these pairs. */
  lemma JoinExact(op: Op, x: Expr, y: Expr)
    ensures Join(op, x, y).Some? <==> Redundant(op, x, y)
  {
    hide ExprEq;
    YmnDistinct();
  }

  // ----- nothing to merge is left -----

  ghost predicate IsOperand(op: Op, e: Expr, p: Slot) {
    IsSlot(op, e, p) && !IsOp(op, Get(op, e, p))
  }

  /** No two operands of the `op` group at the root are redundant. */
  ghost predicate NoPair(op: Op, e: Expr) {
    forall p, q :: IsOperand(op, e, p) && IsOperand(op, e, q) && p != q ==>
      !Redundant(op, Get(op, e, p), Get(op, e, q))
  }

  /** The same of every && and || group reached without passing a negation. */
  ghost predicate Irredundant(e: Expr) {
    e.Bin? ==> NoPair(e.op, e) && Irredundant(e.a) && Irredundant(e.b)
  }

  // A slot of a slot.
  lemma {:induction false} SlotConcat(op: Op, e: Expr, p: Slot, q: Slot)
    requires IsSlot(op, e, p) && IsSlot(op, Get(op, e, p), q)
    ensures IsSlot(op, e, p + q) && Get(op, e, p + q) == Get(op, Get(op, e, p), q)
  {
    if p == [] {
      assert p + q == q;
    } else {
      SlotConcat(op, Child(e, p[0]), p[1..], q);
      assert (p + q)[1..] == p[1..] + q;
    }
  }

  // A pass that does not fire does not fire on the parts either.
  lemma QuietLeft(op: Op, e: Expr, p: Slot, q: Slot, side: Side)
    requires IsSlot(op, e, p) && IsSlot(op, e, q) && JoinPass(op, e, p, q).fired == 0 && IsOp(op, Get(op, e, p))
    ensures IsSlot(op, e, p + [side]) && JoinPass(op, e, p + [side], q).fired == 0
    ensures Get(op, e, p + [side]) == Child(Get(op, e, p), side)
  {
    hide Join, JoinSlots, SameGroup, HasYnOperand, Size, IsSlot, Get;
    SlotChild(op, e, p, side);
    SlotChild(op, e, p, Left);
    var r := JoinPass(op, e, p + [Left], q);
    SameGroupSlot(op, e, r.e, p);
    SameGroupSlot(op, e, r.e, q);
    SlotChild(op, r.e, p, Right);
    assert JoinPass(op, e, p, q).fired == r.fired + JoinPass(op, r.e, p + [Right], q).fired;
  }

  lemma QuietRight(op: Op, e: Expr, p: Slot, q: Slot, side: Side)
    requires IsSlot(op, e, p) && IsSlot(op, e, q) && JoinPass(op, e, p, q).fired == 0
    requires !IsOp(op, Get(op, e, p)) && IsOp(op, Get(op, e, q))
    ensures IsSlot(op, e, q + [side]) && JoinPass(op, e, p, q + [side]).fired == 0
    ensures Get(op, e, q + [side]) == Child(Get(op, e, q), side)
  {
    hide Join, JoinSlots, SameGroup, HasYnOperand, Size, IsSlot, Get;
    SlotChild(op, e, q, side);
    SlotChild(op, e, q, Left);
    var r := JoinPass(op, e, p, q + [Left]);
    SameGroupSlot(op, e, r.e, p);
    SameGroupSlot(op, e, r.e, q);
    SlotChild(op, r.e, q, Right);
    assert JoinPass(op, e, p, q).fired == r.fired + JoinPass(op, r.e, p, q + [Right]).fired;
  }

  lemma QuietOperands(op: Op, e: Expr, p: Slot, q: Slot)
    requires IsOperand(op, e, p) && IsOperand(op, e, q) && p != q && JoinPass(op, e, p, q).fired == 0
    ensures var x := Get(op, e, p);
      Join(op, x, Get(op, e, q)).None? && (x.Bin? ==> JoinPass(x.op, x, [], []).fired == 0)
  {
    hide Join;
    OperandSmaller(op, e, p);
  }

  // A pass that does not fire met every pair of operands and found nothing to merge.
  lemma {:induction false} JoinPassQuiet(op: Op, e: Expr, p: Slot, q: Slot, p': Slot, q': Slot)
    requires IsSlot(op, e, p) && IsSlot(op, e, q) && JoinPass(op, e, p, q).fired == 0
    requires IsOperand(op, Get(op, e, p), p') && IsOperand(op, Get(op, e, q), q') && p + p' != q + q'
    ensures var x := Get(op, Get(op, e, p), p');
      Join(op, x, Get(op, Get(op, e, q), q')).None? && (x.Bin? ==> JoinPass(x.op, x, [], []).fired == 0)
    decreases GroupSize(op, Get(op, e, p)) + GroupSize(op, Get(op, e, q))
  {
    hide Join, JoinPass, SameGroup;
    var ep, eq := Get(op, e, p), Get(op, e, q);
    if IsOp(op, ep) {
      QuietLeft(op, e, p, q, p'[0]);
      assert p + p' == p + [p'[0]] + p'[1..];
      JoinPassQuiet(op, e, p + [p'[0]], q, p'[1..], q');
    } else if IsOp(op, eq) {
      QuietRight(op, e, p, q, q'[0]);
      assert q + q' == q + [q'[0]] + q'[1..];
      JoinPassQuiet(op, e, p, q + [q'[0]], p', q'[1..]);
    } else {
      assert p' == [] && q' == [];
      assert p + p' == p && q + q' == q;
      QuietOperands(op, e, p, q);
    }
  }

  // An operand slot of the group, and another one.
  lemma {:induction false} TwoOperands(op: Op, e: Expr, side: Side) returns (p: Slot)
    requires IsOp(op, e)
    ensures p != [] && p[0] == side && IsOperand(op, e, p)
    decreases Size(e)
  {
    var c := Child(e, side);
    if IsOp(op, c) {
      var p' := TwoOperands(op, c, Left);
      p := [side] + p';
    } else {
      p := [side];
    }
  }

  lemma {:induction false} QuietInner(op: Op, e: Expr, p: Slot)
    requires IsOp(op, e) && JoinPass(op, e, [], []).fired == 0 && IsOperand(op, e, p) && Get(op, e, p).Bin?
    ensures var x := Get(op, e, p); JoinPass(x.op, x, [], []).fired == 0
  {
    var q := TwoOperands(op, e, if p[0].Left? then Right else Left);
    assert [] + p == p && [] + q == q;
    JoinPassQuiet(op, e, [], [], p, q);
  }

  lemma {:induction false} QuietNoPair(op: Op, e: Expr)
    requires JoinPass(op, e, [], []).fired == 0
    ensures NoPair(op, e)
  {
    forall p, q | IsOperand(op, e, p) && IsOperand(op, e, q) && p != q
      ensures !Redundant(op, Get(op, e, p), Get(op, e, q))
    {
      assert [] + p == p && [] + q == q;
      JoinPassQuiet(op, e, [], [], p, q);
      JoinExact(op, Get(op, e, p), Get(op, e, q));
    }
  }

  lemma {:induction false} PartNoPair(op: Op, e: Expr, s: Slot)
    requires NoPair(op, e) && IsSlot(op, e, s)
    ensures NoPair(op, Get(op, e, s))
  {
    hide Redundant;
    var f := Get(op, e, s);
    forall p, q | IsOperand(op, f, p) && IsOperand(op, f, q) && p != q
      ensures !Redundant(op, Get(op, f, p), Get(op, f, q))
    {
      SlotConcat(op, e, s, p);
      SlotConcat(op, e, s, q);
      assert (s + p)[|s|..] == p && (s + q)[|s|..] == q;
    }
  }

  // Every part of a quiet group.
  lemma {:induction false} QuietIrredundant(op: Op, e: Expr, s: Slot)
    requires IsOp(op, e) && JoinPass(op, e, [], []).fired == 0 && IsSlot(op, e, s)
    ensures Irredundant(Get(op, e, s))
    decreases Size(e), GroupSize(op, Get(op, e, s))
  {
    hide NoPair, JoinPass;
    var f := Get(op, e, s);
    if IsOp(op, f) {
      QuietNoPair(op, e);
      PartNoPair(op, e, s);
      SlotChild(op, e, s, Left);
      SlotChild(op, e, s, Right);
      QuietIrredundant(op, e, s + [Left]);
      QuietIrredundant(op, e, s + [Right]);
    } else if f.Bin? {
      QuietInner(op, e, s);
      OperandSmaller(op, e, s);
      QuietIrredundant(f.op, f, []);
    }
  }

  /** The optimised expression holds no duplicate: no two operands of one group are equal, and none of the pairs the
      rules merge is left, down to the last nested group. */
  lemma {:induction false} EliminateDupsIrredundant(e: Expr)
    ensures Irredundant(EliminateDups(e))
    decreases Size(e)
  {
    if e.Bin? {
      if DupsPass(e).fired > 0 {
        EliminateDupsIrredundant(EliminateYn(DupsPass(e).e));
      } else {
        QuietIrredundant(e.op, e, []);
      }
    }
  }

  // ----- no operand is contradicted -----

  /** The negation of a normalised expression, written down directly. */
  function Negation(e: Expr): Expr {
    match e
    case Sym(s) => if s == SymMod then e else Not(e)
    case Not(x) => x
    case Equal(l, r) => Unequal(l, r)
    case Unequal(l, r) => Equal(l, r)
    case Bin(op, a, b) => Bin(Dual(op), Negation(a), Negation(b))
  }

  lemma {:induction false} TransformNot(e: Expr)
    requires Normalised(e) && YnFree(e)
    ensures Transform(Not(e)) == Negation(e) && YnFree(Negation(e))
  {
    YmnDistinct();
    TransformFixesNormalised(e);
    if e.Bin? {
      TransformNot(e.a);
      TransformNot(e.b);
      assert Transform(Not(e)) == Transform(PushNot(e));
    }
  }

  // Extracting cancels as expr_eliminate_eq does.
  ghost predicate Cancels(op: Op, common: Option<Expr>, e1: Expr, e2: Expr, x: Extraction) {
    && Pair(x.e1, x.e2) == CancelCommon(op, e1, e2)
    && (x.common.None? ==> common.None? && x.e1 == e1)
  }

  lemma ExtractOperands(op: Op, common: Option<Expr>, e1: Expr, e2: Expr)
    requires Cancelled(op, e1) && Cancelled(op, e2) && !IsOp(op, e1) && !IsOp(op, e2)
    ensures Cancels(op, common, e1, e2, ExtractEq(op, common, e1, e2))
  {
    if IsYn(e1) {
      YmnDistinct();
      assert e1 == Unit(op) && (ExprEq(e1, e2) <==> e1 == e2);
    } else {
      hide ExprEq;
    }
  }

  // This holds where y and n do not occur.
  lemma {:induction false} ExtractCancels(op: Op, common: Option<Expr>, e1: Expr, e2: Expr)
    requires Cancelled(op, e1) && Cancelled(op, e2)
    ensures Cancels(op, common, e1, e2, ExtractEq(op, common, e1, e2))
    decreases Size(e1) + Size(e2)
  {
    hide ExprEq, Remaining, Normal;
    if IsOp(op, e1) {
      var x := ExtractEq(op, common, e1.a, e2);
      ExtractCancels(op, common, e1.a, e2);
      CancelCommonExact(op, e1.a, e2);
      ExtractCancels(op, x.common, e1.b, x.e2);
    } else if IsOp(op, e2) {
      var x := ExtractEq(op, common, e1, e2.a);
      ExtractCancels(op, common, e1, e2.a);
      CancelCommonExact(op, e1, e2.a);
      ExtractCancels(op, x.common, x.e1, e2.b);
    } else {
      ExtractOperands(op, common, e1, e2);
    }
  }

  lemma ExtractCommonLeft(op: Op, e1: Expr, e2: Expr)
    requires YnFree(e1) && YnFree(e2)
    ensures ExtractCommon(op, e1, e2).e1 == EliminateYn(CancelCommon(op, e1, e2).e1)
  {
    hide ExtractEq, CancelCommon, EliminateYn, YnFree, Cancelled, Remaining, Operands;
    YnFreeCancelled(op, e1);
    YnFreeCancelled(op, e2);
    ExtractCancels(op, None, e1, e2);
    EliminateYnFree(e1);
  }

  /** Extracting leaves nothing of the first group exactly when the second has all its operands. */
  lemma ExtractCommonExact(op: Op, e1: Expr, e2: Expr)
    requires YnFree(e1) && YnFree(e2)
    ensures ExtractCommon(op, e1, e2).e1 == Unit(op) <==> Operands(op, e1) <= Operands(op, e2)
  {
    hide ExtractCommon, CancelCommon, EliminateYn, Operands, Remaining, YnFree, Cancelled;
    ExtractCommonLeft(op, e1, e2);
    YnFreeCancelled(op, e1);
    YnFreeCancelled(op, e2);
    CancelCommonExact(op, e1, e2);
    EliminateYnCancelled(op, CancelCommon(op, e1, e2).e1);
    EmptyDifference(Operands(op, e1), Operands(op, e2));
  }

  /** An operand contradicts the group part `y` exactly when every operand of its negation is one of `y`. */
  lemma ContradictsOperands(op: Op, x: Expr, y: Expr)
    requires Normalised(x) && YnFree(x) && YnFree(y)
    ensures Contradicts(op, x, y) <==> Operands(op, Negation(x)) <= Operands(op, y)
  {
    hide Transform, ExtractCommon, Operands, Negation;
    TransformNot(x);
    ExtractCommonExact(op, Negation(x), y);
  }

  /** No && or || operand is contradicted by the rest of its group, nor in any nested group. */
  ghost predicate Uncontradicted(e: Expr) {
    e.Bin? ==> NoContradiction(e.op, e) && Uncontradicted(e.a) && Uncontradicted(e.b)
  }

  ghost predicate NoContradiction(op: Op, e: Expr) {
    forall p :: IsOperand(op, e, p) && Get(op, e, p).Bin? ==>
      !(Operands(op, Negation(Get(op, e, p))) <= Operands(op, e))
  }

  lemma ContradictQuietStep(op: Op, e: Expr, p: Slot, side: Side)
    requires IsSlot(op, e, p) && ContradictPass(op, e, p, []).fired == 0 && IsOp(op, Get(op, e, p))
    ensures IsSlot(op, e, p + [side]) && ContradictPass(op, e, p + [side], []).fired == 0
    ensures Get(op, e, p + [side]) == Child(Get(op, e, p), side)
  {
    SlotChild(op, e, p, side);
    SlotChild(op, e, p, Left);
  }

  lemma ContradictQuietOperand(op: Op, e: Expr, p: Slot)
    requires IsOp(op, e) && IsOperand(op, e, p) && Get(op, e, p).Bin? && ContradictPass(op, e, p, []).fired == 0
    ensures ContradictOperand(op, e, p, []).fired == 0
  {
    hide ContradictOperand;
    SlotChild(op, e, [], Left);
  }

  lemma ContradictQuietSlots(op: Op, e: Expr, p: Slot)
    requires IsOp(op, e) && IsOperand(op, e, p) && Get(op, e, p).Bin? && ContradictOperand(op, e, p, []).fired == 0
    ensures var x := Get(op, e, p); ContradictPass(x.op, x, [], []).fired == 0 && !Contradicts(op, x, e)
  {
    hide Contradicts, ContradictPass;
    OperandSmaller(op, e, p);
    SetSame(op, e, p);
  }

  // A pass that does not fire looked at every operand.
  lemma {:induction false} ContradictQuiet(op: Op, e: Expr, p: Slot, p': Slot)
    requires IsOp(op, e) && IsSlot(op, e, p) && ContradictPass(op, e, p, []).fired == 0
    requires IsOperand(op, Get(op, e, p), p') && Get(op, Get(op, e, p), p').Bin?
    ensures var x := Get(op, Get(op, e, p), p');
      ContradictPass(x.op, x, [], []).fired == 0 && !Contradicts(op, x, e)
    decreases |p'|
  {
    hide Contradicts, ContradictPass;
    if IsOp(op, Get(op, e, p)) {
      ContradictQuietStep(op, e, p, p'[0]);
      ContradictQuiet(op, e, p + [p'[0]], p'[1..]);
    } else {
      ContradictQuietOperand(op, e, p);
      ContradictQuietSlots(op, e, p);
    }
  }

  lemma {:induction false} OperandKept(op: Op, e: Expr, p: Slot)
    requires IsSlot(op, e, p)
    ensures Normalised(e) ==> Normalised(Get(op, e, p))
    ensures YnFree(e) ==> YnFree(Get(op, e, p))
    ensures Operands(op, Get(op, e, p)) <= Operands(op, e)
  {
    if p != [] {
      OperandKept(op, Child(e, p[0]), p[1..]);
    }
  }

  lemma {:induction false} QuietNoContradiction(op: Op, e: Expr)
    requires IsOp(op, e) && ContradictPass(op, e, [], []).fired == 0 && Normalised(e) && YnFree(e)
    ensures NoContradiction(op, e)
  {
    hide Contradicts, ContradictPass;
    forall p | IsOperand(op, e, p) && Get(op, e, p).Bin?
      ensures !(Operands(op, Negation(Get(op, e, p))) <= Operands(op, e))
    {
      ContradictQuiet(op, e, [], p);
      OperandKept(op, e, p);
      ContradictsOperands(op, Get(op, e, p), e);
    }
  }

  lemma {:induction false} PartNoContradiction(op: Op, e: Expr, s: Slot)
    requires NoContradiction(op, e) && IsSlot(op, e, s)
    ensures NoContradiction(op, Get(op, e, s))
  {
    hide Operands;
    var f := Get(op, e, s);
    OperandKept(op, e, s);
    forall p | IsOperand(op, f, p) && Get(op, f, p).Bin?
      ensures !(Operands(op, Negation(Get(op, f, p))) <= Operands(op, f))
    {
      SlotConcat(op, e, s, p);
    }
  }

  lemma {:induction false} QuietUncontradicted(op: Op, e: Expr, s: Slot)
    requires IsOp(op, e) && ContradictPass(op, e, [], []).fired == 0 && IsSlot(op, e, s) && Normalised(e) && YnFree(e)
    ensures Uncontradicted(Get(op, e, s))
    decreases Size(e), GroupSize(op, Get(op, e, s))
  {
    hide NoContradiction, ContradictPass;
    var f := Get(op, e, s);
    if IsOp(op, f) {
      QuietNoContradiction(op, e);
      PartNoContradiction(op, e, s);
      SlotChild(op, e, s, Left);
      SlotChild(op, e, s, Right);
      QuietUncontradicted(op, e, s + [Left]);
      QuietUncontradicted(op, e, s + [Right]);
    } else if f.Bin? {
      ContradictQuiet(op, e, [], s);
      OperandSmaller(op, e, s);
      OperandKept(op, e, s);
      QuietUncontradicted(f.op, f, []);
    }
  }

  // ----- y and n stay out -----

  lemma {:induction false} YnOnTopEliminated(e: Expr)
    requires YnOnTop(e)
    ensures IsYn(EliminateYn(e)) || YnFree(EliminateYn(e))
  {
    YmnDistinct();
    if e.Bin? {
      YnOnTopEliminated(e.a);
      YnOnTopEliminated(e.b);
    }
  }

  lemma {:induction false} YnFreeOnTop(e: Expr)
    requires YnFree(e)
    ensures YnOnTop(e)
  {
    if e.Bin? {
      YnFreeOnTop(e.a);
      YnFreeOnTop(e.b);
    }
  }

  /** The result of optimising a normalised expression without y and n is one of these, or has none of them and no
      operand that contradicts its group. */
  lemma {:induction false} EliminateDupsUncontradicted(e: Expr)
    requires Normalised(e) && YnFree(e)
    ensures IsYn(EliminateDups(e)) || (YnFree(EliminateDups(e)) && Uncontradicted(EliminateDups(e)))
    decreases Size(e)
  {
    if e.Bin? {
      var j := JoinPass(e.op, e, [], []);
      var c := ContradictPass(e.op, j.e, [], []);
      if DupsPass(e).fired > 0 {
        hide JoinPass, ContradictPass, Normalised;
        YnFreeOnTop(e);
        JoinPassKeeps(e.op, e, [], [], Constants);
        ContradictPassKeeps(e.op, j.e, [], [], Constants);
        YnOnTopEliminated(c.e);
        JoinPassKeeps(e.op, e, [], [], NormalForm);
        ContradictPassKeeps(e.op, j.e, [], [], NormalForm);
        EliminateYnKeeps(c.e, NormalForm);
        if YnFree(EliminateYn(c.e)) {
          EliminateDupsUncontradicted(EliminateYn(c.e));
        }
      } else {
        QuietUncontradicted(e.op, e, []);
      }
    }
  }
}
