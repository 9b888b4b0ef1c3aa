/** expr_eliminate_dups: joining and contradiction passes over the operands of a group, repeated
    until neither fires. */
module Duplicates {
  import opened Wrappers
  import opened Expr
  import opened Equality
  import opened Normalisation
  import opened Joining
  import opened Slots

  // A rewritten tree and the growth of trans_count.
  datatype Pass = Pass(e: Expr, fired: nat)

  // ----- expr_eliminate_dups1 -----

  ghost predicate Shrinks(op: Op, e: Expr, r: Pass) {
    && SameGroup(op, e, r.e)
    && Size(r.e) <= Size(e)
    && (r.fired == 0 ==> r.e == e)
    && (r.fired > 0 ==> HasYnOperand(r.e) || Size(r.e) < Size(e))
  }

  lemma ShrinksTrans(op: Op, e: Expr, r: Pass, t: Pass)
    requires Shrinks(op, e, r) && Shrinks(op, r.e, t)
    ensures Shrinks(op, e, Pass(t.e, r.fired + t.fired))
  {
    SameGroupTrans(op, e, r.e, t.e);
  }

  // One pair of operands, the first already rewritten to `x`: merge them if a rule applies.
  function JoinSlots(op: Op, e: Expr, p: Slot, q: Slot, x: Pass): (r: Pass)
    requires IsSlot(op, e, p) && IsSlot(op, e, q) && p != q
    requires !IsOp(op, Get(op, e, p)) && !IsOp(op, Get(op, e, q)) && !IsOp(op, x.e)
  {
    SetOther(op, e, p, q, x.e);
    SetOther(op, e, p, q, Unit(op));
    match Join(op, x.e, Get(op, e, q))
    case None => Pass(Set(op, e, p, x.e), x.fired)
    case Some(j) => Pass(Set(op, Set(op, e, p, Unit(op)), q, j), x.fired + 1)
  }

  lemma JoinSlotsShrinks(op: Op, e: Expr, p: Slot, q: Slot, x: Pass)
    requires IsSlot(op, e, p) && IsSlot(op, e, q) && p != q
    requires !IsOp(op, Get(op, e, p)) && !IsOp(op, Get(op, e, q)) && !IsOp(op, x.e)
    requires Shrinks(Dual(op), Get(op, e, p), x)
    ensures Shrinks(op, e, JoinSlots(op, e, p, q, x))
  {
    var ep, eq := Get(op, e, p), Get(op, e, q);
    SetOperand(op, e, p, x.e);
    SetOperand(op, e, p, Unit(op));
    SetOther(op, e, p, q, x.e);
    SetOther(op, e, p, q, Unit(op));
    var j := Join(op, x.e, eq);
    if j.None? {
      var r := Set(op, e, p, x.e);
      if x.fired == 0 {
        SetSame(op, e, p);
      } else if HasYnOperand(x.e) {
        SlotYn(op, r, p);
      }
    } else {
      JoinShape(op, x.e, eq);
      var f := Set(op, e, p, Unit(op));
      SetOperand(op, f, q, j.value);
      var r := Set(op, f, q, j.value);
      SameGroupTrans(op, e, f, r);
      SameGroupSlot(op, f, r, p);
      SetOther(op, f, q, p, j.value);
      SlotYn(op, r, p);
    }
  }

  lemma {:induction false} SetSame(op: Op, e: Expr, p: Slot)
    requires IsSlot(op, e, p)
    ensures Set(op, e, p, Get(op, e, p)) == e
  {
    if p != [] {
      SetSame(op, Child(e, p[0]), p[1..]);
    }
  }

  // An operand slot other than the root lies below an `op` node.
  lemma {:induction false} OperandSmaller(op: Op, e: Expr, p: Slot)
    requires IsSlot(op, e, p)
    ensures Size(Get(op, e, p)) <= Size(e) && (p != [] ==> Size(Get(op, e, p)) < Size(e))
  {
    if p != [] {
      OperandSmaller(op, Child(e, p[0]), p[1..]);
    }
  }

  // expr_eliminate_dups1(type, ep1, ep2) with both slots in the tree `e`
  function JoinPass(op: Op, e: Expr, p: Slot, q: Slot): (r: Pass)
    requires IsSlot(op, e, p) && IsSlot(op, e, q)
    ensures Shrinks(op, e, r)
    decreases Size(e), GroupSize(op, Get(op, e, p)) + GroupSize(op, Get(op, e, q))
  {
    var ep, eq := Get(op, e, p), Get(op, e, q);
    if IsOp(op, ep) then
      SlotChild(op, e, p, Left);
      var r := JoinPass(op, e, p + [Left], q);
      SameGroupSlot(op, e, r.e, p);
      SameGroupSlot(op, e, r.e, q);
      SlotChild(op, r.e, p, Right);
      var t := JoinPass(op, r.e, p + [Right], q);
      ShrinksTrans(op, e, r, t);
      Pass(t.e, r.fired + t.fired)
    else if IsOp(op, eq) then
      SlotChild(op, e, q, Left);
      var r := JoinPass(op, e, p, q + [Left]);
      SameGroupSlot(op, e, r.e, p);
      SameGroupSlot(op, e, r.e, q);
      SlotChild(op, r.e, q, Right);
      var t := JoinPass(op, r.e, p, q + [Right]);
      ShrinksTrans(op, e, r, t);
      Pass(t.e, r.fired + t.fired)
    else if p == q then
      SameGroupRefl(op, e);
      Pass(e, 0)
    else
      OperandSmaller(op, e, p);
      SameGroupRefl(Dual(op), ep);
      var x := if ep.Bin? then JoinPass(ep.op, ep, [], []) else Pass(ep, 0);
      JoinSlotsShrinks(op, e, p, q, x);
      JoinSlots(op, e, p, q, x)
  }

  /** Joining is exact in three values under every well-typed valuation. */
  lemma {:induction false} JoinPassMeaning(op: Op, e: Expr, p: Slot, q: Slot, v: Valuation)
    requires IsSlot(op, e, p) && IsSlot(op, e, q) && WellTyped(v)
    ensures Eval(JoinPass(op, e, p, q).e, v) == Eval(e, v)
    decreases Size(e), GroupSize(op, Get(op, e, p)) + GroupSize(op, Get(op, e, q))
  {
    var ep, eq := Get(op, e, p), Get(op, e, q);
    if IsOp(op, ep) {
      SlotChild(op, e, p, Left);
      var r := JoinPass(op, e, p + [Left], q);
      SameGroupSlot(op, e, r.e, p);
      SameGroupSlot(op, e, r.e, q);
      SlotChild(op, r.e, p, Right);
      JoinPassMeaning(op, e, p + [Left], q, v);
      JoinPassMeaning(op, r.e, p + [Right], q, v);
    } else if IsOp(op, eq) {
      SlotChild(op, e, q, Left);
      var r := JoinPass(op, e, p, q + [Left]);
      SameGroupSlot(op, e, r.e, p);
      SameGroupSlot(op, e, r.e, q);
      SlotChild(op, r.e, q, Right);
      JoinPassMeaning(op, e, p, q + [Left], v);
      JoinPassMeaning(op, r.e, p, q + [Right], v);
    } else if p != q {
      OperandSmaller(op, e, p);
      var x := if ep.Bin? then JoinPass(ep.op, ep, [], []) else Pass(ep, 0);
      if ep.Bin? {
        JoinPassMeaning(ep.op, ep, [], [], v);
      }
      JoinSlotsMeaning(op, e, p, q, x, v);
    }
  }

  lemma JoinSlotsMeaning(op: Op, e: Expr, p: Slot, q: Slot, x: Pass, v: Valuation)
    requires IsSlot(op, e, p) && IsSlot(op, e, q) && p != q && WellTyped(v)
    requires !IsOp(op, Get(op, e, p)) && !IsOp(op, Get(op, e, q)) && !IsOp(op, x.e)
    requires Eval(x.e, v) == Eval(Get(op, e, p), v)
    ensures Eval(JoinSlots(op, e, p, q, x).e, v) == Eval(e, v)
  {
    var j := Join(op, x.e, Get(op, e, q));
    if j.None? {
      SlotValue(op, e, p, x.e, v);
    } else {
      JoinMeaning(op, x.e, Get(op, e, q), v);
      SetOther(op, e, p, q, Unit(op));
      TwoSlotsValue(op, e, p, q, Unit(op), j.value, v);
    }
  }

  // ----- what the passes keep: m-free operands and negation normal form -----

  // Properties that && and || inherit from their operands.
  datatype Property = NormalForm | WithoutM(v: Valuation) | Conditions | Constants

  // The constants y and n occur, if at all, as operands.
  predicate YnOnTop(e: Expr) {
    if e.Bin? then YnOnTop(e.a) && YnOnTop(e.b) else IsYn(e) || YnFree(e)
  }

  ghost predicate Kept(e: Expr, k: Property) {
    match k
    case NormalForm => Normalised(e)
    case WithoutM(v) => TwoValued(e, v)
    case Conditions => Conditional(e)
    case Constants => YnOnTop(e)
  }

  lemma {:induction false} SlotKept(op: Op, e: Expr, p: Slot, x: Expr, k: Property)
    requires IsSlot(op, e, p) && Kept(e, k)
    ensures Kept(Get(op, e, p), k)
    ensures Kept(x, k) ==> Kept(Set(op, e, p, x), k)
  {
    if p != [] {
      SlotKept(op, Child(e, p[0]), p[1..], x, k);
    }
  }

  lemma YnKept(op: Op, k: Property)
    ensures Kept(Unit(op), k) && Kept(Zero(op), k)
  {
    YmnDistinct();
  }

  lemma {:induction false} JoinPassKeeps(op: Op, e: Expr, p: Slot, q: Slot, k: Property)
    requires IsSlot(op, e, p) && IsSlot(op, e, q) && Kept(e, k)
    ensures Kept(JoinPass(op, e, p, q).e, k)
    decreases Size(e), GroupSize(op, Get(op, e, p)) + GroupSize(op, Get(op, e, q))
  {
    hide Kept;
    var ep, eq := Get(op, e, p), Get(op, e, q);
    if IsOp(op, ep) {
      SlotChild(op, e, p, Left);
      var r := JoinPass(op, e, p + [Left], q);
      SameGroupSlot(op, e, r.e, p);
      SameGroupSlot(op, e, r.e, q);
      SlotChild(op, r.e, p, Right);
      JoinPassKeeps(op, e, p + [Left], q, k);
      JoinPassKeeps(op, r.e, p + [Right], q, k);
    } else if IsOp(op, eq) {
      SlotChild(op, e, q, Left);
      var r := JoinPass(op, e, p, q + [Left]);
      SameGroupSlot(op, e, r.e, p);
      SameGroupSlot(op, e, r.e, q);
      SlotChild(op, r.e, q, Right);
      JoinPassKeeps(op, e, p, q + [Left], k);
      JoinPassKeeps(op, r.e, p, q + [Right], k);
    } else if p != q {
      OperandSmaller(op, e, p);
      SlotKept(op, e, p, ep, k);
      var x := if ep.Bin? then JoinPass(ep.op, ep, [], []) else Pass(ep, 0);
      if ep.Bin? {
        JoinPassKeeps(ep.op, ep, [], [], k);
      }
      JoinSlotsKeeps(op, e, p, q, x, k);
    }
  }

  lemma JoinOnTop(op: Op, x: Expr, y: Expr)
    requires Join(op, x, y).Some? && YnOnTop(x)
    ensures YnOnTop(Join(op, x, y).value)
  {
    YmnDistinct();
  }

  lemma JoinSlotsKeeps(op: Op, e: Expr, p: Slot, q: Slot, x: Pass, k: Property)
    requires IsSlot(op, e, p) && IsSlot(op, e, q) && p != q && Kept(e, k) && Kept(x.e, k)
    requires !IsOp(op, Get(op, e, p)) && !IsOp(op, Get(op, e, q)) && !IsOp(op, x.e)
    ensures Kept(JoinSlots(op, e, p, q, x).e, k)
  {
    var eq := Get(op, e, q);
    SlotKept(op, e, q, eq, k);
    SlotKept(op, e, p, x.e, k);
    if Join(op, x.e, eq).Some? {
      JoinShape(op, x.e, eq);
      if k.WithoutM? {
        JoinTwoValued(op, x.e, eq, k.v);
      } else if k.Conditions? {
        JoinConditional(op, x.e, eq);
      } else if k.Constants? {
        JoinOnTop(op, x.e, eq);
      }
      YnKept(op, k);
      SlotKept(op, e, p, Unit(op), k);
      SetOther(op, e, p, q, Unit(op));
      SlotKept(op, Set(op, e, p, Unit(op)), q, Join(op, x.e, eq).value, k);
    }
  }

  // ----- expr_extract_eq -----

  datatype Extraction = Extraction(common: Option<Expr>, e1: Expr, e2: Expr)

  function Extend(op: Op, common: Option<Expr>, e: Expr): Option<Expr> {
    if common.Some? then Some(Bin(op, common.value, e)) else Some(e)
  }

  // expr_extract_eq
  function ExtractEq(op: Op, common: Option<Expr>, e1: Expr, e2: Expr): (x: Extraction)
    ensures Size(x.e1) <= Size(e1) && Size(x.e2) <= Size(e2)
    decreases Size(e1) + Size(e2)
  {
    if IsOp(op, e1) then
      var x := ExtractEq(op, common, e1.a, e2);
      var y := ExtractEq(op, x.common, e1.b, x.e2);
      Extraction(y.common, Bin(op, x.e1, y.e1), y.e2)
    else if IsOp(op, e2) then
      var x := ExtractEq(op, common, e1, e2.a);
      var y := ExtractEq(op, x.common, x.e1, e2.b);
      Extraction(y.common, y.e1, Bin(op, x.e2, y.e2))
    else if ExprEq(e1, e2) then
      Extraction(Extend(op, common, e1), Unit(op), Unit(op))
    else
      Extraction(common, e1, e2)
  }

  // expr_extract_eq_and and expr_extract_eq_or
  function ExtractCommon(op: Op, e1: Expr, e2: Expr): Extraction {
    var x := ExtractEq(op, None, e1, e2);
    if x.common.Some? then Extraction(x.common, EliminateYn(x.e1), EliminateYn(x.e2)) else x
  }

  ghost function CommonValue(op: Op, common: Option<Expr>, v: Valuation): Tristate {
    if common.Some? then Eval(common.value, v) else Eval(Unit(op), v)
  }

  lemma ApplyShift(
    op: Op, c0: Tristate, c1: Tristate, c2: Tristate, a: Tristate, b: Tristate, a': Tristate, b': Tristate)
    requires Apply(op, c1, a') == Apply(op, c0, a) && Apply(op, c2, b') == Apply(op, c1, b)
    ensures Apply(op, c2, Apply(op, a', b')) == Apply(op, c0, Apply(op, a, b))
  {
    assert Apply(op, c2, Apply(op, a', b')) == Apply(op, a', Apply(op, c2, b'));
    assert Apply(op, a', Apply(op, c1, b)) == Apply(op, Apply(op, c1, a'), b);
    assert Apply(op, Apply(op, c0, a), b) == Apply(op, c0, Apply(op, a, b));
  }

  // What is taken out, combined with what is left, is what was there.
  lemma {:induction false} ExtractEqFactor(op: Op, common: Option<Expr>, e1: Expr, e2: Expr, v: Valuation)
    ensures var x := ExtractEq(op, common, e1, e2);
      && Apply(op, CommonValue(op, x.common, v), Eval(x.e1, v)) == Apply(op, CommonValue(op, common, v), Eval(e1, v))
      && Apply(op, CommonValue(op, x.common, v), Eval(x.e2, v)) == Apply(op, CommonValue(op, common, v), Eval(e2, v))
    decreases Size(e1) + Size(e2)
  {
    hide Apply, CommonValue;
    if IsOp(op, e1) {
      var x := ExtractEq(op, common, e1.a, e2);
      ExtractEqFactor(op, common, e1.a, e2, v);
      ExtractEqFactor(op, x.common, e1.b, x.e2, v);
      var y := ExtractEq(op, x.common, e1.b, x.e2);
      ApplyShift(op, CommonValue(op, common, v), CommonValue(op, x.common, v), CommonValue(op, y.common, v),
                 Eval(e1.a, v), Eval(e1.b, v), Eval(x.e1, v), Eval(y.e1, v));
      assert ExtractEq(op, common, e1, e2) == Extraction(y.common, Bin(op, x.e1, y.e1), y.e2);
    } else if IsOp(op, e2) {
      var x := ExtractEq(op, common, e1, e2.a);
      ExtractEqFactor(op, common, e1, e2.a, v);
      ExtractEqFactor(op, x.common, x.e1, e2.b, v);
      var y := ExtractEq(op, x.common, x.e1, e2.b);
      ApplyShift(op, CommonValue(op, common, v), CommonValue(op, x.common, v), CommonValue(op, y.common, v),
                 Eval(e2.a, v), Eval(e2.b, v), Eval(x.e2, v), Eval(y.e2, v));
      assert ExtractEq(op, common, e1, e2) == Extraction(y.common, y.e1, Bin(op, x.e2, y.e2));
    } else if ExprEq(e1, e2) {
      ExtractedBase(op, common, e1, e2, v);
    }
  }

  lemma ExtractedBase(op: Op, common: Option<Expr>, e1: Expr, e2: Expr, v: Valuation)
    requires ExprEq(e1, e2)
    ensures var c, u := CommonValue(op, Extend(op, common, e1), v), Eval(Unit(op), v);
      Apply(op, c, u) == Apply(op, CommonValue(op, common, v), Eval(e1, v))
        == Apply(op, CommonValue(op, common, v), Eval(e2, v))
  {
    YmnDistinct();
    ExprEqSound(e1, e2, v);
  }

  /** If extracting leaves only the unit of the first expression, the second one implies it (for &&)
      or is implied by it (for ||). */
  lemma {:induction false} ExtractCommonCovers(op: Op, e1: Expr, e2: Expr, v: Valuation)
    requires ExtractCommon(op, e1, e2).e1 == Unit(op)
    ensures Eval(e2, v) == Apply(op, Eval(e1, v), Eval(e2, v))
  {
    var x := ExtractEq(op, None, e1, e2);
    assert Eval(x.e1, v) == Eval(Unit(op), v) by {
      EliminateYnMeaning(x.e1, v);
    }
    var c := CommonValue(op, x.common, v);
    assert Eval(e1, v) == c && Eval(e2, v) == Apply(op, c, Eval(x.e2, v)) by {
      ExtractEqFactor(op, None, e1, e2, v);
      UnitFactor(op, Eval(e1, v), v);
      UnitFactor(op, Eval(e2, v), v);
      UnitFactor(op, c, v);
    }
  }

  // ----- expr_eliminate_dups2 -----

  // (FOO || BAR) && (!FOO && !BAR) -> n and its dual: does operand `x` contradict the group part `y`?
  predicate Contradicts(op: Op, x: Expr, y: Expr) {
    ExtractCommon(op, Transform(Not(x)), y).e1 == Unit(op)
  }

  lemma ContradictsValue(op: Op, x: Expr, y: Expr, v: Valuation)
    requires Contradicts(op, x, y) && WellTyped(v) && TwoValued(x, v)
    ensures Apply(op, Eval(x, v), Eval(y, v)) == Eval(Zero(op), v)
  {
    YmnDistinct();
    TransformMeaning(Not(x), v);
    ExtractCommonCovers(op, Transform(Not(x)), y, v);
    TwoValuedEval(x, v);
  }

  /** In three values the rule is exact except where both sides are m. */
  lemma ContradictsExact(op: Op, x: Expr, y: Expr, v: Valuation)
    requires Contradicts(op, x, y) && WellTyped(v)
    ensures Apply(op, Eval(x, v), Eval(y, v)) == Eval(Zero(op), v) <==> !(Eval(x, v) == MOD && Eval(y, v) == MOD)
  {
    YmnDistinct();
    TransformMeaning(Not(x), v);
    ExtractCommonCovers(op, Transform(Not(x)), y, v);
  }

  ghost predicate Drops(op: Op, e: Expr, r: Pass) {
    && SameGroup(op, e, r.e)
    && Size(r.e) <= Size(e)
    && (r.fired == 0 ==> r.e == e)
    && (r.fired > 0 ==> Size(r.e) < Size(e))
  }

  // The tail of expr_eliminate_dups2, for an operand slot `p` and any slot `q`.
  function ContradictSlots(op: Op, e: Expr, p: Slot, q: Slot, x: Pass): (r: Pass)
    requires IsSlot(op, e, p) && IsSlot(op, e, q) && !IsOp(op, Get(op, e, p)) && !IsOp(op, x.e)
  {
    SetOperand(op, e, p, x.e);
    var f := Set(op, e, p, x.e);
    SameGroupSlot(op, e, f, q);
    if Contradicts(op, x.e, Get(op, f, q)) then Pass(Set(op, f, p, Zero(op)), x.fired + 1) else Pass(f, x.fired)
  }

  lemma ContradictSlotsDrops(op: Op, e: Expr, p: Slot, q: Slot, x: Pass)
    requires IsSlot(op, e, p) && IsSlot(op, e, q) && !IsOp(op, Get(op, e, p)) && !IsOp(op, x.e) && x.e.Bin?
    requires Drops(Dual(op), Get(op, e, p), x)
    ensures Drops(op, e, ContradictSlots(op, e, p, q, x))
  {
    SetOperand(op, e, p, x.e);
    var f := Set(op, e, p, x.e);
    if x.fired == 0 {
      SetSame(op, e, p);
    }
    SetOperand(op, f, p, Zero(op));
    SameGroupTrans(op, e, f, Set(op, f, p, Zero(op)));
  }

  // expr_eliminate_dups2(type, ep1, ep2); the second group is compared whole after its parts
  function ContradictPass(op: Op, e: Expr, p: Slot, q: Slot): (r: Pass)
    requires IsSlot(op, e, p) && IsSlot(op, e, q)
    ensures Drops(op, e, r)
    decreases Size(e), GroupSize(op, Get(op, e, p)) + GroupSize(op, Get(op, e, q)), 1
  {
    var ep, eq := Get(op, e, p), Get(op, e, q);
    if IsOp(op, ep) then
      SlotChild(op, e, p, Left);
      var r := ContradictPass(op, e, p + [Left], q);
      SameGroupSlot(op, e, r.e, p);
      SameGroupSlot(op, e, r.e, q);
      SlotChild(op, r.e, p, Right);
      var t := ContradictPass(op, r.e, p + [Right], q);
      SameGroupTrans(op, e, r.e, t.e);
      Pass(t.e, r.fired + t.fired)
    else if IsOp(op, eq) then
      SlotChild(op, e, q, Left);
      var r := ContradictPass(op, e, p, q + [Left]);
      SameGroupSlot(op, e, r.e, p);
      SameGroupSlot(op, e, r.e, q);
      SlotChild(op, r.e, q, Right);
      var t := ContradictPass(op, r.e, p, q + [Right]);
      SameGroupTrans(op, e, r.e, t.e);
      SameGroupSlot(op, e, t.e, p);
      SameGroupSlot(op, e, t.e, q);
      var u := ContradictOperand(op, t.e, p, q);
      SameGroupTrans(op, e, t.e, u.e);
      Pass(u.e, r.fired + t.fired + u.fired)
    else
      ContradictOperand(op, e, p, q)
  }

  function ContradictOperand(op: Op, e: Expr, p: Slot, q: Slot): (r: Pass)
    requires IsSlot(op, e, p) && IsSlot(op, e, q) && !IsOp(op, Get(op, e, p))
    ensures Drops(op, e, r)
    decreases Size(e), GroupSize(op, Get(op, e, q)), 0
  {
    var ep := Get(op, e, p);
    SameGroupRefl(op, e);
    if p == q || !ep.Bin? then Pass(e, 0)
    else
      OperandSmaller(op, e, p);
      var x := ContradictPass(ep.op, ep, [], []);
      ContradictSlotsDrops(op, e, p, q, x);
      ContradictSlots(op, e, p, q, x)
  }

  lemma {:induction false} ContradictPassKeeps(op: Op, e: Expr, p: Slot, q: Slot, k: Property)
    requires IsSlot(op, e, p) && IsSlot(op, e, q) && Kept(e, k)
    ensures Kept(ContradictPass(op, e, p, q).e, k)
    decreases Size(e), GroupSize(op, Get(op, e, p)) + GroupSize(op, Get(op, e, q)), 1
  {
    hide Kept;
    var ep, eq := Get(op, e, p), Get(op, e, q);
    if IsOp(op, ep) {
      SlotChild(op, e, p, Left);
      var r := ContradictPass(op, e, p + [Left], q);
      SameGroupSlot(op, e, r.e, p);
      SameGroupSlot(op, e, r.e, q);
      SlotChild(op, r.e, p, Right);
      ContradictPassKeeps(op, e, p + [Left], q, k);
      ContradictPassKeeps(op, r.e, p + [Right], q, k);
    } else if IsOp(op, eq) {
      SlotChild(op, e, q, Left);
      var r := ContradictPass(op, e, p, q + [Left]);
      SameGroupSlot(op, e, r.e, p);
      SameGroupSlot(op, e, r.e, q);
      SlotChild(op, r.e, q, Right);
      var t := ContradictPass(op, r.e, p, q + [Right]);
      ContradictPassKeeps(op, e, p, q + [Left], k);
      ContradictPassKeeps(op, r.e, p, q + [Right], k);
      SameGroupTrans(op, e, r.e, t.e);
      SameGroupSlot(op, e, t.e, p);
      SameGroupSlot(op, e, t.e, q);
      ContradictOperandKeeps(op, t.e, p, q, k);
    } else {
      ContradictOperandKeeps(op, e, p, q, k);
    }
  }

  lemma {:induction false} ContradictOperandKeeps(op: Op, e: Expr, p: Slot, q: Slot, k: Property)
    requires IsSlot(op, e, p) && IsSlot(op, e, q) && !IsOp(op, Get(op, e, p)) && Kept(e, k)
    ensures Kept(ContradictOperand(op, e, p, q).e, k)
    decreases Size(e), GroupSize(op, Get(op, e, q)), 0
  {
    hide Kept;
    var ep := Get(op, e, p);
    if p != q && ep.Bin? {
      OperandSmaller(op, e, p);
      SlotKept(op, e, p, ep, k);
      ContradictPassKeeps(ep.op, ep, [], [], k);
      var x := ContradictPass(ep.op, ep, [], []);
      SetOperand(op, e, p, x.e);
      SlotKept(op, e, p, x.e, k);
      YnKept(op, k);
      SlotKept(op, Set(op, e, p, x.e), p, Zero(op), k);
    }
  }

  /** Dropping contradicted operands is exact where the operands are not m. */
  lemma {:induction false} ContradictPassMeaning(op: Op, e: Expr, p: Slot, q: Slot, v: Valuation)
    requires IsSlot(op, e, p) && IsSlot(op, e, q) && WellTyped(v) && TwoValued(e, v)
    ensures Eval(ContradictPass(op, e, p, q).e, v) == Eval(e, v)
    decreases Size(e), GroupSize(op, Get(op, e, p)) + GroupSize(op, Get(op, e, q)), 1
  {
    var ep, eq := Get(op, e, p), Get(op, e, q);
    if IsOp(op, ep) {
      SlotChild(op, e, p, Left);
      var r := ContradictPass(op, e, p + [Left], q);
      SameGroupSlot(op, e, r.e, p);
      SameGroupSlot(op, e, r.e, q);
      SlotChild(op, r.e, p, Right);
      ContradictPassKeeps(op, e, p + [Left], q, WithoutM(v));
      ContradictPassMeaning(op, e, p + [Left], q, v);
      ContradictPassMeaning(op, r.e, p + [Right], q, v);
    } else if IsOp(op, eq) {
      SlotChild(op, e, q, Left);
      var r := ContradictPass(op, e, p, q + [Left]);
      SameGroupSlot(op, e, r.e, p);
      SameGroupSlot(op, e, r.e, q);
      SlotChild(op, r.e, q, Right);
      var t := ContradictPass(op, r.e, p, q + [Right]);
      ContradictPassKeeps(op, e, p, q + [Left], WithoutM(v));
      ContradictPassMeaning(op, e, p, q + [Left], v);
      ContradictPassKeeps(op, r.e, p, q + [Right], WithoutM(v));
      ContradictPassMeaning(op, r.e, p, q + [Right], v);
      SameGroupTrans(op, e, r.e, t.e);
      SameGroupSlot(op, e, t.e, p);
      SameGroupSlot(op, e, t.e, q);
      ContradictOperandMeaning(op, t.e, p, q, v);
    } else {
      ContradictOperandMeaning(op, e, p, q, v);
    }
  }

  lemma {:induction false} ContradictOperandMeaning(op: Op, e: Expr, p: Slot, q: Slot, v: Valuation)
    requires IsSlot(op, e, p) && IsSlot(op, e, q) && !IsOp(op, Get(op, e, p)) && WellTyped(v) && TwoValued(e, v)
    ensures Eval(ContradictOperand(op, e, p, q).e, v) == Eval(e, v)
    decreases Size(e), GroupSize(op, Get(op, e, q)), 0
  {
    var ep := Get(op, e, p);
    if p != q && ep.Bin? {
      OperandSmaller(op, e, p);
      SlotKept(op, e, p, ep, WithoutM(v));
      ContradictPassKeeps(ep.op, ep, [], [], WithoutM(v));
      ContradictPassMeaning(ep.op, ep, [], [], v);
      ContradictSlotsMeaning(op, e, p, q, ContradictPass(ep.op, ep, [], []), v);
    }
  }

  lemma ContradictSlotsMeaning(op: Op, e: Expr, p: Slot, q: Slot, x: Pass, v: Valuation)
    requires IsSlot(op, e, p) && IsSlot(op, e, q) && !IsOp(op, Get(op, e, p)) && !IsOp(op, x.e)
    requires WellTyped(v) && TwoValued(x.e, v) && Eval(x.e, v) == Eval(Get(op, e, p), v)
    ensures Eval(ContradictSlots(op, e, p, q, x).e, v) == Eval(e, v)
  {
    hide Apply, Contradicts, Eval, TwoValued, WellTyped;
    SetOperand(op, e, p, x.e);
    var f := Set(op, e, p, x.e);
    SlotValue(op, e, p, x.e, v);
    SameGroupSlot(op, e, f, q);
    var fq := Get(op, f, q);
    if Contradicts(op, x.e, fq) {
      ContradictsValue(op, x.e, fq, v);
      SlotValue(op, f, p, Zero(op), v);
      SlotValue(op, f, q, fq, v);
      ZeroMeets(op, Eval(x.e, v), Eval(fq, v), Rest(op, f, p, v), Rest(op, f, q, v), v);
    }
  }

  // What is below both of two contradicting operands is the zero.
  lemma ZeroMeets(op: Op, x: Tristate, y: Tristate, r: Tristate, t: Tristate, v: Valuation)
    requires Apply(op, x, y) == Eval(Zero(op), v) && Apply(op, x, r) == Apply(op, y, t)
    ensures Apply(op, x, r) == Eval(Zero(op), v) == Apply(op, Eval(Zero(op), v), r)
  {
    YmnDistinct();
  }

  // ----- expr_eliminate_dups -----

  // One turn of the loop on an && or || root.
  function DupsPass(e: Expr): (r: Pass)
    requires e.Bin?
    ensures r.e.Bin?
    ensures r.fired == 0 ==> r.e == e
    ensures r.fired > 0 ==> Size(EliminateYn(r.e)) < Size(e)
  {
    var j := JoinPass(e.op, e, [], []);
    var c := ContradictPass(e.op, j.e, [], []);
    if HasYnOperand(c.e) then
      EliminateYnShrinks(c.e);
      Pass(c.e, j.fired + c.fired)
    else
      Pass(c.e, j.fired + c.fired)
  }

  function EliminateDups(e: Expr): (r: Expr)
    decreases Size(e)
  {
    if !e.Bin? then e else
    var p := DupsPass(e);
    if p.fired == 0 then e else EliminateDups(EliminateYn(p.e))
  }

  /** expr_eliminate_dups as the loop over trans_count; it stops because every turn that fires
      leaves fewer nodes. */
  method ExprEliminateDups(e0: Expr) returns (e: Expr)
    ensures e == EliminateDups(e0)
    ensures !e.Bin? || DupsPass(e).fired == 0
  {
    e := e0;
    while true
      invariant EliminateDups(e) == EliminateDups(e0)
      decreases Size(e)
    {
      var transCount := 0;
      if e.Bin? {
        var p := DupsPass(e);
        transCount := transCount + p.fired;
        e := p.e;
      }
      if transCount == 0 {
        break;
      }
      e := EliminateYn(e);
    }
  }

  lemma {:induction false} DupsPassMeaning(e: Expr, v: Valuation)
    requires e.Bin? && WellTyped(v) && TwoValued(e, v)
    ensures Eval(DupsPass(e).e, v) == Eval(e, v) && TwoValued(DupsPass(e).e, v)
  {
    var j := JoinPass(e.op, e, [], []);
    JoinPassMeaning(e.op, e, [], [], v);
    JoinPassKeeps(e.op, e, [], [], WithoutM(v));
    ContradictPassMeaning(e.op, j.e, [], [], v);
    ContradictPassKeeps(e.op, j.e, [], [], WithoutM(v));
  }

  /** The optimised expression has the value of the original wherever no symbol in it is m. */
  lemma {:induction false} EliminateDupsMeaning(e: Expr, v: Valuation)
    requires WellTyped(v) && TwoValued(e, v)
    ensures Eval(EliminateDups(e), v) == Eval(e, v) && TwoValued(EliminateDups(e), v)
    decreases Size(e)
  {
    if e.Bin? && DupsPass(e).fired > 0 {
      var p := DupsPass(e);
      DupsPassMeaning(e, v);
      EliminateYnMeaning(p.e, v);
      EliminateYnTwoValued(p.e, v);
      EliminateDupsMeaning(EliminateYn(p.e), v);
    }
  }

  lemma {:induction false} EliminateYnKeeps(e: Expr, k: Property)
    requires Kept(e, k)
    ensures Kept(EliminateYn(e), k)
  {
    if e.Bin? {
      EliminateYnKeeps(e.a, k);
      EliminateYnKeeps(e.b, k);
    }
  }

  lemma {:induction false} EliminateDupsKeeps(e: Expr, k: Property)
    requires Kept(e, k)
    ensures Kept(EliminateDups(e), k)
    decreases Size(e)
  {
    if e.Bin? && DupsPass(e).fired > 0 {
      hide Kept;
      var p := DupsPass(e);
      JoinPassKeeps(e.op, e, [], [], k);
      ContradictPassKeeps(e.op, JoinPass(e.op, e, [], []).e, [], [], k);
      EliminateYnKeeps(p.e, k);
      EliminateDupsKeeps(EliminateYn(p.e), k);
    }
  }

  /** Negation normal form is kept, so expr_trans_bool may follow. */
  lemma EliminateDupsNormalised(e: Expr)
    requires Normalised(e)
    ensures Normalised(EliminateDups(e))
  {
    EliminateDupsKeeps(e, NormalForm);
  }

  /** With a symbol at m the contradiction rule is not exact: it finds (s || t) and (!s && !t)
      contradictory although their conjunction is m. */
  lemma ContradictsNeedsTwoValued(s: Symbol, t: Symbol, v: Valuation)
    requires s.IsTristate() && t.IsTristate() && s != t && v.tri(s) == MOD && v.tri(t) == MOD
    ensures var x, y := Bin(OrOp, Sym(s), Sym(t)), Bin(AndOp, Not(Sym(s)), Not(Sym(t)));
      Contradicts(AndOp, x, y) && Eval(Bin(AndOp, x, y), v) == MOD
  {
    var x := Bin(OrOp, Sym(s), Sym(t));
    var ns, nt := Not(Sym(s)), Not(Sym(t));
    var y := Bin(AndOp, ns, nt);
    assert Transform(ns) == ns && Transform(nt) == nt;
    assert Transform(Not(x)) == Transform(PushNot(x)) == y;
    AllAtM(Sym(s), Sym(t), v);
    NegationsDiffer(s, t);
    hide Transform, Eval, ExprEq;
    PairCancels(ns, nt);
  }

  lemma AllAtM(a: Expr, b: Expr, v: Valuation)
    requires Eval(a, v) == MOD && Eval(b, v) == MOD
    ensures var x, y := Bin(OrOp, a, b), Bin(AndOp, Not(a), Not(b)); Eval(Bin(AndOp, x, y), v) == MOD
  {
    assert Eval(Not(a), v) == MOD && Eval(Not(b), v) == MOD;
    assert Eval(Bin(OrOp, a, b), v) == MOD && Eval(Bin(AndOp, Not(a), Not(b)), v) == MOD;
  }

  lemma NegationsDiffer(s: Symbol, t: Symbol)
    requires s.IsTristate() && t.IsTristate() && s != t
    ensures var ns, nt := Not(Sym(s)), Not(Sym(t));
      && ExprEq(ns, ns) && ExprEq(nt, nt) && !ExprEq(ns, nt) && !ExprEq(nt, ns)
      && !ExprEq(ExprYes, nt) && !ExprEq(nt, ExprYes)
  {
    assert ExprEq(Sym(s), Sym(s)) && ExprEq(Sym(t), Sym(t)) && !ExprEq(Sym(s), Sym(t)) && !ExprEq(Sym(t), Sym(s));
  }

  // Extracting a conjunction of two operands from itself leaves y.
  lemma PairCancels(a: Expr, b: Expr)
    requires a.Not? && b.Not? && ExprEq(a, a) && ExprEq(b, b) && !ExprEq(a, b) && !ExprEq(b, a)
    requires !ExprEq(ExprYes, b) && !ExprEq(b, ExprYes)
    ensures var y := Bin(AndOp, a, b); ExtractCommon(AndOp, y, y).e1 == ExprYes
  {
    hide ExprEq;
    var y, y1 := Bin(AndOp, a, b), Bin(AndOp, ExprYes, b);
    assert ExtractEq(AndOp, None, a, a) == Extraction(Some(a), ExprYes, ExprYes);
    assert ExtractEq(AndOp, Some(a), ExprYes, b) == Extraction(Some(a), ExprYes, b);
    assert ExtractEq(AndOp, None, a, y) == Extraction(Some(a), ExprYes, y1);
    assert ExtractEq(AndOp, Some(a), b, ExprYes) == Extraction(Some(a), b, ExprYes);
    assert ExtractEq(AndOp, Some(a), b, b) == Extraction(Some(y), ExprYes, ExprYes);
    assert ExtractEq(AndOp, Some(a), b, y1) == Extraction(Some(y), ExprYes, Bin(AndOp, ExprYes, ExprYes));
    assert ExtractEq(AndOp, None, y, y).e1 == Bin(AndOp, ExprYes, ExprYes);
    assert EliminateYn(Bin(AndOp, ExprYes, ExprYes)) == ExprYes;
  }
}
