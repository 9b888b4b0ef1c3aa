/** Slots: positions in the `op` group at the root of a tree. A slot stands for a `struct expr **`
    argument, so two slots of one tree model the aliased calls of expr_eliminate_dups. */
module Slots {
  import opened Expr

  datatype Side = Left | Right
  type Slot = seq<Side>

  function Child(e: Expr, side: Side): Expr
    requires e.Bin?
  {
    if side.Left? then e.a else e.b
  }

  function Sibling(e: Expr, side: Side): Expr
    requires e.Bin?
  {
    if side.Left? then e.b else e.a
  }

  function WithChild(e: Expr, side: Side, x: Expr): Expr
    requires e.Bin?
  {
    if side.Left? then Bin(e.op, x, e.b) else Bin(e.op, e.a, x)
  }

  // Every node above the slot is an `op` node.
  predicate IsSlot(op: Op, e: Expr, p: Slot) {
    p == [] || (IsOp(op, e) && IsSlot(op, Child(e, p[0]), p[1..]))
  }

  function Get(op: Op, e: Expr, p: Slot): Expr
    requires IsSlot(op, e, p)
  {
    if p == [] then e else Get(op, Child(e, p[0]), p[1..])
  }

  function Set(op: Op, e: Expr, p: Slot, x: Expr): Expr
    requires IsSlot(op, e, p)
  {
    if p == [] then x else WithChild(e, p[0], Set(op, Child(e, p[0]), p[1..], x))
  }

  // The two trees have the same `op` group nodes; their operands may differ.
  predicate SameGroup(op: Op, e: Expr, f: Expr) {
    IsOp(op, e) == IsOp(op, f) && (IsOp(op, e) ==> SameGroup(op, e.a, f.a) && SameGroup(op, e.b, f.b))
  }

  function GroupSize(op: Op, e: Expr): (n: nat) {
    if IsOp(op, e) then 1 + GroupSize(op, e.a) + GroupSize(op, e.b) else 0
  }

  lemma {:induction false} SameGroupRefl(op: Op, e: Expr)
    ensures SameGroup(op, e, e)
  {
    if IsOp(op, e) {
      SameGroupRefl(op, e.a);
      SameGroupRefl(op, e.b);
    }
  }

  lemma {:induction false} SameGroupTrans(op: Op, e: Expr, f: Expr, g: Expr)
    requires SameGroup(op, e, f) && SameGroup(op, f, g)
    ensures SameGroup(op, e, g)
  {
    if IsOp(op, e) {
      SameGroupTrans(op, e.a, f.a, g.a);
      SameGroupTrans(op, e.b, f.b, g.b);
    }
  }

  // Slots survive a change of operands.
  lemma {:induction false} SameGroupSlot(op: Op, e: Expr, f: Expr, p: Slot)
    requires SameGroup(op, e, f) && IsSlot(op, e, p)
    ensures IsSlot(op, f, p)
    ensures SameGroup(op, Get(op, e, p), Get(op, f, p))
    ensures GroupSize(op, Get(op, e, p)) == GroupSize(op, Get(op, f, p))
    decreases |p|, e
  {
    if p != [] {
      SameGroupSlot(op, Child(e, p[0]), Child(f, p[0]), p[1..]);
    } else if IsOp(op, e) {
      SameGroupSlot(op, e.a, f.a, []);
      SameGroupSlot(op, e.b, f.b, []);
    }
  }

  lemma {:induction false} SlotChild(op: Op, e: Expr, p: Slot, side: Side)
    requires IsSlot(op, e, p) && IsOp(op, Get(op, e, p))
    ensures IsSlot(op, e, p + [side])
    ensures Get(op, e, p + [side]) == Child(Get(op, e, p), side)
  {
    if p == [] {
      assert (p + [side])[1..] == [];
    } else {
      SlotChild(op, Child(e, p[0]), p[1..], side);
      assert (p + [side])[1..] == p[1..] + [side];
    }
  }

  // Writing an operand slot keeps the group, sets that operand and changes the size accordingly.
  lemma {:induction false} SetOperand(op: Op, e: Expr, p: Slot, x: Expr)
    requires IsSlot(op, e, p) && !IsOp(op, Get(op, e, p)) && !IsOp(op, x)
    ensures SameGroup(op, e, Set(op, e, p, x))
    ensures IsSlot(op, Set(op, e, p, x), p) && Get(op, Set(op, e, p, x), p) == x
    ensures Size(Set(op, e, p, x)) == Size(e) - Size(Get(op, e, p)) + Size(x)
  {
    if p != [] {
      SetOperand(op, Child(e, p[0]), p[1..], x);
      SameGroupRefl(op, Sibling(e, p[0]));
    }
  }

  // Two different operand slots are independent.
  lemma {:induction false} SetOther(op: Op, e: Expr, p: Slot, q: Slot, x: Expr)
    requires IsSlot(op, e, p) && IsSlot(op, e, q) && p != q
    requires !IsOp(op, Get(op, e, p)) && !IsOp(op, Get(op, e, q))
    ensures IsSlot(op, Set(op, e, p, x), q) && Get(op, Set(op, e, p, x), q) == Get(op, e, q)
  {
    if p != [] && q != [] && p[0] == q[0] {
      assert p[1..] != q[1..] by {
        assert p == [p[0]] + p[1..] && q == [q[0]] + q[1..];
      }
      SetOther(op, Child(e, p[0]), p[1..], q[1..], x);
    }
  }

  // ----- values -----

  // The combined value of everything in the group outside the slot.
  ghost function Rest(op: Op, e: Expr, p: Slot, v: Valuation): Tristate
    requires IsSlot(op, e, p)
  {
    if p == [] then Eval(Unit(op), v)
    else Apply(op, Eval(Sibling(e, p[0]), v), Rest(op, Child(e, p[0]), p[1..], v))
  }

  lemma {:induction false} SlotValue(op: Op, e: Expr, p: Slot, x: Expr, v: Valuation)
    requires IsSlot(op, e, p)
    ensures Eval(e, v) == Apply(op, Eval(Get(op, e, p), v), Rest(op, e, p, v))
    ensures Eval(Set(op, e, p, x), v) == Apply(op, Eval(x, v), Rest(op, e, p, v))
  {
    hide Apply;
    if p == [] {
      UnitFactor(op, Eval(e, v), v);
      UnitFactor(op, Eval(x, v), v);
    } else {
      SlotValue(op, Child(e, p[0]), p[1..], x, v);
      var sibling, r := Eval(Sibling(e, p[0]), v), Rest(op, Child(e, p[0]), p[1..], v);
      ApplyMove(op, Eval(Get(op, e, p), v), sibling, r);
      ApplyMove(op, Eval(x, v), sibling, r);
    }
  }

  lemma ApplyMove(op: Op, x: Tristate, s: Tristate, r: Tristate)
    ensures Apply(op, Apply(op, x, r), s) == Apply(op, x, Apply(op, s, r)) == Apply(op, s, Apply(op, x, r))
  {
  }

  lemma ApplyTwoPairs(op: Op, x: Tristate, r: Tristate, y: Tristate, t: Tristate)
    ensures Apply(op, Apply(op, x, r), Apply(op, y, t)) == Apply(op, Apply(op, x, y), Apply(op, r, t))
    ensures Apply(op, Apply(op, y, t), Apply(op, x, r)) == Apply(op, Apply(op, x, y), Apply(op, r, t))
  {
  }

  // The two slots part at the root.
  lemma TwoSlotsApart(op: Op, e: Expr, p: Slot, q: Slot, x: Expr, y: Expr, v: Valuation)
    requires p != [] && q != [] && p[0] != q[0] && IsSlot(op, e, p) && IsSlot(op, e, q)
    requires IsSlot(op, Set(op, e, p, x), q)
    requires Apply(op, Eval(x, v), Eval(y, v)) == Apply(op, Eval(Get(op, e, p), v), Eval(Get(op, e, q), v))
    ensures Eval(Set(op, Set(op, e, p, x), q, y), v) == Eval(e, v)
  {
    var ep, eq := Child(e, p[0]), Child(e, q[0]);
    SlotValue(op, ep, p[1..], x, v);
    SlotValue(op, eq, q[1..], y, v);
    var rp, rq := Rest(op, ep, p[1..], v), Rest(op, eq, q[1..], v);
    ApplyTwoPairs(op, Eval(x, v), rp, Eval(y, v), rq);
    ApplyTwoPairs(op, Eval(Get(op, e, p), v), rp, Eval(Get(op, e, q), v), rq);
    var f := Set(op, Set(op, e, p, x), q, y);
    assert Child(f, p[0]) == Set(op, ep, p[1..], x) && Child(f, q[0]) == Set(op, eq, q[1..], y);
  }

  /** Replacing two operands by two others with the same combined value keeps the value of the tree. */
  lemma {:induction false} TwoSlotsValue(op: Op, e: Expr, p: Slot, q: Slot, x: Expr, y: Expr, v: Valuation)
    requires IsSlot(op, e, p) && IsSlot(op, e, q) && p != q
    requires !IsOp(op, Get(op, e, p)) && !IsOp(op, Get(op, e, q))
    requires IsSlot(op, Set(op, e, p, x), q)
    requires Apply(op, Eval(x, v), Eval(y, v)) == Apply(op, Eval(Get(op, e, p), v), Eval(Get(op, e, q), v))
    ensures Eval(Set(op, Set(op, e, p, x), q, y), v) == Eval(e, v)
  {
    if p[0] != q[0] {
      TwoSlotsApart(op, e, p, q, x, y, v);
    } else {
      var c := Child(e, p[0]);
      assert p[1..] != q[1..] by {
        assert p == [p[0]] + p[1..] && q == [q[0]] + q[1..];
      }
      SetOther(op, c, p[1..], q[1..], x);
      TwoSlotsValue(op, c, p[1..], q[1..], x, y, v);
      assert Set(op, Set(op, e, p, x), q, y) == WithChild(e, p[0], Set(op, Set(op, c, p[1..], x), q[1..], y));
    }
  }

  // ----- constants left behind in a group -----

  // A y or n sits directly below some && or || that expr_eliminate_yn reaches.
  predicate HasYnOperand(e: Expr) {
    e.Bin? && (IsYn(e.a) || IsYn(e.b) || HasYnOperand(e.a) || HasYnOperand(e.b))
  }

  lemma {:induction false} EliminateYnShrinks(e: Expr)
    requires HasYnOperand(e)
    ensures Size(EliminateYn(e)) < Size(e)
  {
    if HasYnOperand(e.a) {
      EliminateYnShrinks(e.a);
    } else if HasYnOperand(e.b) {
      EliminateYnShrinks(e.b);
    }
  }

  /** Nothing is left to eliminate. */
  lemma {:induction false} EliminateYnComplete(e: Expr)
    ensures !HasYnOperand(EliminateYn(e))
  {
    if e.Bin? {
      EliminateYnComplete(e.a);
      EliminateYnComplete(e.b);
    }
  }

  lemma {:induction false} SlotYn(op: Op, e: Expr, p: Slot)
    requires IsSlot(op, e, p)
    requires HasYnOperand(Get(op, e, p)) || (p != [] && IsYn(Get(op, e, p)))
    ensures HasYnOperand(e)
  {
    if |p| == 1 {
      assert Get(op, e, p) == Child(e, p[0]);
    }
    if |p| > 1 || (p != [] && HasYnOperand(Get(op, e, p))) {
      SlotYn(op, Child(e, p[0]), p[1..]);
    }
  }
}
