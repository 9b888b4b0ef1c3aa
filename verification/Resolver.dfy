/** sym_calc_value and its neighbours: values cached in the symbols, recomputed on demand. */
module Resolver {
  import opened Wrappers
  import opened Expr
  import opened Semantics

  // The calculated fields of a `struct symbol`: curr, visible, dir_dep.tri and rev_dep.tri.
  datatype Fields = Fields(curr: SymValue, visible: Tristate, dirTri: Tristate, revTri: Tristate)

  const Unset := Fields(SymValue("", NO), NO, NO, NO)

  predicate HasFields(s: Symbol) {
    s.Config? && !s.ty.UnknownType?
  }

  // Symbols without fields of their own, and the raw text of the others.
  lemma ConstantSolved(k: Kconfig, u: UserValues, v: Valuation, s: Symbol)
    requires Solution(k, u, v)
    ensures s.Const? ==> v.tri(s) == ConstTri(s.name)
    ensures !HasFields(s)
      ==> SymValue(v.text(s), v.tri(s)) == SymValue(s.name, if s.Const? then ConstTri(s.name) else NO)
    ensures s.Config? && TriType(s.ty) ==> v.text(s) == "n"
  {
    assert Calc(s, DefOf(k, s), UserOf(u, s), v) == SymValue(v.text(s), v.tri(s));
  }

  lemma SolutionModules(k: Kconfig, u: UserValues, v: Valuation)
    requires Solution(k, u, v)
    ensures v.modules == k.modules
  {
  }

  // The fields of the symbols in `done` hold what the valuation `v` says.
  ghost predicate AllCorrect(k: Kconfig, v: Valuation, done: set<Symbol>, fields: map<Symbol, Fields>) {
    && (forall s :: s in done ==> s in fields && fields[s].curr == SymValue(v.text(s), v.tri(s)))
    && (forall s {:trigger fields[s].visible} ::
          s in done && HasFields(s) ==> fields[s].visible == Visibility(s.ty, DefOf(k, s), v))
    && (forall s {:trigger fields[s].dirTri} ::
          s in done && HasFields(s) ==> fields[s].dirTri == DirectDep(DefOf(k, s), v))
    && (forall s {:trigger fields[s].revTri} ::
          s in done && HasFields(s) ==> fields[s].revTri == ReverseDep(s.ty, DefOf(k, s), v))
  }

  // Setting the fields of a symbol whose fields are not relied on.
  lemma CorrectOther(k: Kconfig, v: Valuation, done: set<Symbol>, fields: map<Symbol, Fields>, s: Symbol, f: Fields)
    requires AllCorrect(k, v, done, fields) && s !in done
    ensures AllCorrect(k, v, done, fields[s := f])
  {
    hide Visibility, DirectDep, ReverseDep;
  }

  ghost predicate FieldsRight(k: Kconfig, v: Valuation, s: Symbol, f: Fields)
    requires HasFields(s)
  {
    && f.curr == SymValue(v.text(s), v.tri(s)) && f.visible == Visibility(s.ty, DefOf(k, s), v)
    && f.dirTri == DirectDep(DefOf(k, s), v) && f.revTri == ReverseDep(s.ty, DefOf(k, s), v)
  }

  lemma CorrectAdd(k: Kconfig, v: Valuation, done: set<Symbol>, fields: map<Symbol, Fields>, s: Symbol, f: Fields)
    requires AllCorrect(k, v, done, fields) && HasFields(s) && FieldsRight(k, v, s, f)
    ensures AllCorrect(k, v, done + {s}, fields[s := f])
  {
    hide Visibility, DirectDep, ReverseDep;
  }

  // Everything calculated for `s` is the same in both valuations.
  ghost predicate SameAt(k: Kconfig, v: Valuation, w: Valuation, s: Symbol) {
    && v.text(s) == w.text(s) && v.tri(s) == w.tri(s)
    && (HasFields(s) ==>
          && Visibility(s.ty, DefOf(k, s), v) == Visibility(s.ty, DefOf(k, s), w)
          && DirectDep(DefOf(k, s), v) == DirectDep(DefOf(k, s), w)
          && ReverseDep(s.ty, DefOf(k, s), v) == ReverseDep(s.ty, DefOf(k, s), w))
  }

  lemma CorrectSame(k: Kconfig, v: Valuation, w: Valuation, done: set<Symbol>, fields: map<Symbol, Fields>)
    requires AllCorrect(k, v, done, fields) && forall s :: s in done ==> SameAt(k, v, w, s)
    ensures AllCorrect(k, w, done, fields)
  {
    hide Visibility, DirectDep, ReverseDep;
  }

  // `write` is right for the symbols in `now` but not in `was`, and as before for the others.
  ghost predicate WriteStep(
    k: Kconfig, v: Valuation, was: set<Symbol>, now: set<Symbol>, before: set<Symbol>, write: set<Symbol>,
    own: set<Symbol>)
  {
    forall s ::
      s !in own ==> (s in write <==> if s in now && s !in was then Written(s, DefOf(k, s), v) else s in before)
  }

  // A symbol that was not valid is recalculated.
  lemma WriteRecalculated(
    k: Kconfig, v: Valuation, was: set<Symbol>, now: set<Symbol>, before: set<Symbol>, write: set<Symbol>, s: Symbol)
    requires WriteStep(k, v, was + {s}, now, before - {s}, write, {s}) && s !in was && s in now
    requires s in write <==> Written(s, DefOf(k, s), v)
    ensures WriteStep(k, v, was, now, before, write, {})
  {
    hide Written;
  }

  // Symbols valid before keep their fields, except those in `own`.
  ghost predicate FieldsKept(valid: set<Symbol>, was: map<Symbol, Fields>, now: map<Symbol, Fields>, own: set<Symbol>) {
    forall s :: s in was && s in valid && s !in own ==> s in now && now[s] == was[s]
  }

  lemma FieldsRecalculated(
    valid: set<Symbol>, was: map<Symbol, Fields>, f: Fields, now: map<Symbol, Fields>, g: Fields, s: Symbol)
    requires FieldsKept(valid + {s}, was[s := f], now, {s}) && s !in valid
    ensures FieldsKept(valid, was, now[s := g], {})
  {
  }

  /** The symbol table: one entry per `struct symbol` in each field. */
  class SymbolTable {
    const k: Kconfig
    const modulesSym: Option<Symbol>
    ghost const rank: Symbol -> nat

    var user: UserValues            // def[S_DEF_USER], present when SYMBOL_DEF_USER is set
    var valid: set<Symbol>          // SYMBOL_VALID
    var write: set<Symbol>          // SYMBOL_WRITE
    var fields: map<Symbol, Fields>
    ghost var busy: set<Symbol>     // marked valid, but still being calculated
    ghost var truth: Valuation      // the uncached values

    /** Every symbol marked valid holds the value of the uncached definition. */
    ghost predicate Valid()
      reads this
    {
      && Acyclic(k, rank) && Solution(k, user, truth) && busy <= valid
      && AllCorrect(k, truth, valid - busy, fields)
      && (forall s :: s in write ==> HasFields(s))
    }

    // Nothing of rank below `n` is being calculated.
    ghost predicate IdleBelow(n: nat)
      reads this
    {
      forall s :: s in busy ==> n <= rank(s)
    }

    // What a calculation does: it adds valid symbols, with SYMBOL_WRITE as it must be for them, and
    // leaves the symbols alone that were marked valid before, except those in `own`.
    twostate predicate ExtendsBut(own: set<Symbol>)
      reads this
    {
      && user == old(user) && truth == old(truth) && busy == old(busy) && old(valid) <= valid
      && WriteStep(k, truth, old(valid), valid, old(write), write, own)
      && FieldsKept(old(valid), old(fields), fields, own)
    }

    twostate predicate Extends()
      reads this
    {
      ExtendsBut({})
    }

    constructor (k: Kconfig, modulesSym: Option<Symbol>, user: UserValues, ghost rank: Symbol -> nat)
      requires Acyclic(k, rank)
      ensures Valid() && this.k == k && this.modulesSym == modulesSym && this.user == user && this.rank == rank
      ensures valid == {} && busy == {}
    {
      this.k, this.modulesSym, this.user, this.rank := k, modulesSym, user, rank;
      valid, write, fields, busy := {}, {}, map[], {};
      truth := Values(k, user, rank);
      ValuesSolve(k, user, rank);
    }

    // expr_calc_value
    method ExprCalcValue(e: Expr, ghost n: nat) returns (t: Tristate)
      requires Valid() && IdleBelow(n) && forall s :: s in Syms(e) ==> rank(s) < n
      modifies this
      ensures Valid() && Extends() && t == Eval(e, truth)
      decreases n, 0, Size(e)
    {
      match e
      case Sym(s) =>
        CalcValue(s);
        ConstantSolved(k, user, truth, s);
        t := fields[s].curr.tri;
      case Equal(l, r) =>
        CalcValue(l);
        CalcValue(r);
        var x := StringValue(l);
        var y := StringValue(r);
        t := Truth(x == y);
      case Unequal(l, r) =>
        CalcValue(l);
        CalcValue(r);
        var x := StringValue(l);
        var y := StringValue(r);
        t := Truth(x != y);
      case Not(x) =>
        var t1 := ExprCalcValue(x, n);
        t := Negate(t1);
      case Bin(op, a, b) =>
        var t1 := ExprCalcValue(a, n);
        var t2 := ExprCalcValue(b, n);
        t := Apply(op, t1, t2);
    }

    method ExprCalcValueOpt(e: Option<Expr>, ghost n: nat) returns (t: Tristate)
      requires Valid() && IdleBelow(n) && forall s :: s in SymsOpt(e) ==> rank(s) < n
      modifies this
      ensures Valid() && Extends() && t == EvalCond(e, truth)
      decreases n, 1
    {
      if e.Some? {
        t := ExprCalcValue(e.value, n);
      } else {
        t := YES;
      }
    }

    // sym_get_string_value
    method StringValue(s: Symbol) returns (text: string)
      requires Valid() && s in valid - busy
      ensures text == TextOf(truth, s)
    {
      ConstantSolved(k, user, truth, s);
      if s.Config? && TriType(s.ty) {
        text := TriText(fields[s].curr.tri, k.modules);
      } else {
        text := fields[s].curr.val;
      }
    }

    // One turn of the loop over the prompts.
    method CalcPrompt(s: Symbol, i: nat, tri: Tristate) returns (t: Tristate)
      requires Valid() && IdleBelow(rank(s)) && i < |DefOf(k, s).prompts|
      requires tri == PromptMax(DefOf(k, s).prompts, i, truth)
      modifies this
      ensures Valid() && Extends() && t == PromptMax(DefOf(k, s).prompts, i + 1, truth)
      decreases rank(s), 2, 0
    {
      UsesPrompt(DefOf(k, s), i);
      t := ExprCalcValueOpt(DefOf(k, s).prompts[i], rank(s));
      t := Apply(OrOp, tri, t);
    }

    method CalcPromptMax(s: Symbol) returns (tri: Tristate)
      requires Valid() && IdleBelow(rank(s))
      modifies this
      ensures Valid() && Extends() && tri == PromptMax(DefOf(k, s).prompts, |DefOf(k, s).prompts|, truth)
      decreases rank(s), 2, 1
    {
      tri := NO;
      var i := 0;
      while i < |DefOf(k, s).prompts|
        invariant i <= |DefOf(k, s).prompts| && Valid() && Extends()
        invariant tri == PromptMax(DefOf(k, s).prompts, i, truth)
      {
        tri := CalcPrompt(s, i, tri);
        i := i + 1;
      }
    }

    // The visibility: the maximum over the prompts, raised to y where m makes no sense.
    method CalcPrompts(s: Symbol) returns (tri: Tristate)
      requires Valid() && IdleBelow(rank(s)) && HasFields(s)
      modifies this
      ensures Valid() && Extends() && tri == Visibility(s.ty, DefOf(k, s), truth)
      decreases rank(s), 2, 2
    {
      tri := CalcPromptMax(s);
      if tri == MOD && (!s.ty.TristateType? || k.modules == NO) {
        tri := YES;
      }
    }

    method CalcDirect(s: Symbol) returns (tri: Tristate)
      requires Valid() && IdleBelow(rank(s))
      modifies this
      ensures Valid() && Extends() && tri == DirectDep(DefOf(k, s), truth)
      decreases rank(s), 2, 0
    {
      tri := ExprCalcValueOpt(DefOf(k, s).dirDep, rank(s));
      if tri == MOD {
        tri := YES;
      }
    }

    method CalcReverse(s: Symbol) returns (tri: Tristate)
      requires Valid() && IdleBelow(rank(s)) && HasFields(s)
      modifies this
      ensures Valid() && Extends() && tri == ReverseDep(s.ty, DefOf(k, s), truth)
      decreases rank(s), 2, 0
    {
      var d := DefOf(k, s);
      tri := NO;
      if d.revDep.Some? {
        tri := ExprCalcValue(d.revDep.value, rank(s));
      }
      if tri == MOD && ActsBoolean(s.ty, k.modules) {
        tri := YES;
      }
    }

    // sym_calc_visibility
    method CalcVisibility(s: Symbol)
      requires Valid() && IdleBelow(rank(s)) && HasFields(s) && s in valid && s in fields
      modifies this
      ensures Valid() && ExtendsBut({s}) && (s in write <==> s in old(write))
      ensures s in fields && fields[s].curr == old(fields)[s].curr
      ensures fields[s].visible == Visibility(s.ty, DefOf(k, s), truth)
      ensures fields[s].dirTri == DirectDep(DefOf(k, s), truth)
      ensures fields[s].revTri == ReverseDep(s.ty, DefOf(k, s), truth)
      decreases rank(s), 2, 3
    {
      var vis := CalcPrompts(s);
      var dir := CalcDirect(s);
      var rev := CalcReverse(s);
      fields := fields[s := fields[s].(visible := vis, dirTri := dir, revTri := rev)];
    }

    method CalcCondition(s: Symbol, i: nat) returns (cond: Tristate)
      requires Valid() && IdleBelow(rank(s)) && i < |DefOf(k, s).defaults|
      modifies this
      ensures Valid() && Extends() && cond == EvalCond(DefOf(k, s).defaults[i].cond, truth)
      decreases rank(s), 2, 0
    {
      UsesDefault(DefOf(k, s), i);
      cond := ExprCalcValueOpt(DefOf(k, s).defaults[i].cond, rank(s));
    }

    // sym_get_default_prop
    method DefaultProp(s: Symbol) returns (i: nat, cond: Tristate)
      requires Valid() && IdleBelow(rank(s))
      modifies this
      ensures Valid() && Extends() && i == ActiveDefault(DefOf(k, s).defaults, truth)
      ensures i < |DefOf(k, s).defaults| ==> cond == EvalCond(DefOf(k, s).defaults[i].cond, truth)
      decreases rank(s), 2, 1
    {
      hide AllCorrect, Solution, Acyclic, Written, EvalCond;
      i, cond := 0, NO;
      ghost var ds, v := DefOf(k, s).defaults, truth;
      while i < |DefOf(k, s).defaults| && cond == NO
        invariant i <= |DefOf(k, s).defaults| && Valid() && Extends()
        invariant cond != NO ==> i < |ds| && cond == EvalCond(ds[i].cond, v)
        invariant Inactive(ds, i, v)
        decreases |ds| - i, cond == NO
      {
        cond := CalcCondition(s, i);
        if cond == NO {
          i := i + 1;
        }
      }
      ActiveDefaultIs(ds, i, v);
    }

    // The value of the default in effect.
    method CalcDefault(s: Symbol) returns (tri: Tristate, found: bool)
      requires Valid() && IdleBelow(rank(s))
      modifies this
      ensures Valid() && Extends() && tri == DefaultTri(DefOf(k, s), truth)
      ensures found <==> ActiveDefault(DefOf(k, s).defaults, truth) < |DefOf(k, s).defaults|
      decreases rank(s), 2, 2
    {
      var d := DefOf(k, s);
      var i, cond := DefaultProp(s);
      tri, found := NO, i < |d.defaults|;
      if found {
        UsesDefault(d, i);
        var t := ExprCalcValue(d.defaults[i].value, rank(s));
        tri := Apply(AndOp, t, cond);
      }
    }

    method CalcDefaultText(s: Symbol) returns (val: string, found: bool)
      requires Valid() && IdleBelow(rank(s))
      modifies this
      ensures Valid() && Extends()
      ensures DefaultText(DefOf(k, s), truth) == if found then Some(val) else None
      ensures !found ==> val == ""
      decreases rank(s), 2, 2
    {
      var d := DefOf(k, s);
      var i, _ := DefaultProp(s);
      val, found := "", i < |d.defaults| && d.defaults[i].value.Sym?;
      if found {
        var ds := d.defaults[i].value.s;
        UsesDefault(d, i);
        CalcValue(ds);
        ConstantSolved(k, user, truth, ds);
        val := fields[ds].curr.val;
      }
    }

    // sym_calc_value
    method CalcValue(s: Symbol)
      requires Valid() && IdleBelow(rank(s) + 1)
      modifies this
      ensures Valid() && Extends() && s in valid - busy
      decreases rank(s), 5
    {
      if s in valid {
        return;
      }
      if HasFields(s) {
        Recalculate(s);
      } else {
        ConstantSolved(k, user, truth, s);
        valid := valid + {s};
        fields := fields[s := Unset.(curr := SymValue(s.name, if s.Const? then ConstTri(s.name) else NO))];
      }
    }

    method Recalculate(s: Symbol)
      requires Valid() && IdleBelow(rank(s) + 1) && HasFields(s) && s !in valid
      modifies this
      ensures Valid() && Extends() && s in valid - busy
      decreases rank(s), 4
    {
      hide Solution, Acyclic, Visibility, DirectDep, ReverseDep, Written, AllCorrect, WriteStep, FieldsKept;
      var f := if s in fields then fields[s] else Unset;
      CorrectOther(k, truth, valid - busy, fields, s, f);
      assert (valid + {s}) - (busy + {s}) == valid - busy;
      valid, busy := valid + {s}, busy + {s};
      write := write - {s};
      fields := fields[s := f];
      var newval := CalcFields(s);
      var g := fields[s].(curr := newval);
      CorrectAdd(k, truth, valid - busy, fields, s, g);
      assert (valid - busy) + {s} == valid - (busy - {s});
      WriteRecalculated(k, truth, old(valid), valid, old(write), write, s);
      FieldsRecalculated(old(valid), old(fields), f, fields, g, s);
      fields := fields[s := g];
      busy := busy - {s};
    }

    // The new value, with the fields beside it already in place.
    method CalcFields(s: Symbol) returns (newval: SymValue)
      requires Valid() && IdleBelow(rank(s)) && HasFields(s) && s in busy && s !in write && s in fields
      modifies this
      ensures Valid() && ExtendsBut({s}) && s in fields && newval == SymValue(truth.text(s), truth.tri(s))
      ensures fields[s].visible == Visibility(s.ty, DefOf(k, s), truth)
      ensures fields[s].dirTri == DirectDep(DefOf(k, s), truth)
      ensures fields[s].revTri == ReverseDep(s.ty, DefOf(k, s), truth)
      ensures s in write <==> Written(s, DefOf(k, s), truth)
      decreases rank(s), 3, 1
    {
      CalcVisibility(s);
      // the value seen if the calculation came back here
      fields := fields[s := fields[s].(curr := SymValue(if TriType(s.ty) then "n" else "", NO))];
      newval := CalcNew(s);
    }

    // The new value; SYMBOL_WRITE is set on the way.
    method CalcNew(s: Symbol) returns (newval: SymValue)
      requires Valid() && IdleBelow(rank(s)) && HasFields(s) && s in busy && s !in write && s in fields
      requires fields[s].visible == Visibility(s.ty, DefOf(k, s), truth)
      requires fields[s].revTri == ReverseDep(s.ty, DefOf(k, s), truth)
      modifies this
      ensures Valid() && ExtendsBut({s}) && s in fields && fields[s] == old(fields)[s]
      ensures newval == SymValue(truth.text(s), truth.tri(s))
      ensures s in write <==> Written(s, DefOf(k, s), truth)
      decreases rank(s), 3, 0
    {
      assert Calc(s, DefOf(k, s), UserOf(user, s), truth) == SymValue(truth.text(s), truth.tri(s));
      if fields[s].visible != NO {
        write := write + {s};
      }
      if fields[s].visible != NO && s in user {
        if TriType(s.ty) {
          var tri := Apply(AndOp, user[s].tri, fields[s].visible);
          newval := SymValue("n", Promoted(s.ty, Apply(OrOp, tri, fields[s].revTri), k.modules));
        } else {
          newval := SymValue(user[s].val, NO);
        }
      } else if TriType(s.ty) {
        if fields[s].revTri != NO {
          write := write + {s};
        }
        var tri, found := CalcDefault(s);
        if found {
          write := write + {s};
        }
        newval := SymValue("n", Promoted(s.ty, Apply(OrOp, tri, fields[s].revTri), k.modules));
      } else {
        var val, found := CalcDefaultText(s);
        if found {
          write := write + {s};
        }
        newval := SymValue(val, NO);
      }
    }
  
    // sym_clear_all_valid, after the user values may have changed
    method ClearAllValid()
      requires Acyclic(k, rank) && busy == {} && forall s :: s in write ==> HasFields(s)
      modifies this
      ensures Valid() && busy == {} && user == old(user) && truth == Values(k, user, rank)
      ensures forall s {:trigger s in write} :: s in valid ==> (s in write <==> Written(s, DefOf(k, s), truth))
    {
      valid := {};
      truth := Values(k, user, rank);
      ValuesSolve(k, user, rank);
      if modulesSym.Some? {
        CalcValue(modulesSym.value);
      }
    }
  
    /** sym_set_tristate_value. A refusal changes nothing. After an accepted call the cache is right,
        except in the truncated case, where the old value stays cached although it is no longer the value. */
    method SetTristateValue(s: Symbol, val: Tristate) returns (ok: bool)
      requires Valid() && busy == {} && s in valid && s.Config? && TriType(s.ty)
      modifies this
      ensures ok <==> old(fields[s].curr.tri) == val
                      || WithinRange(s.ty, k.modules, old(fields[s].visible), old(fields[s].revTri), val)
      ensures !ok ==> unchanged(this)
      ensures ok ==> user == SetUserTri(old(user), s, val) && busy == {}
      ensures ok && old(fields[s].curr.tri) == val
        ==> valid == old(valid) && fields == old(fields) && write == old(write)
      ensures ok ==> (Valid() <==> !Truncated(old(fields[s].visible), old(fields[s].revTri), val))
    {
      var f := fields[s];
      if f.curr.tri != val && !WithinRange(s.ty, k.modules, f.visible, f.revTri, val) {
        return false;
      }
      CacheAfterAssignment(s, val);
      if f.curr.tri != val {
        user := SetUserTri(user, s, val);
        ClearAllValid();
      } else {
        user := SetUserTri(user, s, val);
        truth := Values(k, user, rank);
        assert valid - busy == valid;
      }
      return true;
    }

    // Whether the cached fields are still right for the user values after an assignment.
    lemma CacheAfterAssignment(s: Symbol, val: Tristate)
      requires Valid() && busy == {} && s in valid && s.Config? && TriType(s.ty)
      requires fields[s].curr.tri == val || WithinRange(s.ty, k.modules, fields[s].visible, fields[s].revTri, val)
      ensures var u := SetUserTri(user, s, val); var v := Values(k, u, rank);
        && Solution(k, u, v)
        && (fields[s].curr.tri != val ==> !Truncated(fields[s].visible, fields[s].revTri, val))
        && (fields[s].curr.tri == val
            ==> (AllCorrect(k, v, valid, fields) <==> !Truncated(fields[s].visible, fields[s].revTri, val)))
    {
      hide Solution, Acyclic, Visibility, DirectDep, ReverseDep, Value;
      var u := SetUserTri(user, s, val);
      var v := Values(k, u, rank);
      ValuesSolve(k, u, rank);
      TruthIsValues(s);
      AcceptedAssignment(k, user, rank, s, val);
      assert v.tri(s) == val <==> !Truncated(fields[s].visible, fields[s].revTri, val);
      hide Values;
      if fields[s].curr.tri == val && v.tri(s) == val {
        CacheStays(s, u);
      }
    }

    // An assignment under which the symbol itself keeps its value.
    lemma CacheStays(s: Symbol, u: UserValues)
      requires Valid() && busy == {} && s.Config? && TriType(s.ty) && Values(k, u, rank).tri(s) == truth.tri(s)
      requires Solution(k, u, Values(k, u, rank)) && forall x :: x != s ==> UserOf(u, x) == UserOf(user, x)
      ensures AllCorrect(k, Values(k, u, rank), valid, fields)
    {
      hide Acyclic, Visibility, DirectDep, ReverseDep, SameAt, AllCorrect;
      var v := Values(k, u, rank);
      ConstantSolved(k, u, v, s);
      ConstantSolved(k, user, truth, s);
      SolutionUnique(k, user, rank, truth, s);
      hide Solution;
      assert Value(k, u, rank, s) == Value(k, user, rank, s) by {
        assert Value(k, u, rank, s) == SymValue(v.text(s), v.tri(s));
      }
      forall t | t in valid ensures SameAt(k, truth, v, t) {
        SameUnderAssignment(s, u, t);
      }
      assert valid - busy == valid;
      CorrectSame(k, truth, v, valid, fields);
    }

    // The uncached values are the ones the ghost valuation holds.
    lemma TruthIsValues(s: Symbol)
      requires Valid() && HasFields(s)
      ensures SymValue(truth.text(s), truth.tri(s)) == Value(k, user, rank, s)
      ensures Visibility(s.ty, DefOf(k, s), truth) == Visibility(s.ty, DefOf(k, s), Values(k, user, rank))
      ensures ReverseDep(s.ty, DefOf(k, s), truth) == ReverseDep(s.ty, DefOf(k, s), Values(k, user, rank))
    {
      forall t ensures SymValue(truth.text(t), truth.tri(t)) == Value(k, user, rank, t) {
        SolutionUnique(k, user, rank, truth, t);
      }
      CalcAgree(s, DefOf(k, s), None, truth, Values(k, user, rank));
    }

    lemma SameUnderAssignment(s: Symbol, u: UserValues, t: Symbol)
      requires Valid() && Value(k, u, rank, s) == Value(k, user, rank, s)
      requires forall x :: x != s ==> UserOf(u, x) == UserOf(user, x)
      ensures SameAt(k, truth, Values(k, u, rank), t)
    {
      hide Solution, Acyclic, AllCorrect, Value, Calc, Visibility, DirectDep, ReverseDep, Written, Uses;
      forall x ensures SymValue(truth.text(x), truth.tri(x)) == Value(k, u, rank, x) {
        SolutionUnique(k, user, rank, truth, x);
        SameValueSameAll(k, u, user, rank, s, x);
      }
      assert Agree(Uses(DefOf(k, t)), truth, Values(k, u, rank)) by {
        SolutionModules(k, user, truth);
      }
      CalcAgree(t, DefOf(k, t), None, truth, Values(k, u, rank));
    }

    /** The cache refines the definition: a symbol marked valid holds its uncached value. */
    lemma Memoised(s: Symbol)
      requires Valid() && s in valid - busy
      ensures s in fields && fields[s].curr == Value(k, user, rank, s)
    {
      SolutionUnique(k, user, rank, truth, s);
    }
  }
}
