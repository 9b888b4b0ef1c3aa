/** kconfiglib's cached values: Symbol.get_value, set_user_value and the invalidation between them. */
module KCache {
  import opened Wrappers
  import opened Expr
  import opened KExpr
  import opened KSemantics
  import opened KDependents

  // Every cached value is what the definitions give.
  ghost predicate CachesOk(k: KConf, u: Users, w: World, vals: map<Name, string>, vis: map<Name, Tristate>,
    choiceVis: map<ChoiceId, Tristate>, sel: map<ChoiceId, Option<Name>>) {
    && (forall s {:trigger vals[s]} :: s in vals ==> vals[s] == w.val(s))
    && (forall s {:trigger vis[s]} :: s in vis ==> s !in k.fixed && vis[s] == Vis(k, w, s))
    && (forall c {:trigger choiceVis[c]} :: c in choiceVis ==> c in k.choices && choiceVis[c] == ChoiceVis(k, w, c))
    && (forall c {:trigger sel[c]} :: c in sel ==> c in k.choices && sel[c] == Selection(k, u, w, c))
  }

  ghost predicate DepsOk(k: KConf, rank: Name -> nat, top: nat, deps: map<Name, set<Name>>)
    requires WellFormed(k) && Acyclic(k, rank, top)
  {
    forall s {:trigger deps[s]} :: s in deps ==> deps[s] == Dependents(k, rank, top, s)
  }

  class Configuration {
    const k: KConf
    ghost const rank: Name -> nat
    ghost const top: nat

    var userVal: map<Name, string>               // Symbol.user_val
    var pick: map<ChoiceId, Name>                // Choice.user_val
    var mode: map<ChoiceId, Tristate>            // Choice.user_mode
    var cachedVal: map<Name, string>
    var cachedVis: map<Name, Tristate>
    var choiceVis: map<ChoiceId, Tristate>       // Choice.cached_visibility
    var cachedSel: map<ChoiceId, Option<Name>>   // Choice.cached_selection; NO_SELECTION is None
    var cachedDeps: map<Name, set<Name>>
    ghost var w: World                           // the values from empty caches

    function U(): Users
      reads this`userVal, this`pick, this`mode
    {
      Users(userVal, pick, mode)
    }

    ghost predicate Static() {
      WellFormed(k) && Acyclic(k, rank, top)
    }

    /** Coherence: nothing cached differs from what an evaluation from empty caches would give. */
    ghost predicate Valid()
      reads this
    {
      && Static() && UsersOk(k, U()) && Solution(k, U(), w)
      && CachesOk(k, U(), w, cachedVal, cachedVis, choiceVis, cachedSel)
      && DepsOk(k, rank, top, cachedDeps)
    }

    // Reading values fills caches and changes nothing else.
    twostate predicate OnlyCaches()
      reads this
    {
      userVal == old(userVal) && pick == old(pick) && mode == old(mode) && w == old(w)
    }

    constructor (k: KConf, ghost rank: Name -> nat, ghost top: nat)
      requires WellFormed(k) && Acyclic(k, rank, top)
      ensures Valid() && this.k == k && userVal == map[] && pick == map[] && mode == map[]
    {
      this.k, this.rank, this.top := k, rank, top;
      userVal, pick, mode := map[], map[], map[];
      cachedVal, cachedVis, choiceVis, cachedSel, cachedDeps := map[], map[], map[], map[], map[];
      w := Fresh(k, Users(map[], map[], map[]), rank);
      FreshSolves(k, Users(map[], map[], map[]), rank, top);
    }

    // _has_modules
    method HasModules(ghost n: nat) returns (b: bool)
      requires Valid() && n > 0
      modifies this
      ensures Valid() && OnlyCaches() && b == w.mods
      decreases n, 0
    {
      if Modules in k.syms {
        var t := GetValue(Modules);
        b := t == "y";
      } else {
        b := false;
      }
    }

    // The promotion of m that _eval_expr applies, also to values that are already evaluated.
    method PromoteM(t: Tristate, ghost n: nat) returns (r: Tristate)
      requires Valid() && (n > 0 || t != MOD)
      modifies this
      ensures Valid() && OnlyCaches() && r == Promote(t, w.mods)
      decreases n, 1
    {
      r := t;
      if t == MOD {
        var b := HasModules(n);
        if !b {
          r := YES;
        }
      }
    }

    method Text(a: Atom, ghost n: nat) returns (t: string)
      requires Valid() && forall x :: x in AtomSyms(a) ==> rank(x) < n
      modifies this
      ensures Valid() && OnlyCaches() && t == AtomText(a, w)
      decreases n, 0
    {
      match a
      case AStr(text) => t := text;
      case ASym(s) =>
        assert s in AtomSyms(a);
        t := GetValue(s);
    }

    // _eval_expr_2
    method EvalExpr2(e: KExpr, ghost n: nat) returns (t: Tristate)
      requires Valid() && forall x :: x in ExprSyms(e) ==> rank(x) < n
      modifies this
      ensures Valid() && OnlyCaches() && t == Eval2(e, w)
      decreases n, 1, e, 1
    {
      match e
      case KAtom(a) =>
        if a.AStr? {
          t := ConstTri(a.text);
        } else if IsTri(k, a.name) {
          assert a.name in ExprSyms(e) && w.tri(a.name);
          var text := GetValue(a.name);
          t := ConstTri(text);
        } else {
          assert !w.tri(a.name);
          t := NO;
        }
      case KCompare(equal, l, r) =>
        var x := Text(l, n);
        var y := Text(r, n);
        t := Truth(equal == (x == y));
      case KNot(x) =>
        t := EvalExpr2(x, n);
        t := Negate(t);
      case KOp(_, _) =>
        t := EvalOperands(e, n);
    }

    // The loops over AND and OR operands, left early at the first n or y.
    method EvalOperands(e: KExpr, ghost n: nat) returns (t: Tristate)
      requires Valid() && e.KOp? && forall x :: x in ExprSyms(e) ==> rank(x) < n
      modifies this
      ensures Valid() && OnlyCaches() && t == Eval2(e, w)
      decreases n, 1, e, 0
    {
      t := if e.op.AndOp? then YES else NO;
      var i := 0;
      while i < |e.es|
        invariant i <= |e.es| && Valid() && OnlyCaches()
        invariant t == EvalList(e, i, w)
        decreases |e.es| - i
      {
        ListSymsHas(e, i, |e.es|);
        var ev := EvalExpr2(e.es[i], n);
        t := Apply(e.op, t, ev);
        i := i + 1;
        if t == (if e.op.AndOp? then NO else YES) {
          EvalListDecided(e, i, w);
          return;
        }
      }
    }

    // _eval_expr
    method EvalExpr(e: Option<KExpr>, ghost n: nat) returns (t: Tristate)
      requires Valid() && (forall x :: x in OptSyms(e) ==> rank(x) < n) && (n > 0 || (e.Some? ==> Plain(e.value)))
      modifies this
      ensures Valid() && OnlyCaches() && t == EvalOpt(e, w)
      decreases n, 2
    {
      if e.None? {
        return YES;
      }
      t := EvalExpr2(e.value, n);
      if n == 0 {
        PlainEval(e.value, w, w);
      }
      t := PromoteM(t, n);
    }

    // The loop over prompt conditions in _get_visibility.
    method MaxPrompts(prompts: seq<Option<KExpr>>, ghost n: nat) returns (t: Tristate)
      requires Valid() && (forall x :: x in PromptSyms(prompts) ==> rank(x) < n)
      requires n > 0 || forall i :: 0 <= i < |prompts| && prompts[i].Some? ==> Plain(prompts[i].value)
      modifies this
      ensures Valid() && OnlyCaches() && t == VisMax(prompts, |prompts|, w)
      decreases n, 3
    {
      hide WellFormed, Solution, Acyclic, UsersOk, DepsOk, CachesOk, Plain, PromptSyms;
      t := NO;
      var i := 0;
      while i < |prompts|
        invariant i <= |prompts| && Valid() && OnlyCaches()
        invariant t == VisMax(prompts, i, w)
        decreases |prompts| - i
      {
        if n == 0 {
          PlainVisMax(prompts, i, w, w);
        }
        PromptSymsHas(prompts, i);
        var x := PromoteM(t, n);
        var y := EvalExpr(prompts[i], n);
        t := Apply(OrOp, x, y);
        i := i + 1;
      }
    }

    // _get_visibility of a choice
    method GetChoiceVis(c: ChoiceId) returns (t: Tristate)
      requires Valid() && c in k.choices
      modifies this
      ensures Valid() && OnlyCaches() && t == ChoiceVis(k, w, c)
      decreases rank(k.choices[c].members[0]), 4, 0
    {
      if c in choiceVis {
        return choiceVis[c];
      }
      var d := k.choices[c];
      ChoiceRank(k, rank, top, c);
      t := MaxPrompts(d.prompts, rank(d.members[0]));
      t := NonTristate(d.ty, t);
      choiceVis := choiceVis[c := t];
    }

    // A symbol of a choice is no more visible than the choice.
    method LimitByChoice(s: Name, t: Tristate) returns (r: Tristate)
      requires Valid() && SymOf(k, s).choice.Some?
      modifies this
      ensures Valid() && OnlyCaches() && r == EvalMin(t, ChoiceVis(k, w, SymOf(k, s).choice.value), w.mods)
      decreases rank(s), 4, 1
    {
      ChoiceRankOf(k, rank, top, s);
      var x := PromoteM(t, rank(s));
      var cv := GetChoiceVis(SymOf(k, s).choice.value);
      var y := PromoteM(cv, rank(s));
      r := Apply(AndOp, x, y);
    }

    // _get_visibility of a symbol
    method GetVis(s: Name) returns (t: Tristate)
      requires Valid() && s !in k.fixed
      modifies this
      ensures Valid() && OnlyCaches() && t == Vis(k, w, s)
      decreases rank(s), 5
    {
      hide WellFormed, Solution, Acyclic, UsersOk, DepsOk, Vis;
      if s in cachedVis {
        return cachedVis[s];
      }
      t := CalcVis(s);
      cachedVis := cachedVis[s := t];
    }

    method CalcVis(s: Name) returns (t: Tristate)
      requires Valid() && s !in k.fixed
      modifies this
      ensures Valid() && OnlyCaches() && t == Vis(k, w, s)
      decreases rank(s), 4, 2
    {
      var d := SymOf(k, s);
      OwnRank(k, rank, top, s);
      t := MaxPrompts(d.prompts, rank(s));
      if d.choice.Some? {
        t := LimitByChoice(s, t);
      }
      t := NonTristate(d.ty, t);
    }

    // Choice.get_mode
    method GetMode(c: ChoiceId) returns (t: Tristate)
      requires Valid() && c in k.choices
      modifies this
      ensures Valid() && OnlyCaches() && t == Mode(k, U(), w, c)
      decreases rank(k.choices[c].members[0]), 5
    {
      hide Solution, CachesOk, DepsOk, UsersOk, ChoiceVis;
      var d := k.choices[c];
      ChoiceRank(k, rank, top, c);
      var m := if c in mode then mode[c] else if d.optional then NO else MOD;
      var x := PromoteM(m, rank(d.members[0]));
      var cv := GetChoiceVis(c);
      var y := PromoteM(cv, rank(d.members[0]));
      t := Apply(AndOp, x, y);
      if t == MOD && d.ty.KBool? {
        t := YES;
      }
    }

    // The default of a choice in effect.
    method FindChoiceDefault(c: ChoiceId) returns (i: nat)
      requires Valid() && c in k.choices
      modifies this
      ensures Valid() && OnlyCaches() && i == ActiveChoiceDefault(k.choices[c].defaults, w)
      decreases rank(k.choices[c].members[0]), 5
    {
      var ds := k.choices[c].defaults;
      ChoiceRank(k, rank, top, c);
      i := 0;
      while i < |ds|
        invariant i <= |ds| && Valid() && OnlyCaches()
        invariant ActiveChoiceDefault(ds, w) == i + ActiveChoiceDefault(ds[i..], w)
        decreases |ds| - i
      {
        ChoiceDefaultSymsHas(ds, i);
        assert ds[i..][0] == ds[i] && ds[i..][1..] == ds[i + 1..];
        var t := EvalExpr(ds[i].cond, rank(k.choices[c].members[0]));
        if t != NO {
          return;
        }
        i := i + 1;
      }
    }

    // The first visible symbol of a choice.
    method FindVisible(c: ChoiceId) returns (r: Option<Name>)
      requires Valid() && c in k.choices
      modifies this
      ensures Valid() && OnlyCaches() && r == FirstVisible(k, w, k.choices[c].members)
      decreases rank(k.choices[c].members[0]), 6
    {
      hide Solution, CachesOk, DepsOk, UsersOk, Vis;
      var ms := k.choices[c].members;
      var i := 0;
      assert ms[0..] == ms;
      while i < |ms|
        invariant i <= |ms| && Valid() && OnlyCaches()
        invariant FirstVisible(k, w, ms) == FirstVisible(k, w, ms[i..])
        decreases |ms| - i
      {
        assert ms[i] in ms && ms[i..][1..] == ms[i + 1..];
        var t := GetVis(ms[i]);
        if t != NO {
          return Some(ms[i]);
        }
        i := i + 1;
      }
      return None;
    }

    // Choice.get_selection_from_defaults
    method GetDefaultSelection(c: ChoiceId) returns (r: Option<Name>)
      requires Valid() && c in k.choices
      modifies this
      ensures Valid() && OnlyCaches() && r == DefaultSelection(k, w, c)
      decreases rank(k.choices[c].members[0]), 7, 0
    {
      hide Solution, CachesOk, DepsOk, UsersOk, Vis, FirstVisible;
      var d := k.choices[c];
      var i := FindChoiceDefault(c);
      var chosen := if i < |d.defaults| then d.defaults[i].sym else d.members[0];
      assert chosen in d.members;
      var t := GetVis(chosen);
      if t != NO {
        return Some(chosen);
      }
      r := FindVisible(c);
    }

    // Choice.get_selection
    method GetSelection(c: ChoiceId) returns (r: Option<Name>)
      requires Valid() && c in k.choices
      modifies this
      ensures Valid() && OnlyCaches() && r == Selection(k, U(), w, c)
      decreases rank(k.choices[c].members[0]), 8
    {
      if c in cachedSel {
        return cachedSel[c];
      }
      r := CalcSelection(c);
      cachedSel := cachedSel[c := r];
    }

    method CalcSelection(c: ChoiceId) returns (r: Option<Name>)
      requires Valid() && c in k.choices
      modifies this
      ensures Valid() && OnlyCaches() && r == Selection(k, U(), w, c)
      decreases rank(k.choices[c].members[0]), 7, 1
    {
      hide Solution, CachesOk, DepsOk, Vis, Mode, DefaultSelection;
      r := None;
      var m := GetMode(c);
      if m != YES {
        return;
      }
      if c in pick {
        assert pick[c] in k.choices[c].members;
        var t := GetVis(pick[c]);
        if t == YES {
          return Some(pick[c]);
        }
      }
      if k.choices[c].optional {
        return;
      }
      r := GetDefaultSelection(c);
    }

    // Symbol.get_value
    method GetValue(s: Name) returns (val: string)
      requires Valid()
      modifies this
      ensures Valid() && OnlyCaches() && val == w.val(s)
      decreases rank(s), 12
    {
      if s in cachedVal {
        return cachedVal[s];
      }
      val := CalcValue(s);
      assert Value(k, U(), w, s) == w.val(s);
      cachedVal := cachedVal[s := val];
    }

    method CalcValue(s: Name) returns (val: string)
      requires Valid()
      modifies this
      ensures Valid() && OnlyCaches() && val == Value(k, U(), w, s)
      decreases rank(s), 11
    {
      var d := SymOf(k, s);
      if s in k.fixed {
        return k.fixed[s];
      }
      match d.ty
      case KUnknown => val := s;
      case KString => val := CalcString(s);
      case KHex => val := CalcNumber(s, 16);
      case KInt => val := CalcNumber(s, 10);
      case _ =>
        var t := NO;
        if d.choice.Some? {
          t := CalcChoiceSymbol(s);
        } else {
          t := CalcPlainSymbol(s);
        }
        if t == MOD && d.ty.KBool? {
          t := YES;
        }
        val := TriString(t);
    }

    method CalcChoiceSymbol(s: Name) returns (t: Tristate)
      requires Valid() && s !in k.fixed && SymOf(k, s).choice.Some?
      modifies this
      ensures Valid() && OnlyCaches() && t == ChoiceSymbolTri(k, U(), w, s, SymOf(k, s).choice.value)
      decreases rank(s), 10
    {
      var c := SymOf(k, s).choice.value;
      ChoiceRankOf(k, rank, top, s);
      t := NO;
      var vis := GetVis(s);
      if vis == NO {
        return;
      }
      var m := GetMode(c);
      if m == YES {
        var sel := GetSelection(c);
        t := if sel == Some(s) then YES else NO;
      } else if m == MOD && s in userVal && (userVal[s] == "m" || userVal[s] == "y") {
        t := MOD;
      }
    }

    // The default in effect.
    method FindDefault(s: Name) returns (i: nat, cond: Tristate)
      requires Valid()
      modifies this
      ensures Valid() && OnlyCaches() && i == ActiveDefault(SymOf(k, s).defaults, w)
      ensures i < |SymOf(k, s).defaults| ==> cond == EvalOpt(SymOf(k, s).defaults[i].cond, w) != NO
      decreases rank(s), 6
    {
      hide WellFormed, Solution, Acyclic, UsersOk, DepsOk;
      var ds := SymOf(k, s).defaults;
      OwnRank(k, rank, top, s);
      i, cond := 0, NO;
      while i < |ds|
        invariant i <= |ds| && Valid() && OnlyCaches()
        invariant ActiveDefault(ds, w) == i + ActiveDefault(ds[i..], w)
        decreases |ds| - i
      {
        DefaultSymsHas(ds, i);
        assert ds[i..][0] == ds[i] && ds[i..][1..] == ds[i + 1..];
        cond := EvalExpr(ds[i].cond, rank(s));
        if cond != NO {
          return;
        }
        i := i + 1;
      }
    }

    method CalcDefault(s: Name) returns (t: Tristate)
      requires Valid()
      modifies this
      ensures Valid() && OnlyCaches() && t == DefaultTri(SymOf(k, s).defaults, w)
      decreases rank(s), 7
    {
      hide WellFormed, Solution, Acyclic, UsersOk, DepsOk;
      var ds := SymOf(k, s).defaults;
      OwnRank(k, rank, top, s);
      var i, cond := FindDefault(s);
      t := NO;
      if i < |ds| {
        DefaultSymsHas(ds, i);
        if rank(s) == 0 {
          PlainEval(ds[i].value, w, w);
          if ds[i].cond.Some? {
            PlainEval(ds[i].cond.value, w, w);
          }
        }
        var v := EvalExpr(Some(ds[i].value), rank(s));
        var x := PromoteM(v, rank(s));
        var y := PromoteM(cond, rank(s));
        t := Apply(AndOp, x, y);
      }
    }

    method CalcPlainSymbol(s: Name) returns (t: Tristate)
      requires Valid() && s !in k.fixed && IsTri(k, s) && SymOf(k, s).choice.None?
      modifies this
      ensures Valid() && OnlyCaches() && t == PlainSymbolTri(k, U(), w, s)
      decreases rank(s), 10
    {
      OwnRank(k, rank, top, s);
      if rank(s) == 0 {
        ModulesParts(SymOf(k, s), w, w);
      }
      var vis := GetVis(s);
      if vis != NO && s in userVal {
        var x := PromoteM(ConstTri(userVal[s]), rank(s));
        var y := PromoteM(vis, rank(s));
        t := Apply(AndOp, x, y);
      } else {
        t := CalcDefault(s);
      }
      var rev := EvalExpr(Some(SymOf(k, s).revDep), rank(s));
      if rev != NO {
        var x := PromoteM(t, rank(s));
        var y := PromoteM(rev, rank(s));
        t := Apply(OrOp, x, y);
      }
    }

    // _str_val of a default
    method DefaultString(e: KExpr, ghost n: nat) returns (t: string)
      requires Valid() && forall x :: x in ExprSyms(e) ==> rank(x) < n
      modifies this
      ensures Valid() && OnlyCaches() && t == ExprText(e, w)
      decreases n, 1
    {
      if e.KAtom? {
        t := Text(e.a, n);
      } else {
        t := "";
      }
    }

    method CalcString(s: Name) returns (val: string)
      requires Valid() && s !in k.fixed
      modifies this
      ensures Valid() && OnlyCaches()
      ensures val == if Vis(k, w, s) != NO && s in userVal then userVal[s] else DefaultText(SymOf(k, s).defaults, w)
      decreases rank(s), 10
    {
      var vis := GetVis(s);
      if vis != NO && s in userVal {
        return userVal[s];
      }
      var ds := SymOf(k, s).defaults;
      OwnRank(k, rank, top, s);
      var i, _ := FindDefault(s);
      val := "";
      if i < |ds| {
        DefaultSymsHas(ds, i);
        val := DefaultString(ds[i].value, rank(s));
      }
    }

    method FindRange(s: Name, base: nat) returns (r: Option<(int, int)>)
      requires Valid() && rank(s) > 0
      modifies this
      ensures Valid() && OnlyCaches() && r == ActiveRange(k, SymOf(k, s).ranges, base, w)
      decreases rank(s), 6
    {
      var rs := SymOf(k, s).ranges;
      OwnRank(k, rank, top, s);
      var i := 0;
      assert rs[0..] == rs;
      while i < |rs|
        invariant i <= |rs| && Valid() && OnlyCaches()
        invariant ActiveRange(k, rs, base, w) == ActiveRange(k, rs[i..], base, w)
        decreases |rs| - i
      {
        RangeSymsHas(rs, i);
        assert rs[i..][0] == rs[i] && rs[i..][1..] == rs[i + 1..];
        var cond := EvalExpr(rs[i].cond, rank(s));
        if cond != NO {
          var low := Text(rs[i].low, rank(s));
          var high := Text(rs[i].high, rank(s));
          var l, h := k.parse(low, base), k.parse(high, base);
          return Some((if l.Some? then l.value else 0, if h.Some? then h.value else 0));
        }
        i := i + 1;
      }
      return None;
    }

    method CalcNumberDefault(s: Name, range: Option<(int, int)>, base: nat) returns (val: string)
      requires Valid() && rank(s) > 0
      modifies this
      ensures Valid() && OnlyCaches() && val == NumberDefault(k, SymOf(k, s).defaults, "", range, base, w)
      decreases rank(s), 7
    {
      var ds := SymOf(k, s).defaults;
      OwnRank(k, rank, top, s);
      val := "";
      var i := 0;
      assert ds[0..] == ds;
      while i < |ds|
        invariant i <= |ds| && Valid() && OnlyCaches()
        invariant NumberDefault(k, ds, "", range, base, w) == NumberDefault(k, ds[i..], val, range, base, w)
        decreases |ds| - i
      {
        DefaultSymsHas(ds, i);
        assert ds[i..][0] == ds[i] && ds[i..][1..] == ds[i + 1..];
        var cond := EvalExpr(ds[i].cond, rank(s));
        if cond != NO {
          val := DefaultString(ds[i].value, rank(s));
          var n := k.parse(val, base);
          if n.Some? {
            return Clamp(k, val, n.value, range, base);
          }
        }
        i := i + 1;
      }
      if range.Some? && range.value.0 > 0 {
        val := k.show(range.value.0, base);
      }
    }

    method CalcNumber(s: Name, base: nat) returns (val: string)
      requires Valid() && s !in k.fixed && s in k.syms && (k.syms[s].ty.KHex? || k.syms[s].ty.KInt?)
      modifies this
      ensures Valid() && OnlyCaches() && val == NumberValue(k, U(), w, s, base)
      decreases rank(s), 10
    {
      assert s != Modules;
      var range := FindRange(s, base);
      var vis := GetVis(s);
      if vis != NO && s in userVal && UserNumberOk(k, userVal[s], range, base) {
        return userVal[s];
      }
      val := CalcNumberDefault(s, range, base);
    }

    // ----- dependents and invalidation -----

    ghost predicate DepsValid()
      reads this`cachedDeps
    {
      Static() && DepsOk(k, rank, top, cachedDeps)
    }

    // _add_dependent_ignore_siblings
    method AddDependents(s: Name, to: set<Name>) returns (res: set<Name>)
      requires DepsValid()
      modifies this`cachedDeps
      ensures DepsValid() && res == to + Ignoring(k, rank, top, s)
      decreases Height(rank, top, s), 0
    {
      hide WellFormed, Acyclic, Height, DepOf;
      res := to;
      var todo := DepOf(k, s);
      ghost var done := {};
      while todo != {}
        invariant DepsValid() && done + todo == DepOf(k, s) && to <= res <= to + Ignoring(k, rank, top, s)
        invariant forall t :: t in done ==> Affected(k, rank, top, t) <= res
        decreases todo
      {
        var t :| t in todo;
        DepOfHigher(k, rank, top, s, t);
        IgnoringHas(k, rank, top, s, t);
        var more := GetDependent(t);
        res := res + {t} + more;
        todo, done := todo - {t}, done + {t};
      }
      forall y | y in Ignoring(k, rank, top, s) ensures y in res {
        var t := IgnoringFrom(k, rank, top, s, y);
      }
    }

    // _get_dependent
    method GetDependent(s: Name) returns (res: set<Name>)
      requires DepsValid()
      modifies this`cachedDeps
      ensures DepsValid() && res == Dependents(k, rank, top, s)
      decreases Height(rank, top, s), 1
    {
      hide WellFormed, Acyclic, Siblings, Height;
      if s in cachedDeps {
        return cachedDeps[s];
      }
      res := AddDependents(s, {});
      var todo := Siblings(k, s);
      ghost var done := {};
      while todo != {}
        invariant DepsValid() && done + todo == Siblings(k, s)
        invariant Ignoring(k, rank, top, s) <= res <= Dependents(k, rank, top, s)
        invariant forall m :: m in done ==> m in res && Ignoring(k, rank, top, m) <= res
        decreases todo
      {
        var m :| m in todo;
        SiblingRank(k, rank, top, s, m);
        res := AddDependents(m, res + {m});
        todo, done := todo - {m}, done + {m};
      }
      forall y | y in Dependents(k, rank, top, s) ensures y in res {
        if y !in Ignoring(k, rank, top, s) && y !in Siblings(k, s) {
          var m :| m in Siblings(k, s) && y in Ignoring(k, rank, top, m);
        }
      }
      cachedDeps := cachedDeps[s := res];
    }

    // Symbol._invalidate
    method InvalidateOne(s: Name)
      modifies this`cachedVal, this`cachedVis, this`choiceVis, this`cachedSel
      ensures cachedVal == old(cachedVal) - Dropped(k, {s}) && cachedVis == old(cachedVis) - Dropped(k, {s})
      ensures choiceVis == old(choiceVis) - DroppedChoices(k, {s})
        && cachedSel == old(cachedSel) - DroppedChoices(k, {s})
    {
      if s !in k.fixed {
        var c := SymOf(k, s).choice;
        if c.Some? {
          choiceVis, cachedSel := choiceVis - {c.value}, cachedSel - {c.value};
          assert DroppedChoices(k, {s}) == {c.value};
        } else {
          assert DroppedChoices(k, {s}) == {};
        }
        cachedVal, cachedVis := cachedVal - {s}, cachedVis - {s};
        assert Dropped(k, {s}) == {s};
      } else {
        assert Dropped(k, {s}) == {} && DroppedChoices(k, {s}) == {};
      }
    }

    // ... for every symbol of a set
    method InvalidateAll(a: set<Name>)
      modifies this`cachedVal, this`cachedVis, this`choiceVis, this`cachedSel
      ensures cachedVal == old(cachedVal) - Dropped(k, a) && cachedVis == old(cachedVis) - Dropped(k, a)
      ensures choiceVis == old(choiceVis) - DroppedChoices(k, a) && cachedSel == old(cachedSel) - DroppedChoices(k, a)
    {
      var todo := a;
      ghost var done := {};
      while todo != {}
        invariant done + todo == a
        invariant cachedVal == old(cachedVal) - Dropped(k, done) && cachedVis == old(cachedVis) - Dropped(k, done)
        invariant choiceVis == old(choiceVis) - DroppedChoices(k, done)
          && cachedSel == old(cachedSel) - DroppedChoices(k, done)
        decreases todo
      {
        var s :| s in todo;
        InvalidateOne(s);
        DroppedUnion(k, done, {s});
        MapMinus(old(cachedVal), Dropped(k, done), Dropped(k, {s}));
        MapMinus(old(cachedVis), Dropped(k, done), Dropped(k, {s}));
        MapMinus(old(choiceVis), DroppedChoices(k, done), DroppedChoices(k, {s}));
        MapMinus(old(cachedSel), DroppedChoices(k, done), DroppedChoices(k, {s}));
        todo, done := todo - {s}, done + {s};
      }
      assert done == a;
    }

    /** set_user_value: the user values change as asked or the call is ignored, and the caches stay coherent. */
    method SetUserValue(s: Name, v: string)
      requires Valid()
      modifies this
      ensures Valid() && U() == AssignUser(k, old(U()), s, v)
    {
      AssignUserOk(k, rank, top, U(), s, v);
      ChangeUsers(s, AssignUser(k, U(), s, v), s == Modules);
    }

    /** unset_user_value: the caches stay coherent unless it switches modules on or off (UnsetModulesStale). */
    method UnsetUserValue(s: Name)
      requires Valid()
      modifies this
      ensures U() == UnassignUser(k, old(U()), s)
      ensures s != Modules || old(w).mods == ModsOf(k, U()) ==> Valid()
    {
      UnassignUserOk(k, rank, top, U(), s);
      ChangeUsers(s, UnassignUser(k, U(), s), false);
    }

    // New user values that differ from the present ones at `s` only, and the invalidation that follows.
    method ChangeUsers(s: Name, u: Users, all: bool)
      requires Valid() && UsersOk(k, u) && UsersDifferIn(k, U(), u, Affected(k, rank, top, s))
      requires s != Modules ==> SameUser(U(), u, Modules)
      modifies this
      ensures U() == u && (all || s != Modules || old(w).mods == ModsOf(k, u) ==> Valid())
    {
      hide WellFormed, Acyclic, Solution, CachesOk, DepsOk, UsersOk, UsersDifferIn, SameUser, Affected,
        InvalidatedBy, Dropped, DroppedChoices;
      hide ModsOf, ValueAt;
      ghost var w' := Fresh(k, u, rank);
      if all || s != Modules || w.mods == ModsOf(k, u) {
        InvalidatedOk(k, U(), u, rank, top, w, w', s, all, cachedVal, cachedVis, choiceVis, cachedSel);
      }
      userVal, pick, mode := u.sym, u.pick, u.mode;
      assert U() == u;
      w := w';
      Invalidate(s, all);
    }

    method InvalidSet(s: Name, all: bool) returns (a: set<Name>)
      requires DepsValid()
      modifies this`cachedDeps
      ensures DepsValid() && a == InvalidatedBy(k, rank, top, s, all)
    {
      if all {
        return k.syms.Keys;
      }
      var deps := GetDependent(s);
      a := {s} + deps;
    }

    // All symbols, or `s` and its dependents.
    method Invalidate(s: Name, all: bool)
      requires DepsValid()
      modifies this`cachedVal, this`cachedVis, this`choiceVis, this`cachedSel, this`cachedDeps
      ensures DepsValid()
      ensures var a := InvalidatedBy(k, rank, top, s, all);
        && cachedVal == old(cachedVal) - Dropped(k, a) && cachedVis == old(cachedVis) - Dropped(k, a)
        && choiceVis == old(choiceVis) - DroppedChoices(k, a) && cachedSel == old(cachedSel) - DroppedChoices(k, a)
    {
      hide WellFormed, Acyclic, DepsOk, InvalidatedBy, Dropped, DroppedChoices;
      var a := InvalidSet(s, all);
      InvalidateAll(a);
    }
  }

  // ----- whole runs -----

  datatype Call = Get(s: Name) | Assign(s: Name, v: string) | Clear(s: Name)

  function UserAfter(k: KConf, u: Users, c: Call): Users {
    match c
    case Get(_) => u
    case Assign(s, v) => AssignUser(k, u, s, v)
    case Clear(s) => UnassignUser(k, u, s)
  }

  /** The user values after the first `n` calls. */
  function UsersAfter(k: KConf, u: Users, calls: seq<Call>, n: nat): Users
    requires n <= |calls|
  {
    if n == 0 then u else UserAfter(k, UsersAfter(k, u, calls, n - 1), calls[n - 1])
  }

  // Unsetting MODULES leaves modules as they were.
  ghost predicate Safe(k: KConf, u: Users, c: Call) {
    c == Clear(Modules) ==> ModsOf(k, u) == ModsOf(k, UnassignUser(k, u, Modules))
  }

  method DoCall(config: Configuration, c: Call) returns (val: string)
    requires config.Valid() && Safe(config.k, config.U(), c)
    modifies config
    ensures config.Valid() && config.U() == UserAfter(config.k, old(config.U()), c)
    ensures c.Get? ==> val == Fresh(config.k, old(config.U()), config.rank).val(c.s)
  {
    hide WellFormed, Acyclic, Solution, CachesOk, DepsOk, UsersOk, Fresh, AssignUser, UnassignUser, ModsOf;
    val := "";
    match c {
      case Get(s) =>
        val := config.GetValue(s);
        FreshValue(config.k, config.U(), config.rank, config.top, config.w, s);
      case Assign(s, v) => config.SetUserValue(s, v);
      case Clear(s) =>
        FreshMods(config.k, config.U(), config.rank, config.top, config.w);
        config.UnsetUserValue(s);
    }
  }

  lemma FreshMods(k: KConf, u: Users, rank: Name -> nat, top: nat, w: World)
    requires WellFormed(k) && UsersOk(k, u) && Acyclic(k, rank, top) && Solution(k, u, w)
    ensures w.mods == ModsOf(k, u)
  {
    FreshSolves(k, u, rank, top);
    ModsEqual(k, u, u, w, Fresh(k, u, rank));
  }

  // The result of call `i`, if it is a read.
  ghost predicate RightRead(k: KConf, rank: Name -> nat, u: Users, calls: seq<Call>, i: nat, val: string)
    requires i < |calls|
  {
    calls[i].Get? ==> val == Fresh(k, UsersAfter(k, u, calls, i), rank).val(calls[i].s)
  }

  /** Any interleaving of get_value, set_user_value and unset_user_value that does not switch modules by unsetting
      MODULES: each read returns what an evaluation from empty caches with the user values of that moment returns. */
  method Run(config: Configuration, calls: seq<Call>) returns (out: seq<string>)
    requires config.Valid()
    requires forall i :: 0 <= i < |calls| ==> Safe(config.k, UsersAfter(config.k, config.U(), calls, i), calls[i])
    modifies config
    ensures config.Valid() && config.U() == UsersAfter(config.k, old(config.U()), calls, |calls|)
    ensures |out| == |calls|
    ensures forall i :: 0 <= i < |calls| ==> RightRead(config.k, config.rank, old(config.U()), calls, i, out[i])
  {
    hide WellFormed, Acyclic, Solution, CachesOk, DepsOk, UsersOk, Safe, RightRead, Fresh, UserAfter;
    ghost var u := config.U();
    out := [];
    var i := 0;
    while i < |calls|
      invariant i <= |calls| && |out| == i && config.Valid() && config.U() == UsersAfter(config.k, u, calls, i)
      invariant forall j :: 0 <= j < i ==> RightRead(config.k, config.rank, u, calls, j, out[j])
    {
      var val := DoCall(config, calls[i]);
      ReadNow(config.k, config.rank, u, calls, i, val);
      out := out + [val];
      i := i + 1;
    }
  }

  lemma ReadNow(k: KConf, rank: Name -> nat, u: Users, calls: seq<Call>, i: nat, val: string)
    requires i < |calls|
    requires calls[i].Get? ==> val == Fresh(k, UsersAfter(k, u, calls, i), rank).val(calls[i].s)
    ensures RightRead(k, rank, u, calls, i, val)
  {
  }

  lemma FreshValue(k: KConf, u: Users, rank: Name -> nat, top: nat, w: World, s: Name)
    requires WellFormed(k) && UsersOk(k, u) && Acyclic(k, rank, top) && Solution(k, u, w)
    ensures w.val(s) == Fresh(k, u, rank).val(s)
  {
    FreshSolves(k, u, rank, top);
    SolutionUnique(k, u, rank, top, w, Fresh(k, u, rank), s);
  }

  // ----- what the user values become -----

  // Is the value valid for the type?
  predicate ValidFor(k: KConf, ty: KType, v: string) {
    match ty
    case KBool => v == "y" || v == "n"
    case KTristate => v == "y" || v == "m" || v == "n"
    case KString => true
    case KInt => k.parse(v, 10).Some?
    case KHex => k.parse(v, 16).Some?
    case KUnknown => false
  }

  // _set_user_value_no_invalidate
  function AssignUser(k: KConf, u: Users, s: Name, v: string): Users {
    var d := SymOf(k, s);
    if s in k.fixed || !ValidFor(k, d.ty, v) then u
    else if d.choice.Some? && TriType(d.ty) && v == "y" then
      Users(u.sym[s := v], u.pick[d.choice.value := s], u.mode[d.choice.value := YES])
    else if d.choice.Some? && TriType(d.ty) && v == "m" then
      Users(u.sym[s := v], u.pick - {d.choice.value}, u.mode[d.choice.value := MOD])
    else u.(sym := u.sym[s := v])
  }

  // _unset_user_value_no_recursive_invalidate
  function UnassignUser(k: KConf, u: Users, s: Name): Users {
    var c := SymOf(k, s).choice;
    if c.Some? then Users(u.sym - {s}, u.pick - {c.value}, u.mode - {c.value}) else u.(sym := u.sym - {s})
  }

  lemma AssignUserOk(k: KConf, rank: Name -> nat, top: nat, u: Users, s: Name, v: string)
    requires WellFormed(k) && Acyclic(k, rank, top) && UsersOk(k, u)
    ensures UsersOk(k, AssignUser(k, u, s, v))
    ensures UsersDifferIn(k, u, AssignUser(k, u, s, v), Affected(k, rank, top, s))
    ensures s != Modules ==> SameUser(u, AssignUser(k, u, s, v), Modules)
  {
    AssignUserValid(k, u, s, v);
    AssignUserAt(k, u, s, v);
    DifferAt(k, u, AssignUser(k, u, s, v), Affected(k, rank, top, s), s);
  }

  lemma AssignUserValid(k: KConf, u: Users, s: Name, v: string)
    requires WellFormed(k) && UsersOk(k, u)
    ensures UsersOk(k, AssignUser(k, u, s, v))
  {
    var d := SymOf(k, s);
    if d.choice.Some? {
      assert s in k.choices[d.choice.value].members;
    }
  }

  lemma AssignUserAt(k: KConf, u: Users, s: Name, v: string)
    ensures var u', c := AssignUser(k, u, s, v), SymOf(k, s).choice;
      && u'.sym - {s} == u.sym - {s}
      && if c.Some? then u'.pick - {c.value} == u.pick - {c.value} && u'.mode - {c.value} == u.mode - {c.value}
         else u'.pick == u.pick && u'.mode == u.mode
  {
  }

  // A change of one symbol and its choice lies within every set that contains the symbol.
  lemma DifferAt(k: KConf, u: Users, u': Users, a: set<Name>, s: Name)
    requires WellFormed(k) && s in a && u'.sym - {s} == u.sym - {s}
    requires var c := SymOf(k, s).choice;
      if c.Some? then u'.pick - {c.value} == u.pick - {c.value} && u'.mode - {c.value} == u.mode - {c.value}
      else u'.pick == u.pick && u'.mode == u.mode
    ensures UsersDifferIn(k, u, u', a)
  {
    forall t | t !in a ensures SameUser(u, u', t) {
      assert t in u.sym <==> t in u.sym - {s};
      assert t in u'.sym <==> t in u'.sym - {s};
      assert t in u.sym ==> (u.sym - {s})[t] == u.sym[t];
      assert t in u'.sym ==> (u'.sym - {s})[t] == u'.sym[t];
    }
    forall x | Untouched(k, a, x) ensures SameChoiceUser(u, u', x) {
      var c := SymOf(k, s).choice;
      if c.Some? {
        assert s in k.choices[c.value].members;
        SameExcept(u.pick, u'.pick, c.value, x);
        SameExcept(u.mode, u'.mode, c.value, x);
      }
    }
  }

  lemma SameExcept<V>(m: map<ChoiceId, V>, m': map<ChoiceId, V>, c: ChoiceId, x: ChoiceId)
    requires m - {c} == m' - {c} && x != c
    ensures (x in m <==> x in m') && (x in m ==> m[x] == m'[x])
  {
    assert x in m <==> x in m - {c};
    assert x in m' <==> x in m' - {c};
    assert x in m ==> (m - {c})[x] == m[x];
    assert x in m' ==> (m' - {c})[x] == m'[x];
  }

  lemma UnassignUserOk(k: KConf, rank: Name -> nat, top: nat, u: Users, s: Name)
    requires WellFormed(k) && Acyclic(k, rank, top) && UsersOk(k, u)
    ensures UsersOk(k, UnassignUser(k, u, s))
    ensures UsersDifferIn(k, u, UnassignUser(k, u, s), Affected(k, rank, top, s))
    ensures s != Modules ==> SameUser(u, UnassignUser(k, u, s), Modules)
  {
    DifferAt(k, u, UnassignUser(k, u, s), Affected(k, rank, top, s), s);
  }

  // ----- the caches after invalidation -----

  function ChoicesOf(k: KConf, a: set<Name>): set<ChoiceId> {
    set s | s in a && SymOf(k, s).choice.Some? :: SymOf(k, s).choice.value
  }

  // The symbols and choices whose caches are dropped for `a`; special symbols keep theirs.
  function Dropped(k: KConf, a: set<Name>): set<Name> {
    a - k.fixed.Keys
  }

  function DroppedChoices(k: KConf, a: set<Name>): set<ChoiceId> {
    ChoicesOf(k, a - k.fixed.Keys)
  }

  lemma DroppedUnion(k: KConf, a: set<Name>, b: set<Name>)
    ensures Dropped(k, a + b) == Dropped(k, a) + Dropped(k, b)
    ensures DroppedChoices(k, a + b) == DroppedChoices(k, a) + DroppedChoices(k, b)
  {
    assert (a + b) - k.fixed.Keys == (a - k.fixed.Keys) + (b - k.fixed.Keys);
  }

  lemma MapMinus<X, Y>(m: map<X, Y>, a: set<X>, b: set<X>)
    ensures m - a - b == m - (a + b)
  {
  }

  lemma MemberChoice(k: KConf, a: set<Name>, c: ChoiceId)
    requires WellFormed(k) && c in k.choices && c !in DroppedChoices(k, a)
    ensures Untouched(k, a, c)
  {
    forall m | m in k.choices[c].members ensures m !in a {
      assert SymOf(k, m).choice == Some(c);
    }
  }

  lemma FixedValue(k: KConf, u: Users, u': Users, w: World, w': World, s: Name)
    requires Solution(k, u, w) && Solution(k, u', w') && (s in k.fixed || s !in k.syms)
    ensures w.val(s) == w'.val(s) && (s !in k.syms ==> Vis(k, w, s) == Vis(k, w', s))
  {
    assert Value(k, u, w, s) == Value(k, u', w', s);
  }

  ghost function InvalidatedBy(k: KConf, rank: Name -> nat, top: nat, s: Name, all: bool): set<Name>
    requires WellFormed(k) && Acyclic(k, rank, top)
  {
    if all then k.syms.Keys else Affected(k, rank, top, s)
  }

  // The caches are right once those of `a` are dropped.
  ghost predicate CachesOkWithout(
    k: KConf, u: Users, w: World, a: set<Name>, vals: map<Name, string>, vis: map<Name, Tristate>,
    choiceVis: map<ChoiceId, Tristate>, sel: map<ChoiceId, Option<Name>>) {
    CachesOk(k, u, w, vals - Dropped(k, a), vis - Dropped(k, a), choiceVis - DroppedChoices(k, a),
      sel - DroppedChoices(k, a))
  }

  lemma AllInvalidated(
    k: KConf, u: Users, u': Users, w: World, w': World, vals: map<Name, string>, vis: map<Name, Tristate>,
    choiceVis: map<ChoiceId, Tristate>, sel: map<ChoiceId, Option<Name>>)
    requires WellFormed(k) && Solution(k, u, w) && Solution(k, u', w') && CachesOk(k, u, w, vals, vis, choiceVis, sel)
    ensures CachesOkWithout(k, u', w', k.syms.Keys, vals, vis, choiceVis, sel)
  {
    hide Solution, WellFormed, Vis, ChoiceVis, Selection, ChoicesOf;
    var a := k.syms.Keys - k.fixed.Keys;
    forall s | s in vals - a ensures vals[s] == w'.val(s) {
      FixedValue(k, u, u', w, w', s);
    }
    forall s | s in vis - a ensures vis[s] == Vis(k, w', s) {
      FixedValue(k, u, u', w, w', s);
    }
    forall c | c in k.choices ensures c in ChoicesOf(k, a) {
      AllChoices(k, c);
    }
  }

  lemma AllChoices(k: KConf, c: ChoiceId)
    requires WellFormed(k) && c in k.choices
    ensures c in ChoicesOf(k, k.syms.Keys - k.fixed.Keys)
  {
    var m := k.choices[c].members[0];
    MemberOf(k, c, m);
    assert m in k.syms.Keys - k.fixed.Keys && SymOf(k, m).choice == Some(c);
  }

  lemma MemberOf(k: KConf, c: ChoiceId, m: Name)
    requires WellFormed(k) && c in k.choices && m in k.choices[c].members
    ensures m in k.syms && m !in k.fixed && k.syms[m].choice == Some(c)
  {
  }

  /** Dropping the caches of a closed set keeps the rest right. */
  lemma SomeInvalidated(k: KConf, u: Users, u': Users, rank: Name -> nat, top: nat, w: World, w': World, a: set<Name>,
    vals: map<Name, string>, vis: map<Name, Tristate>, choiceVis: map<ChoiceId, Tristate>,
    sel: map<ChoiceId, Option<Name>>)
    requires WellFormed(k) && Acyclic(k, rank, top) && UsersOk(k, u) && Solution(k, u, w) && Solution(k, u', w')
    requires CachesOk(k, u, w, vals, vis, choiceVis, sel) && ClosedUnder(k, a) && UsersDifferIn(k, u, u', a)
      && w.mods == w'.mods
    ensures CachesOkWithout(k, u', w', a, vals, vis, choiceVis, sel)
  {
    hide Solution, WellFormed, Acyclic, Vis, ChoiceVis, Selection, ChoicesOf, Untouched, ClosedUnder, UsersDifferIn,
      UsersOk, PartsAgree;
    var b := a - k.fixed.Keys;
    forall s | s in vals - b ensures vals[s] == w'.val(s) {
      if s in a {
        FixedValue(k, u, u', w, w', s);
      } else {
        Unaffected(k, u, u', rank, top, w, w', a, s);
      }
    }
    forall s | s in vis - b ensures vis[s] == Vis(k, w', s) {
      Unaffected(k, u, u', rank, top, w, w', a, s);
    }
    forall c | c in choiceVis - ChoicesOf(k, b) ensures choiceVis[c] == ChoiceVis(k, w', c) {
      MemberChoice(k, a, c);
      UnaffectedChoice(k, u, u', rank, top, w, w', a, c);
    }
    forall c | c in sel - ChoicesOf(k, b) ensures sel[c] == Selection(k, u', w', c) {
      MemberChoice(k, a, c);
      UnaffectedChoice(k, u, u', rank, top, w, w', a, c);
    }
  }

  /** What set_user_value and unset_user_value drop is enough, unless modules are switched and not all is dropped. */
  lemma InvalidatedOk(
    k: KConf, u: Users, u': Users, rank: Name -> nat, top: nat, w: World, w': World, s: Name, all: bool,
    vals: map<Name, string>, vis: map<Name, Tristate>, choiceVis: map<ChoiceId, Tristate>,
    sel: map<ChoiceId, Option<Name>>)
    requires WellFormed(k) && Acyclic(k, rank, top) && UsersOk(k, u) && UsersOk(k, u') && Solution(k, u, w)
    requires CachesOk(k, u, w, vals, vis, choiceVis, sel) && w' == Fresh(k, u', rank)
    requires UsersDifferIn(k, u, u', Affected(k, rank, top, s)) && (s != Modules ==> SameUser(u, u', Modules))
    requires all || s != Modules || w.mods == w'.mods
    ensures Solution(k, u', w')
      && CachesOkWithout(k, u', w', InvalidatedBy(k, rank, top, s, all), vals, vis, choiceVis, sel)
  {
    FreshSolves(k, u', rank, top);
    if all {
      AllInvalidated(k, u, u', w, w', vals, vis, choiceVis, sel);
    } else {
      AffectedClosed(k, rank, top, s);
      if s != Modules {
        ModsEqual(k, u, u', w, w');
      }
      SomeInvalidated(k, u, u', rank, top, w, w', Affected(k, rank, top, s), vals, vis, choiceVis, sel);
    }
  }

  // ----- ranks of what is read -----

  lemma OwnRank(k: KConf, rank: Name -> nat, top: nat, s: Name)
    requires WellFormed(k) && Acyclic(k, rank, top)
    ensures forall x :: x in PromptSyms(SymOf(k, s).prompts) ==> rank(x) < rank(s)
    ensures forall x :: x in DefaultSyms(SymOf(k, s).defaults) ==> rank(x) < rank(s)
    ensures forall x :: x in ExprSyms(SymOf(k, s).revDep) ==> rank(x) < rank(s)
    ensures forall x :: x in RangeSyms(SymOf(k, s).ranges) ==> rank(x) < rank(s)
    ensures rank(s) == 0 ==> SymOf(k, s) == NoSym || s == Modules
    ensures rank(s) == 0 ==> ModulesPlain(SymOf(k, s))
  {
    forall x | x in OwnSyms(SymOf(k, s)) ensures rank(x) < rank(s) {
      assert x in DirectUses(k, s);
    }
  }

  lemma ChoiceRank(k: KConf, rank: Name -> nat, top: nat, c: ChoiceId)
    requires WellFormed(k) && Acyclic(k, rank, top) && c in k.choices
    ensures forall x :: x in ChoiceSyms(k.choices[c]) ==> rank(x) < rank(k.choices[c].members[0])
    ensures rank(k.choices[c].members[0]) > 0
    ensures forall m :: m in k.choices[c].members ==> rank(m) == rank(k.choices[c].members[0])
  {
    var m := k.choices[c].members[0];
    assert m in k.choices[c].members && SymOf(k, m).choice == Some(c);
    forall x | x in ChoiceSyms(k.choices[c]) ensures rank(x) < rank(m) {
      assert x in DirectUses(k, m);
    }
  }

  lemma ChoiceRankOf(k: KConf, rank: Name -> nat, top: nat, s: Name)
    requires WellFormed(k) && Acyclic(k, rank, top) && SymOf(k, s).choice.Some?
    ensures SymOf(k, s).choice.value in k.choices
    ensures rank(s) == rank(k.choices[SymOf(k, s).choice.value].members[0]) > 0
  {
    ChoiceRank(k, rank, top, SymOf(k, s).choice.value);
  }

  lemma {:induction false} PromptSymsHas(prompts: seq<Option<KExpr>>, i: nat)
    requires i < |prompts|
    ensures OptSyms(prompts[i]) <= PromptSyms(prompts)
  {
    if i < |prompts| - 1 {
      PromptSymsHas(prompts[..|prompts| - 1], i);
    }
  }

  lemma {:induction false} DefaultSymsHas(ds: seq<KDefault>, i: nat)
    requires i < |ds|
    ensures ExprSyms(ds[i].value) <= DefaultSyms(ds) && OptSyms(ds[i].cond) <= DefaultSyms(ds)
  {
    if i > 0 {
      DefaultSymsHas(ds[1..], i - 1);
    }
  }

  lemma {:induction false} RangeSymsHas(rs: seq<KRange>, i: nat)
    requires i < |rs|
    ensures AtomSyms(rs[i].low) <= RangeSyms(rs) && AtomSyms(rs[i].high) <= RangeSyms(rs)
      && OptSyms(rs[i].cond) <= RangeSyms(rs)
  {
    if i > 0 {
      RangeSymsHas(rs[1..], i - 1);
    }
  }

  lemma {:induction false} ChoiceDefaultSymsHas(ds: seq<KChoiceDefault>, i: nat)
    requires i < |ds|
    ensures OptSyms(ds[i].cond) <= ChoiceDefaultSyms(ds)
  {
    if i > 0 {
      ChoiceDefaultSymsHas(ds[1..], i - 1);
    }
  }

  lemma {:induction false} ListSymsHas(e: KExpr, i: nat, n: nat)
    requires e.KOp? && i < n <= |e.es|
    ensures ExprSyms(e.es[i]) <= ListSyms(e, n)
  {
    if i < n - 1 {
      ListSymsHas(e, i, n - 1);
    }
  }

  // Once an AND is n or an OR is y, the remaining operands do not matter.
  lemma {:induction false} EvalListDecided(e: KExpr, i: nat, w: World)
    requires e.KOp? && i <= |e.es| && EvalList(e, i, w) == (if e.op.AndOp? then NO else YES)
    ensures EvalList(e, |e.es|, w) == EvalList(e, i, w)
    decreases |e.es| - i
  {
    if i < |e.es| {
      EvalListDecided(e, i + 1, w);
    }
  }

  // ----- unsetting MODULES -----

  const ModulesSym := KSym(KBool, [None], [], KAtom(AStr("n")), [], None)
  const TristateSym := KSym(KTristate, [], [KDefault(KAtom(AStr("m")), None)], KAtom(AStr("n")), [], None)

  // MODULES with a prompt, and a tristate symbol that defaults to m.
  function TwoSymbols(parse: (string, nat) -> Option<int>, show: (int, nat) -> string): KConf {
    KConf(map[Modules := ModulesSym, "T" := TristateSym], map[], map[], parse, show)
  }

  lemma TwoSymbolsOk(k: KConf, rank: Name -> nat)
    requires k == TwoSymbols(k.parse, k.show) && forall s :: rank(s) == if s == Modules then 0 else 1
    ensures WellFormed(k) && Acyclic(k, rank, 1)
    ensures forall x :: DepOf(k, x) == {} && Siblings(k, x) == {}
  {
    assert SymOf(k, Modules) == ModulesSym && SymOf(k, "T") == TristateSym;
    assert PromptSyms(ModulesSym.prompts) == {} by {
      assert ModulesSym.prompts[..0] == [];
    }
    assert DefaultSyms(TristateSym.defaults) == {} by {
      assert TristateSym.defaults[1..] == [];
    }
    assert OwnSyms(ModulesSym) == {} && OwnSyms(TristateSym) == {};
    assert forall t :: t in k.syms ==> DirectUses(k, t) == {};
  }

  lemma TwoSymbolsValues(k: KConf, u: Users, w: World)
    requires k == TwoSymbols(k.parse, k.show) && Solution(k, u, w)
    requires "T" !in u.sym && (Modules in u.sym ==> u.sym[Modules] == "y")
    ensures w.val("T") == if Modules in u.sym then "m" else "y"
  {
    assert VisMax([None], 1, w) == YES;
    assert Vis(k, w, Modules) == YES;
    assert Value(k, u, w, Modules) == w.val(Modules) && Value(k, u, w, "T") == w.val("T");
  }

  /** unset_user_value on MODULES drops the values of MODULES and its dependents only: "T" is not among them, yet
      its value changes from m to y. */
  lemma UnsetModulesStale(k: KConf, rank: Name -> nat)
    requires k == TwoSymbols(k.parse, k.show) && forall s :: rank(s) == if s == Modules then 0 else 1
    ensures WellFormed(k) && Acyclic(k, rank, 1)
    ensures var u := Users(map[Modules := "y"], map[], map[]); var u' := UnassignUser(k, u, Modules);
      && UsersOk(k, u) && UsersOk(k, u') && "T" !in InvalidatedBy(k, rank, 1, Modules, false)
      && Fresh(k, u, rank).val("T") == "m" && Fresh(k, u', rank).val("T") == "y"
  {
    TwoSymbolsOk(k, rank);
    var u := Users(map[Modules := "y"], map[], map[]);
    var u' := UnassignUser(k, u, Modules);
    assert u' == Users(map[], map[], map[]);
    assert Dependents(k, rank, 1, Modules) == {};
    hide WellFormed, Acyclic, Solution, Fresh, Dependents;
    FreshSolves(k, u, rank, 1);
    FreshSolves(k, u', rank, 1);
    TwoSymbolsValues(k, u, Fresh(k, u, rank));
    TwoSymbolsValues(k, u', Fresh(k, u', rank));
  }
}
