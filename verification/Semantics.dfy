/** The values of symbols, defined without caching by recursion along the dependency order. */
module Semantics {
  import opened Wrappers
  import opened Expr

  datatype SymValue = SymValue(val: string, tri: Tristate)

  datatype Default = Default(value: Expr, cond: Option<Expr>)

  // The properties of one symbol; an absent condition is y, an absent reverse dependency n.
  datatype SymbolDef = SymbolDef(
    prompts: seq<Option<Expr>>,
    defaults: seq<Default>,
    dirDep: Option<Expr>,
    revDep: Option<Expr>)

  // A configuration without choices and ranges; `modules` is modules_val.
  datatype Kconfig = Kconfig(defs: map<Symbol, SymbolDef>, modules: Tristate)

  type UserValues = map<Symbol, SymValue>

  const NoDef := SymbolDef([], [], None, None)

  function DefOf(k: Kconfig, s: Symbol): SymbolDef {
    if s in k.defs then k.defs[s] else NoDef
  }

  function UserOf(u: UserValues, s: Symbol): Option<SymValue> {
    if s in u then Some(u[s]) else None
  }

  predicate TriType(ty: SymType) {
    ty.BooleanType? || ty.TristateType?
  }

  predicate TextType(ty: SymType) {
    ty.IntType? || ty.HexType? || ty.StringType?
  }

  // sym_get_type: a tristate symbol is boolean when modules are off.
  predicate ActsBoolean(ty: SymType, modules: Tristate) {
    ty.BooleanType? || (ty.TristateType? && modules == NO)
  }

  // ----- one symbol, given the values of the symbols it uses -----

  // The maximum over the first `n` prompts.
  function PromptMax(prompts: seq<Option<Expr>>, n: nat, v: Valuation): Tristate
    requires n <= |prompts|
  {
    if n == 0 then NO else Apply(OrOp, PromptMax(prompts, n - 1, v), EvalCond(prompts[n - 1], v))
  }

  function Visibility(ty: SymType, d: SymbolDef, v: Valuation): Tristate {
    var t := PromptMax(d.prompts, |d.prompts|, v);
    if t == MOD && (!ty.TristateType? || v.modules == NO) then YES else t
  }

  function DirectDep(d: SymbolDef, v: Valuation): Tristate {
    var t := EvalCond(d.dirDep, v);
    if t == MOD then YES else t
  }

  function ReverseDep(ty: SymType, d: SymbolDef, v: Valuation): Tristate {
    var t := if d.revDep.Some? then Eval(d.revDep.value, v) else NO;
    if t == MOD && ActsBoolean(ty, v.modules) then YES else t
  }

  // sym_get_default_prop: the index of the first default whose condition is not n, or the end.
  function ActiveDefault(ds: seq<Default>, v: Valuation): (i: nat)
    ensures i <= |ds|
    ensures i < |ds| ==> EvalCond(ds[i].cond, v) != NO
    ensures forall j :: 0 <= j < i ==> EvalCond(ds[j].cond, v) == NO
  {
    if ds == [] then 0
    else if EvalCond(ds[0].cond, v) != NO then 0
    else 1 + ActiveDefault(ds[1..], v)
  }

  function DefaultTri(d: SymbolDef, v: Valuation): Tristate {
    var i := ActiveDefault(d.defaults, v);
    if i < |d.defaults| then Apply(AndOp, Eval(d.defaults[i].value, v), EvalCond(d.defaults[i].cond, v)) else NO
  }

  // The curr.val field, which for boolean and tristate symbols is always that of symbol_no.
  function RawText(v: Valuation, s: Symbol): string {
    if s.Const? then s.name else if TriType(s.ty) then "n" else v.text(s)
  }

  function DefaultText(d: SymbolDef, v: Valuation): Option<string> {
    var i := ActiveDefault(d.defaults, v);
    if i < |d.defaults| && d.defaults[i].value.Sym? then Some(RawText(v, d.defaults[i].value.s)) else None
  }

  function Promoted(ty: SymType, t: Tristate, modules: Tristate): Tristate {
    if t == MOD && ActsBoolean(ty, modules) then YES else t
  }

  // The value of a boolean or tristate symbol once its base value is known.
  function Selected(ty: SymType, base: Tristate, d: SymbolDef, v: Valuation): Tristate {
    Promoted(ty, Apply(OrOp, base, ReverseDep(ty, d, v)), v.modules)
  }

  // The new value sym_calc_value computes.
  function Calc(s: Symbol, d: SymbolDef, user: Option<SymValue>, v: Valuation): SymValue {
    if s.Const? || s.ty.UnknownType? then SymValue(s.name, if s.Const? then ConstTri(s.name) else NO)
    else
      var inEffect := Visibility(s.ty, d, v) != NO && user.Some?;
      if TriType(s.ty) then
        var base := if inEffect then Apply(AndOp, user.value.tri, Visibility(s.ty, d, v)) else DefaultTri(d, v);
        SymValue("n", Selected(s.ty, base, d, v))
      else if inEffect then SymValue(user.value.val, NO)
      else SymValue(if DefaultText(d, v).Some? then DefaultText(d, v).value else "", NO)
  }

  // SYMBOL_WRITE as sym_calc_value leaves it.
  predicate Written(s: Symbol, d: SymbolDef, v: Valuation) {
    if s.Const? || s.ty.UnknownType? then false
    else
      || Visibility(s.ty, d, v) != NO
      || (TriType(s.ty) && (ReverseDep(s.ty, d, v) != NO || ActiveDefault(d.defaults, v) < |d.defaults|))
      || (TextType(s.ty) && DefaultText(d, v).Some?)
  }

  // ----- the whole configuration -----

  function Syms(e: Expr): set<Symbol> {
    match e
    case Sym(s) => {s}
    case Equal(l, r) => {l, r}
    case Unequal(l, r) => {l, r}
    case Not(x) => Syms(x)
    case Bin(_, a, b) => Syms(a) + Syms(b)
  }

  function SymsOpt(e: Option<Expr>): set<Symbol> {
    if e.Some? then Syms(e.value) else {}
  }

  // The symbols the value of a symbol may read.
  function Uses(d: SymbolDef): set<Symbol> {
    (set i, s | 0 <= i < |d.prompts| && s in SymsOpt(d.prompts[i]) :: s)
    + (set i, s | 0 <= i < |d.defaults| && s in Syms(d.defaults[i].value) + SymsOpt(d.defaults[i].cond) :: s)
    + SymsOpt(d.dirDep) + SymsOpt(d.revDep)
  }

  /** `rank` witnesses that no symbol depends on itself. */
  ghost predicate Acyclic(k: Kconfig, rank: Symbol -> nat) {
    forall s, t :: s in k.defs && t in Uses(k.defs[s]) ==> rank(t) < rank(s)
  }

  /** The value of a symbol, computed from the values of the symbols below it. */
  ghost function Value(k: Kconfig, u: UserValues, rank: Symbol -> nat, s: Symbol): SymValue
    decreases rank(s), 1
  {
    Calc(s, DefOf(k, s), UserOf(u, s), Below(k, u, rank, rank(s)))
  }

  ghost function Below(k: Kconfig, u: UserValues, rank: Symbol -> nat, n: nat): Valuation
    decreases n, 0
  {
    Valuation((t: Symbol) => if rank(t) < n then Value(k, u, rank, t).tri else NO,
              (t: Symbol) => if rank(t) < n then Value(k, u, rank, t).val else "",
              k.modules)
  }

  ghost function Values(k: Kconfig, u: UserValues, rank: Symbol -> nat): Valuation {
    Valuation((t: Symbol) => Value(k, u, rank, t).tri, (t: Symbol) => Value(k, u, rank, t).val, k.modules)
  }

  // ----- evaluation depends on nothing but the symbols used -----

  ghost predicate Agree(ss: set<Symbol>, v: Valuation, w: Valuation) {
    v.modules == w.modules && forall s :: s in ss ==> v.tri(s) == w.tri(s) && v.text(s) == w.text(s)
  }

  lemma {:induction false} EvalAgree(e: Expr, v: Valuation, w: Valuation)
    requires Agree(Syms(e), v, w)
    ensures Eval(e, v) == Eval(e, w)
  {
    match e
    case Not(x) => EvalAgree(x, v, w);
    case Bin(_, a, b) =>
      EvalAgree(a, v, w);
      EvalAgree(b, v, w);
    case Sym(s) => assert s in Syms(e);
    case Equal(l, r) => assert l in Syms(e) && r in Syms(e);
    case Unequal(l, r) => assert l in Syms(e) && r in Syms(e);
  }

  lemma EvalCondAgree(e: Option<Expr>, v: Valuation, w: Valuation)
    requires Agree(SymsOpt(e), v, w)
    ensures EvalCond(e, v) == EvalCond(e, w)
  {
    if e.Some? {
      EvalAgree(e.value, v, w);
    }
  }

  lemma UsesPrompt(d: SymbolDef, i: nat)
    requires i < |d.prompts|
    ensures SymsOpt(d.prompts[i]) <= Uses(d)
  {
  }

  lemma UsesDefault(d: SymbolDef, i: nat)
    requires i < |d.defaults|
    ensures Syms(d.defaults[i].value) <= Uses(d) && SymsOpt(d.defaults[i].cond) <= Uses(d)
  {
    forall s | s in SymsOpt(d.defaults[i].cond) || s in Syms(d.defaults[i].value) ensures s in Uses(d) {
      assert s in Syms(d.defaults[i].value) + SymsOpt(d.defaults[i].cond);
    }
  }

  // The conditions of the first `i` defaults are n.
  predicate Inactive(ds: seq<Default>, i: nat, v: Valuation)
    requires i <= |ds|
  {
    i == 0 || (Inactive(ds, i - 1, v) && EvalCond(ds[i - 1].cond, v) == NO)
  }

  lemma {:induction false} InactiveAt(ds: seq<Default>, i: nat, v: Valuation, j: nat)
    requires j < i <= |ds| && Inactive(ds, i, v)
    ensures EvalCond(ds[j].cond, v) == NO
  {
    if j < i - 1 {
      InactiveAt(ds, i - 1, v, j);
    }
  }

  lemma ActiveDefaultIs(ds: seq<Default>, i: nat, v: Valuation)
    requires i <= |ds| && (i < |ds| ==> EvalCond(ds[i].cond, v) != NO) && Inactive(ds, i, v)
    ensures ActiveDefault(ds, v) == i
  {
    var j := ActiveDefault(ds, v);
    if j < i {
      InactiveAt(ds, i, v, j);
    }
    assert !(i < j);
  }

  lemma {:induction false} InactiveUpTo(ds: seq<Default>, i: nat, v: Valuation)
    requires i <= |ds| && forall j :: 0 <= j < i ==> EvalCond(ds[j].cond, v) == NO
    ensures Inactive(ds, i, v)
  {
    if i > 0 {
      InactiveUpTo(ds, i - 1, v);
    }
  }

  lemma {:induction false} PromptMaxAgree(d: SymbolDef, n: nat, v: Valuation, w: Valuation)
    requires n <= |d.prompts| && Agree(Uses(d), v, w)
    ensures PromptMax(d.prompts, n, v) == PromptMax(d.prompts, n, w)
  {
    if n > 0 {
      PromptMaxAgree(d, n - 1, v, w);
      UsesPrompt(d, n - 1);
      EvalCondAgree(d.prompts[n - 1], v, w);
    }
  }

  lemma DefaultsAgree(d: SymbolDef, v: Valuation, w: Valuation)
    requires Agree(Uses(d), v, w)
    ensures ActiveDefault(d.defaults, v) == ActiveDefault(d.defaults, w)
    ensures DefaultTri(d, v) == DefaultTri(d, w) && DefaultText(d, v) == DefaultText(d, w)
  {
    forall i | 0 <= i < |d.defaults|
      ensures EvalCond(d.defaults[i].cond, v) == EvalCond(d.defaults[i].cond, w)
      ensures Eval(d.defaults[i].value, v) == Eval(d.defaults[i].value, w)
      ensures d.defaults[i].value.Sym? ==> RawText(v, d.defaults[i].value.s) == RawText(w, d.defaults[i].value.s)
    {
      UsesDefault(d, i);
      EvalCondAgree(d.defaults[i].cond, v, w);
      EvalAgree(d.defaults[i].value, v, w);
    }
    InactiveUpTo(d.defaults, ActiveDefault(d.defaults, v), w);
    ActiveDefaultIs(d.defaults, ActiveDefault(d.defaults, v), w);
  }

  lemma CalcAgree(s: Symbol, d: SymbolDef, user: Option<SymValue>, v: Valuation, w: Valuation)
    requires Agree(Uses(d), v, w)
    ensures Calc(s, d, user, v) == Calc(s, d, user, w)
    ensures s.Config?
      ==> Visibility(s.ty, d, v) == Visibility(s.ty, d, w) && ReverseDep(s.ty, d, v) == ReverseDep(s.ty, d, w)
    ensures DirectDep(d, v) == DirectDep(d, w)
    ensures Written(s, d, v) == Written(s, d, w)
  {
    hide PromptMax, ActiveDefault, DefaultTri, DefaultText, Uses;
    PromptMaxAgree(d, |d.prompts|, v, w);
    DefaultsAgree(d, v, w);
    EvalCondAgree(d.dirDep, v, w) by {
      UsesDeps(d, v, w);
    }
    EvalCondAgree(d.revDep, v, w) by {
      UsesDeps(d, v, w);
    }
  }

  lemma UsesDeps(d: SymbolDef, v: Valuation, w: Valuation)
    requires Agree(Uses(d), v, w)
    ensures Agree(SymsOpt(d.dirDep), v, w) && Agree(SymsOpt(d.revDep), v, w)
  {
  }

  // The values below a symbol are the values of the configuration.
  lemma ValuesAgree(k: Kconfig, u: UserValues, rank: Symbol -> nat, s: Symbol)
    requires Acyclic(k, rank)
    ensures Agree(Uses(DefOf(k, s)), Below(k, u, rank, rank(s)), Values(k, u, rank))
  {
  }

  /** Every symbol satisfies its defining equation in the valuation made of all values. */
  lemma ValueEquation(k: Kconfig, u: UserValues, rank: Symbol -> nat, s: Symbol)
    requires Acyclic(k, rank)
    ensures Value(k, u, rank, s) == Calc(s, DefOf(k, s), UserOf(u, s), Values(k, u, rank))
  {
    ValuesAgree(k, u, rank, s);
    CalcAgree(s, DefOf(k, s), UserOf(u, s), Below(k, u, rank, rank(s)), Values(k, u, rank));
  }

  /** `v` satisfies the defining equation of every symbol. */
  ghost predicate Solution(k: Kconfig, u: UserValues, v: Valuation) {
    && v.modules == k.modules
    && forall s: Symbol {:trigger Calc(s, DefOf(k, s), UserOf(u, s), v)} ::
         Calc(s, DefOf(k, s), UserOf(u, s), v) == SymValue(v.text(s), v.tri(s))
  }

  lemma ValuesSolve(k: Kconfig, u: UserValues, rank: Symbol -> nat)
    requires Acyclic(k, rank)
    ensures Solution(k, u, Values(k, u, rank))
  {
    forall s: Symbol ensures Calc(s, DefOf(k, s), UserOf(u, s), Values(k, u, rank)) == Value(k, u, rank, s) {
      ValueEquation(k, u, rank, s);
    }
  }

  /** Without cycles the equations have one solution. */
  lemma {:induction false} SolutionUnique(k: Kconfig, u: UserValues, rank: Symbol -> nat, v: Valuation, s: Symbol)
    requires Acyclic(k, rank) && Solution(k, u, v)
    ensures SymValue(v.text(s), v.tri(s)) == Value(k, u, rank, s)
    decreases rank(s)
  {
    var d, w := DefOf(k, s), Below(k, u, rank, rank(s));
    forall t | t in Uses(d) ensures v.tri(t) == w.tri(t) && v.text(t) == w.text(t) {
      SolutionUnique(k, u, rank, v, t);
    }
    CalcAgree(s, d, UserOf(u, s), v, w);
  }

  // ----- what every value satisfies -----

  lemma CalcWellTyped(s: Symbol, d: SymbolDef, user: Option<SymValue>, v: Valuation)
    requires s.Config?
    ensures var t := Calc(s, d, user, v).tri;
      && (s.IsBoolean() ==> t != MOD)
      && (s.IsTristate() && v.modules == NO ==> t != MOD)
      && (TriType(s.ty) ==> t >= ReverseDep(s.ty, d, v))
      && (!TriType(s.ty) ==> t == NO)
  {
  }

  /** The resolver only produces well-typed valuations, which is what the expression rewrites rely on. */
  lemma ValuesWellTyped(k: Kconfig, u: UserValues, rank: Symbol -> nat)
    ensures WellTyped(Values(k, u, rank))
  {
    forall s: Symbol
      ensures s.IsBoolean() ==> Values(k, u, rank).tri(s) != MOD
      ensures s.IsTristate() && k.modules == NO ==> Values(k, u, rank).tri(s) != MOD
    {
      if s.Config? {
        CalcWellTyped(s, DefOf(k, s), UserOf(u, s), Below(k, u, rank, rank(s)));
      }
    }
  }

  /** Select is respected: no boolean or tristate value is below the reverse dependency. */
  lemma ValueAboveReverseDep(k: Kconfig, u: UserValues, rank: Symbol -> nat, s: Symbol)
    requires Acyclic(k, rank) && s.Config? && TriType(s.ty)
    ensures Value(k, u, rank, s).tri >= ReverseDep(s.ty, DefOf(k, s), Values(k, u, rank))
  {
    ValueEquation(k, u, rank, s);
    CalcWellTyped(s, DefOf(k, s), UserOf(u, s), Values(k, u, rank));
  }

  // ----- user values act only on what depends on the symbol -----

  /** `t` is `s` or uses a symbol that depends on `s`. */
  ghost predicate DependsOn(k: Kconfig, rank: Symbol -> nat, t: Symbol, s: Symbol)
    requires Acyclic(k, rank)
    decreases rank(t)
  {
    t == s || (t in k.defs && exists x :: x in Uses(k.defs[t]) && DependsOn(k, rank, x, s))
  }

  lemma {:induction false} UnaffectedByUser(
    k: Kconfig, u: UserValues, w: UserValues, rank: Symbol -> nat, s: Symbol, t: Symbol)
    requires Acyclic(k, rank) && !DependsOn(k, rank, t, s)
    requires forall x :: x != s ==> UserOf(u, x) == UserOf(w, x)
    ensures Value(k, u, rank, t) == Value(k, w, rank, t)
    decreases rank(t)
  {
    var d := DefOf(k, t);
    var vu, vw := Below(k, u, rank, rank(t)), Below(k, w, rank, rank(t));
    forall x | x in Uses(d) ensures vu.tri(x) == vw.tri(x) && vu.text(x) == vw.text(x) {
      UnaffectedByUser(k, u, w, rank, s, x);
    }
    CalcAgree(t, d, UserOf(u, t), vu, vw);
  }

  lemma UsesUnaffected(k: Kconfig, u: UserValues, w: UserValues, rank: Symbol -> nat, s: Symbol)
    requires Acyclic(k, rank)
    requires forall x :: x != s ==> UserOf(u, x) == UserOf(w, x)
    ensures Agree(Uses(DefOf(k, s)), Values(k, u, rank), Values(k, w, rank))
  {
    forall x | x in Uses(DefOf(k, s)) ensures Value(k, u, rank, x) == Value(k, w, rank, x) {
      NotCircular(k, rank, x, s);
      UnaffectedByUser(k, u, w, rank, s, x);
    }
  }

  lemma {:induction false} NotCircular(k: Kconfig, rank: Symbol -> nat, t: Symbol, s: Symbol)
    requires Acyclic(k, rank) && rank(t) < rank(s)
    ensures !DependsOn(k, rank, t, s)
    decreases rank(t)
  {
    if t in k.defs {
      forall x | x in Uses(k.defs[t]) ensures !DependsOn(k, rank, x, s) {
        NotCircular(k, rank, x, s);
      }
    }
  }

  // ----- assigning a user value -----

  // sym_tristate_within_range for a symbol that is no choice value
  predicate WithinRange(ty: SymType, modules: Tristate, vis: Tristate, rev: Tristate, val: Tristate) {
    && vis != NO && TriType(ty) && !(ActsBoolean(ty, modules) && val == MOD)
    && vis > rev && rev <= val <= vis
  }

  // sym_set_tristate_value sets def[S_DEF_USER].tri and leaves the text alone.
  function SetUserTri(u: UserValues, s: Symbol, val: Tristate): UserValues {
    u[s := SymValue(if s in u then u[s].val else "", val)]
  }

  /** The one family of accepted assignments that do not take effect: y given to a symbol that shows y
      by default while its prompt only offers m. */
  predicate Truncated(vis: Tristate, rev: Tristate, val: Tristate) {
    vis == MOD && rev != YES && val == YES
  }

  // The step for the symbol itself, whose visibility and reverse dependency do not change.
  lemma CalcAssigned(s: Symbol, d: SymbolDef, before: Option<SymValue>, after: SymValue, v: Valuation)
    requires s.Config? && TriType(s.ty)
    requires
      || Calc(s, d, before, v).tri == after.tri
      || WithinRange(s.ty, v.modules, Visibility(s.ty, d, v), ReverseDep(s.ty, d, v), after.tri)
    ensures Calc(s, d, Some(after), v).tri == after.tri
      <==> !Truncated(Visibility(s.ty, d, v), ReverseDep(s.ty, d, v), after.tri)
  {
    CalcWellTyped(s, d, before, v);
  }

  /** An assignment sym_set_tristate_value accepts takes effect exactly when it is not truncated, in
      particular always when it is within range; it changes nothing that does not depend on the symbol. */
  lemma AcceptedAssignment(k: Kconfig, u: UserValues, rank: Symbol -> nat, s: Symbol, val: Tristate)
    requires Acyclic(k, rank) && s.Config? && TriType(s.ty)
    requires var v := Values(k, u, rank);
      || Value(k, u, rank, s).tri == val
      || WithinRange(s.ty, k.modules, Visibility(s.ty, DefOf(k, s), v), ReverseDep(s.ty, DefOf(k, s), v), val)
    ensures var v := Values(k, u, rank);
      Value(k, SetUserTri(u, s, val), rank, s).tri == val
      <==> !Truncated(Visibility(s.ty, DefOf(k, s), v), ReverseDep(s.ty, DefOf(k, s), v), val)
    ensures var v := Values(k, u, rank);
      WithinRange(s.ty, k.modules, Visibility(s.ty, DefOf(k, s), v), ReverseDep(s.ty, DefOf(k, s), v), val)
      ==> Value(k, SetUserTri(u, s, val), rank, s).tri == val
    ensures forall t :: !DependsOn(k, rank, t, s) ==> Value(k, SetUserTri(u, s, val), rank, t) == Value(k, u, rank, t)
  {
    var u' := SetUserTri(u, s, val);
    var v, v' := Values(k, u, rank), Values(k, u', rank);
    UsesUnaffected(k, u, u', rank, s);
    CalcAgree(s, DefOf(k, s), UserOf(u', s), v, v');
    ValueEquation(k, u, rank, s);
    ValueEquation(k, u', rank, s);
    CalcAssigned(s, DefOf(k, s), UserOf(u, s), u'[s], v);
    forall t | !DependsOn(k, rank, t, s) ensures Value(k, u', rank, t) == Value(k, u, rank, t) {
      UnaffectedByUser(k, u, u', rank, s, t);
    }
  }

  // If the symbol itself keeps its value, every symbol does.
  lemma {:induction false} SameValueSameAll(
    k: Kconfig, u: UserValues, w: UserValues, rank: Symbol -> nat, s: Symbol, t: Symbol)
    requires Acyclic(k, rank) && Value(k, u, rank, s) == Value(k, w, rank, s)
    requires forall x :: x != s ==> UserOf(u, x) == UserOf(w, x)
    ensures Value(k, u, rank, t) == Value(k, w, rank, t)
    decreases rank(t)
  {
    if t != s {
      var d := DefOf(k, t);
      var vu, vw := Below(k, u, rank, rank(t)), Below(k, w, rank, rank(t));
      forall x | x in Uses(d) ensures vu.tri(x) == vw.tri(x) && vu.text(x) == vw.text(x) {
        SameValueSameAll(k, u, w, rank, s, x);
      }
      CalcAgree(t, d, UserOf(u, t), vu, vw);
    }
  }
}
