/** What the values of symbols are, said outright: minima, maxima and the first default that applies. */
module ValueLaws {
  import opened Wrappers
  import opened Expr
  import opened Semantics

  function Least(x: Tristate, y: Tristate): Tristate {
    if x <= y then x else y
  }

  function Greatest(x: Tristate, y: Tristate): Tristate {
    if x <= y then y else x
  }

  // The value of a condition; without one it always holds.
  function Given(c: Option<Expr>, v: Valuation): Tristate {
    match c
    case None => YES
    case Some(e) => Eval(e, v)
  }

  // Where m is no value, y stands for it.
  function WithoutM(noM: bool, t: Tristate): Tristate {
    if noM && t == MOD then YES else t
  }

  predicate Twofold(ty: SymType, modules: Tristate) {
    ty == BooleanType || (ty == TristateType && modules == NO)
  }

  // What the selects of a symbol demand.
  function Demanded(d: SymbolDef, v: Valuation): Tristate {
    match d.revDep
    case None => NO
    case Some(e) => Eval(e, v)
  }

  ghost predicate IsGreatest(prompts: seq<Option<Expr>>, v: Valuation, g: Tristate) {
    && (forall i :: 0 <= i < |prompts| ==> Given(prompts[i], v) <= g)
    && (g == NO || exists i :: 0 <= i < |prompts| && Given(prompts[i], v) == g)
  }

  ghost predicate FirstActive(ds: seq<Default>, v: Valuation, j: nat) {
    j < |ds| && Given(ds[j].cond, v) != NO && forall i :: 0 <= i < j ==> Given(ds[i].cond, v) == NO
  }

  ghost predicate NoneActive(ds: seq<Default>, v: Valuation) {
    forall i :: 0 <= i < |ds| ==> Given(ds[i].cond, v) == NO
  }

  // The user has nothing to say: no value was given, or no prompt shows.
  ghost predicate Unasked(u: UserValues, s: Symbol, d: SymbolDef, v: Valuation) {
    s !in u || IsGreatest(d.prompts, v, NO)
  }

  // ----- expressions -----

  /** Expressions in three values. */
  lemma EvalLaw(a: Expr, b: Expr, l: Symbol, r: Symbol, v: Valuation)
    ensures Eval(Bin(AndOp, a, b), v) == Least(Eval(a, v), Eval(b, v))
    ensures Eval(Bin(OrOp, a, b), v) == Greatest(Eval(a, v), Eval(b, v))
    ensures Eval(Not(a), v) == 2 - Eval(a, v)
    ensures Eval(Equal(l, r), v) == if TextOf(v, l) == TextOf(v, r) then YES else NO
    ensures Eval(Unequal(l, r), v) == 2 - Eval(Equal(l, r), v)
    ensures Eval(Sym(SymYes), v) == YES && Eval(Sym(SymMod), v) == MOD && Eval(Sym(SymNo), v) == NO
    ensures l.Config? ==> Eval(Sym(l), v) == v.tri(l)
  {
    assert "y" != "m" && "y" != "n" && "m" != "n" by {
      assert "y"[0] != "m"[0] && "y"[0] != "n"[0] && "m"[0] != "n"[0];
    }
  }

  // ----- the parts -----

  lemma {:induction false} PromptGreatest(prompts: seq<Option<Expr>>, n: nat, v: Valuation)
    requires n <= |prompts|
    ensures IsGreatest(prompts[..n], v, PromptMax(prompts, n, v))
  {
    if n > 0 {
      PromptGreatest(prompts, n - 1, v);
      var before, now := prompts[..n - 1], prompts[..n];
      assert now == before + [prompts[n - 1]] && now[n - 1] == prompts[n - 1];
      var g := PromptMax(prompts, n - 1, v);
      if g != NO {
        var i :| 0 <= i < |before| && Given(before[i], v) == g;
        assert now[i] == before[i];
      }
    }
  }

  lemma GreatestUnique(prompts: seq<Option<Expr>>, v: Valuation, g: Tristate, h: Tristate)
    requires IsGreatest(prompts, v, g) && IsGreatest(prompts, v, h)
    ensures g == h
  {
  }

  /** sym_calc_visibility: the greatest prompt condition, where m is y for anything but a tristate with modules on. */
  lemma VisibilityLaw(ty: SymType, d: SymbolDef, v: Valuation, g: Tristate)
    requires IsGreatest(d.prompts, v, g)
    ensures Visibility(ty, d, v) == WithoutM(ty != TristateType || v.modules == NO, g)
  {
    PromptGreatest(d.prompts, |d.prompts|, v);
    assert d.prompts[..|d.prompts|] == d.prompts;
    GreatestUnique(d.prompts, v, g, PromptMax(d.prompts, |d.prompts|, v));
  }

  lemma GreatestExists(prompts: seq<Option<Expr>>, v: Valuation) returns (g: Tristate)
    ensures IsGreatest(prompts, v, g)
  {
    g := PromptMax(prompts, |prompts|, v);
    PromptGreatest(prompts, |prompts|, v);
    assert prompts[..|prompts|] == prompts;
  }

  lemma DependencyLaw(ty: SymType, d: SymbolDef, v: Valuation)
    ensures ReverseDep(ty, d, v) == WithoutM(Twofold(ty, v.modules), Demanded(d, v))
    ensures DirectDep(d, v) == WithoutM(true, Given(d.dirDep, v))
  {
  }

  lemma ActiveIs(ds: seq<Default>, v: Valuation, j: nat)
    requires FirstActive(ds, v, j)
    ensures ActiveDefault(ds, v) == j
  {
  }

  lemma ActiveNone(ds: seq<Default>, v: Valuation)
    requires NoneActive(ds, v)
    ensures ActiveDefault(ds, v) == |ds|
  {
  }

  lemma Inert(u: UserValues, s: Symbol, d: SymbolDef, v: Valuation)
    requires Unasked(u, s, d, v) && s.Config?
    ensures s !in u || Visibility(s.ty, d, v) == NO
  {
    if s in u {
      VisibilityLaw(s.ty, d, v, NO);
    }
  }

  // ----- the new value of one symbol -----

  predicate IsText(s: Symbol) {
    s.Config? && (s.ty == StringType || s.ty == IntType || s.ty == HexType)
  }

  lemma ValuesModules(k: Kconfig, u: UserValues, rank: Symbol -> nat)
    ensures Values(k, u, rank).modules == k.modules
  {
  }

  lemma CalcUser(s: Symbol, d: SymbolDef, x: SymValue, v: Valuation)
    requires s.Config? && Visibility(s.ty, d, v) != NO
    ensures (s.IsBoolean() || s.IsTristate()) ==>
      Calc(s, d, Some(x), v).tri
      == WithoutM(Twofold(s.ty, v.modules), Greatest(Least(x.tri, Visibility(s.ty, d, v)), ReverseDep(s.ty, d, v)))
    ensures IsText(s) ==> Calc(s, d, Some(x), v) == SymValue(x.val, NO)
  {
    hide Visibility, ReverseDep;
  }

  lemma CalcUnasked(s: Symbol, d: SymbolDef, user: Option<SymValue>, v: Valuation)
    requires s.Config? && (user.None? || Visibility(s.ty, d, v) == NO)
    ensures (s.IsBoolean() || s.IsTristate()) ==>
      Calc(s, d, user, v).tri == WithoutM(Twofold(s.ty, v.modules), Greatest(DefaultTri(d, v), ReverseDep(s.ty, d, v)))
    ensures IsText(s) ==>
      Calc(s, d, user, v) == SymValue(if DefaultText(d, v).Some? then DefaultText(d, v).value else "", NO)
  {
    hide Visibility, ReverseDep, DefaultTri, DefaultText;
  }

  lemma DefaultParts(d: SymbolDef, v: Valuation, j: nat)
    requires FirstActive(d.defaults, v, j)
    ensures DefaultTri(d, v) == Least(Eval(d.defaults[j].value, v), Given(d.defaults[j].cond, v))
    ensures DefaultText(d, v)
      == if d.defaults[j].value.Sym? then Some(RawText(v, d.defaults[j].value.s)) else None
  {
    ActiveIs(d.defaults, v, j);
  }

  lemma NoDefaultParts(d: SymbolDef, v: Valuation)
    requires NoneActive(d.defaults, v)
    ensures DefaultTri(d, v) == NO && DefaultText(d, v) == None
  {
    ActiveNone(d.defaults, v);
  }

  // ----- boolean and tristate symbols -----

  /** A user value counts as far as the prompt shows, and never below what is selected. */
  lemma UserLaw(k: Kconfig, u: UserValues, rank: Symbol -> nat, s: Symbol, g: Tristate)
    requires Acyclic(k, rank) && (s.IsBoolean() || s.IsTristate()) && s in u && g != NO
    requires IsGreatest(DefOf(k, s).prompts, Values(k, u, rank), g)
    ensures var v, two := Values(k, u, rank), Twofold(s.ty, k.modules);
      Value(k, u, rank, s).tri == WithoutM(two, Greatest(Least(u[s].tri, WithoutM(two, g)),
                                                         WithoutM(two, Demanded(DefOf(k, s), v))))
  {
    hide Value, Values, Calc, Visibility, ReverseDep, IsGreatest, Demanded;
    var v := Values(k, u, rank);
    ValueEquation(k, u, rank, s);
    ValuesModules(k, u, rank);
    VisibilityLaw(s.ty, DefOf(k, s), v, g);
    DependencyLaw(s.ty, DefOf(k, s), v);
    CalcUser(s, DefOf(k, s), u[s], v);
  }

  /** Without one, the first default whose condition is not n counts as far as its condition goes. */
  lemma DefaultLaw(k: Kconfig, u: UserValues, rank: Symbol -> nat, s: Symbol, j: nat)
    requires Acyclic(k, rank) && (s.IsBoolean() || s.IsTristate())
    requires Unasked(u, s, DefOf(k, s), Values(k, u, rank))
    requires FirstActive(DefOf(k, s).defaults, Values(k, u, rank), j)
    ensures var v, d, two := Values(k, u, rank), DefOf(k, s), Twofold(s.ty, k.modules);
      Value(k, u, rank, s).tri
      == WithoutM(two, Greatest(Least(Eval(d.defaults[j].value, v), Given(d.defaults[j].cond, v)),
                                WithoutM(two, Demanded(d, v))))
  {
    hide Value, Values, Calc, Visibility, ReverseDep, Demanded, DefaultTri, Unasked;
    var v, d := Values(k, u, rank), DefOf(k, s);
    ValueEquation(k, u, rank, s);
    ValuesModules(k, u, rank);
    Inert(u, s, d, v);
    CalcUnasked(s, d, UserOf(u, s), v);
    DefaultParts(d, v, j);
    DependencyLaw(s.ty, d, v);
  }

  /** Without either, what is selected remains. */
  lemma SelectLaw(k: Kconfig, u: UserValues, rank: Symbol -> nat, s: Symbol)
    requires Acyclic(k, rank) && (s.IsBoolean() || s.IsTristate())
    requires Unasked(u, s, DefOf(k, s), Values(k, u, rank)) && NoneActive(DefOf(k, s).defaults, Values(k, u, rank))
    ensures Value(k, u, rank, s).tri == WithoutM(Twofold(s.ty, k.modules), Demanded(DefOf(k, s), Values(k, u, rank)))
  {
    hide Value, Values, Calc, Visibility, ReverseDep, Demanded, DefaultTri, Unasked, NoneActive;
    var v, d := Values(k, u, rank), DefOf(k, s);
    ValueEquation(k, u, rank, s);
    ValuesModules(k, u, rank);
    Inert(u, s, d, v);
    CalcUnasked(s, d, UserOf(u, s), v);
    NoDefaultParts(d, v);
    DependencyLaw(s.ty, d, v);
  }

  // ----- text symbols -----

  /** A visible text symbol shows what the user gave it. */
  lemma TextUserLaw(k: Kconfig, u: UserValues, rank: Symbol -> nat, s: Symbol, g: Tristate)
    requires Acyclic(k, rank) && IsText(s) && s in u && g != NO
    requires IsGreatest(DefOf(k, s).prompts, Values(k, u, rank), g)
    ensures Value(k, u, rank, s) == SymValue(u[s].val, NO)
  {
    hide Value, Values, Calc, Visibility, IsGreatest;
    ValueEquation(k, u, rank, s);
    VisibilityLaw(s.ty, DefOf(k, s), Values(k, u, rank), g);
    CalcUser(s, DefOf(k, s), u[s], Values(k, u, rank));
  }

  /** Otherwise it shows the text of the symbol that its first active default names; a constant names itself, and a
      boolean or tristate has the text n. */
  lemma TextDefaultLaw(k: Kconfig, u: UserValues, rank: Symbol -> nat, s: Symbol, j: nat)
    requires Acyclic(k, rank) && IsText(s) && Unasked(u, s, DefOf(k, s), Values(k, u, rank))
    requires FirstActive(DefOf(k, s).defaults, Values(k, u, rank), j) && DefOf(k, s).defaults[j].value.Sym?
    ensures var t := DefOf(k, s).defaults[j].value.s;
      Value(k, u, rank, s)
      == SymValue(if t.Const? then t.name
                  else if t.IsBoolean() || t.IsTristate() then "n"
                  else Value(k, u, rank, t).val, NO)
  {
    hide Value, Calc, Visibility, DefaultText, Unasked;
    var v, d := Values(k, u, rank), DefOf(k, s);
    ValueEquation(k, u, rank, s);
    Inert(u, s, d, v);
    CalcUnasked(s, d, UserOf(u, s), v);
    DefaultParts(d, v, j);
  }

  /** Without either it is empty. */
  lemma TextEmptyLaw(k: Kconfig, u: UserValues, rank: Symbol -> nat, s: Symbol)
    requires Acyclic(k, rank) && IsText(s) && Unasked(u, s, DefOf(k, s), Values(k, u, rank))
    requires NoneActive(DefOf(k, s).defaults, Values(k, u, rank))
    ensures Value(k, u, rank, s) == SymValue("", NO)
  {
    hide Value, Values, Calc, Visibility, DefaultText, Unasked, NoneActive;
    var v, d := Values(k, u, rank), DefOf(k, s);
    ValueEquation(k, u, rank, s);
    Inert(u, s, d, v);
    CalcUnasked(s, d, UserOf(u, s), v);
    NoDefaultParts(d, v);
  }

  // ----- flags and acceptance -----

  /** A symbol is written if a prompt shows, if it is selected, or if a default applies (to a text symbol: one that
      names a symbol). */
  lemma WrittenLaw(s: Symbol, d: SymbolDef, v: Valuation)
    requires s.Config? && s.ty != UnknownType
    ensures Written(s, d, v) <==>
      || (exists i :: 0 <= i < |d.prompts| && Given(d.prompts[i], v) != NO)
      || (!IsText(s) && Demanded(d, v) != NO)
      || (exists j: nat :: FirstActive(d.defaults, v, j) && (IsText(s) ==> d.defaults[j].value.Sym?))
  {
    var g := GreatestExists(d.prompts, v);
    VisibilityLaw(s.ty, d, v, g);
    DependencyLaw(s.ty, d, v);
    var a := ActiveDefault(d.defaults, v);
    if a < |d.defaults| {
      assert FirstActive(d.defaults, v, a);
    }
    if j: nat :| FirstActive(d.defaults, v, j) {
      ActiveIs(d.defaults, v, j);
    }
  }

  /** Accepted is every value from what is selected up to what the prompt offers, if that is a range, but never m where
      m is no value. */
  lemma AcceptanceLaw(ty: SymType, modules: Tristate, vis: Tristate, rev: Tristate, val: Tristate)
    requires ty == BooleanType || ty == TristateType
    ensures WithinRange(ty, modules, vis, rev, val)
      <==> rev < vis && Greatest(rev, val) == val && Least(val, vis) == val && (val == MOD ==> !Twofold(ty, modules))
  {
  }
}
