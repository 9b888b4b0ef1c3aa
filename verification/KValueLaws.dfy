/** What kconfiglib's get_value returns, said outright. */
module KValueLaws {
  import opened Wrappers
  import opened Expr
  import opened KExpr
  import opened KSemantics
  import opened KDependents
  import L = ValueLaws

  // Without modules m counts as y.
  function Raised(w: World, t: Tristate): Tristate {
    if t == MOD && !w.mods then YES else t
  }

  // The value of a condition; without one it always holds.
  function Held(c: Option<KExpr>, w: World): Tristate {
    match c
    case None => YES
    case Some(e) => Raised(w, Eval2(e, w))
  }

  function Letter(t: Tristate): string {
    if t == NO then "n" else if t == MOD then "m" else "y"
  }

  ghost predicate IsGreatest(prompts: seq<Option<KExpr>>, w: World, g: Tristate) {
    && (forall i :: 0 <= i < |prompts| ==> Held(prompts[i], w) <= g)
    && (g == NO || exists i :: 0 <= i < |prompts| && Held(prompts[i], w) == g)
  }

  ghost predicate FirstActive(ds: seq<KDefault>, w: World, j: nat) {
    j < |ds| && Held(ds[j].cond, w) != NO && forall i :: 0 <= i < j ==> Held(ds[i].cond, w) == NO
  }

  ghost predicate NoneActive(ds: seq<KDefault>, w: World) {
    forall i :: 0 <= i < |ds| ==> Held(ds[i].cond, w) == NO
  }

  // ----- expressions -----

  /** _eval_expr_2 on everything but lists. */
  lemma EvalLaw(s: Name, text: string, l: Atom, r: Atom, e: KExpr, w: World)
    ensures Eval2(KAtom(ASym(s)), w)
      == if !w.tri(s) then NO else if w.val(s) == "y" then YES else if w.val(s) == "m" then MOD else NO
    ensures Eval2(KAtom(AStr(text)), w) == if text == "y" then YES else if text == "m" then MOD else NO
    ensures Eval2(KCompare(true, l, r), w) == if AtomText(l, w) == AtomText(r, w) then YES else NO
    ensures Eval2(KCompare(false, l, r), w) == 2 - Eval2(KCompare(true, l, r), w)
    ensures Eval2(KNot(e), w) == 2 - Eval2(e, w)
  {
  }

  /** A conjunction is its least operand, and y without any; a disjunction its greatest, and n without any. */
  lemma {:induction false} ListLaw(e: KExpr, n: nat, w: World)
    requires e.KOp? && n <= |e.es|
    ensures forall i :: 0 <= i < n ==>
      if e.op.AndOp? then EvalList(e, n, w) <= Eval2(e.es[i], w) else Eval2(e.es[i], w) <= EvalList(e, n, w)
    ensures EvalList(e, n, w) == (if e.op.AndOp? then YES else NO)
      || exists i :: 0 <= i < n && EvalList(e, n, w) == Eval2(e.es[i], w)
  {
    if n > 0 {
      ListLaw(e, n - 1, w);
      assert EvalList(e, n, w) == EvalList(e, n - 1, w) || EvalList(e, n, w) == Eval2(e.es[n - 1], w);
    }
  }

  // ----- visibility -----

  lemma {:induction false} VisGreatest(prompts: seq<Option<KExpr>>, n: nat, w: World)
    requires n <= |prompts|
    ensures IsGreatest(prompts[..n], w, VisMax(prompts, n, w))
      && Raised(w, VisMax(prompts, n, w)) == VisMax(prompts, n, w)
  {
    if n > 0 {
      VisGreatest(prompts, n - 1, w);
      var before, now := prompts[..n - 1], prompts[..n];
      assert now == before + [prompts[n - 1]] && now[n - 1] == prompts[n - 1];
      var g := VisMax(prompts, n - 1, w);
      if g != NO {
        var i :| 0 <= i < |before| && Held(before[i], w) == g;
        assert now[i] == before[i];
      }
    }
  }

  lemma VisMaxIs(prompts: seq<Option<KExpr>>, w: World, g: Tristate)
    requires IsGreatest(prompts, w, g)
    ensures VisMax(prompts, |prompts|, w) == g == Raised(w, g)
  {
    VisGreatest(prompts, |prompts|, w);
    assert prompts[..|prompts|] == prompts;
  }

  // For anything but a tristate m counts as y.
  function Offered(ty: KType, g: Tristate): Tristate {
    if ty != KTristate && g == MOD then YES else g
  }

  /** The visibility of a choice, and of a symbol: the greatest prompt condition, for a symbol of a choice no more than
      the visibility of the choice. */
  lemma VisLaw(k: KConf, w: World, s: Name, g: Tristate)
    requires IsGreatest(SymOf(k, s).prompts, w, g)
    ensures SymOf(k, s).choice.None? ==> Vis(k, w, s) == Offered(SymOf(k, s).ty, g)
    ensures SymOf(k, s).choice.Some? ==>
      Vis(k, w, s)
      == Offered(SymOf(k, s).ty, L.Least(g, Raised(w, ChoiceVis(k, w, SymOf(k, s).choice.value))))
  {
    VisMaxIs(SymOf(k, s).prompts, w, g);
  }

  lemma ChoiceVisLaw(k: KConf, w: World, c: ChoiceId, g: Tristate)
    requires IsGreatest(ChoiceOf(k, c).prompts, w, g)
    ensures ChoiceVis(k, w, c) == Offered(ChoiceOf(k, c).ty, g)
  {
    VisMaxIs(ChoiceOf(k, c).prompts, w, g);
  }

  // ----- plain boolean and tristate symbols -----

  ghost predicate Plain2(k: KConf, s: Name) {
    s !in k.fixed && SymOf(k, s).choice.None? && (SymOf(k, s).ty == KBool || SymOf(k, s).ty == KTristate)
  }

  function Shown(ty: KType, t: Tristate): string {
    Letter(if ty == KBool && t == MOD then YES else t)
  }

  function LetterTri(text: string): Tristate {
    if text == "y" then YES else if text == "m" then MOD else NO
  }

  /** A user value counts as far as the prompt shows, and never below what is selected. */
  lemma UserLaw(k: KConf, u: Users, w: World, s: Name, g: Tristate)
    requires Solution(k, u, w) && Plain2(k, s) && IsGreatest(SymOf(k, s).prompts, w, g) && g != NO && s in u.sym
    ensures var d := SymOf(k, s);
      w.val(s) == Shown(d.ty, L.Greatest(L.Least(Raised(w, LetterTri(u.sym[s])), Raised(w, Offered(d.ty, g))),
                                         Held(Some(d.revDep), w)))
  {
    VisLaw(k, w, s, g);
    hide Vis, Solution;
    ValueAt1(k, u, w, s);
    PlainUser(k, u, w, s);
  }

  lemma ValueAt1(k: KConf, u: Users, w: World, s: Name)
    requires Solution(k, u, w)
    ensures w.val(s) == Value(k, u, w, s)
  {
    hide Value;
  }

  lemma PlainUser(k: KConf, u: Users, w: World, s: Name)
    requires Plain2(k, s) && Vis(k, w, s) != NO && s in u.sym
    ensures var d := SymOf(k, s);
      Value(k, u, w, s)
      == Shown(d.ty, L.Greatest(L.Least(Raised(w, LetterTri(u.sym[s])), Raised(w, Vis(k, w, s))),
                                Held(Some(d.revDep), w)))
  {
    hide Vis, Eval2;
  }

  lemma PlainUnasked(k: KConf, u: Users, w: World, s: Name)
    requires Plain2(k, s) && (Vis(k, w, s) == NO || s !in u.sym)
    requires Raised(w, DefaultTri(SymOf(k, s).defaults, w)) == DefaultTri(SymOf(k, s).defaults, w)
    ensures var d := SymOf(k, s);
      Value(k, u, w, s) == Shown(d.ty, L.Greatest(DefaultTri(d.defaults, w), Held(Some(d.revDep), w)))
  {
    hide Vis, Eval2, DefaultTri;
  }

  // The user has nothing to say: no value was given, or no prompt shows.
  ghost predicate Unasked(k: KConf, u: Users, w: World, s: Name) {
    s !in u.sym || IsGreatest(SymOf(k, s).prompts, w, NO)
  }

  lemma Inert(k: KConf, u: Users, w: World, s: Name)
    requires Unasked(k, u, w, s) && SymOf(k, s).choice.None?
    ensures Vis(k, w, s) == NO || s !in u.sym
  {
    if s in u.sym {
      VisLaw(k, w, s, NO);
    }
  }

  lemma {:induction false} ActiveIs(ds: seq<KDefault>, w: World, j: nat)
    requires FirstActive(ds, w, j)
    ensures ActiveDefault(ds, w) == j
    decreases j
  {
    assert Held(ds[0].cond, w) == EvalOpt(ds[0].cond, w);
    if j > 0 {
      assert ds[1..][j - 1] == ds[j];
      assert forall i :: 0 <= i < j - 1 ==> ds[1..][i] == ds[i + 1];
      ActiveIs(ds[1..], w, j - 1);
    }
  }

  lemma {:induction false} ActiveNone(ds: seq<KDefault>, w: World)
    requires NoneActive(ds, w)
    ensures ActiveDefault(ds, w) == |ds|
  {
    if ds != [] {
      assert Held(ds[0].cond, w) == EvalOpt(ds[0].cond, w);
      assert forall i :: 0 <= i < |ds[1..]| ==> ds[1..][i] == ds[i + 1];
      ActiveNone(ds[1..], w);
    }
  }

  /** Without one, the first default whose condition is not n counts as far as its condition goes. */
  lemma DefaultLaw(k: KConf, u: Users, w: World, s: Name, j: nat)
    requires Solution(k, u, w) && Plain2(k, s) && Unasked(k, u, w, s) && FirstActive(SymOf(k, s).defaults, w, j)
    ensures var d := SymOf(k, s);
      w.val(s) == Shown(d.ty, L.Greatest(L.Least(Held(Some(d.defaults[j].value), w), Held(d.defaults[j].cond, w)),
                                         Held(Some(d.revDep), w)))
  {
    ActiveIs(SymOf(k, s).defaults, w, j);
    DefaultTriIs(SymOf(k, s).defaults, w, j);
    hide Vis, Solution, DefaultTri, ActiveDefault, FirstActive, Value;
    Inert(k, u, w, s);
    ValueAt1(k, u, w, s);
    PlainUnasked(k, u, w, s);
  }

  lemma DefaultTriIs(ds: seq<KDefault>, w: World, j: nat)
    requires ActiveDefault(ds, w) == j < |ds|
    ensures DefaultTri(ds, w) == L.Least(Held(Some(ds[j].value), w), Held(ds[j].cond, w))
      == Raised(w, DefaultTri(ds, w))
  {
    hide Eval2, ActiveDefault;
  }

  /** Without either, what is selected remains. */
  lemma SelectLaw(k: KConf, u: Users, w: World, s: Name)
    requires Solution(k, u, w) && Plain2(k, s) && Unasked(k, u, w, s) && NoneActive(SymOf(k, s).defaults, w)
    ensures w.val(s) == Shown(SymOf(k, s).ty, Held(Some(SymOf(k, s).revDep), w))
  {
    ActiveNone(SymOf(k, s).defaults, w);
    assert DefaultTri(SymOf(k, s).defaults, w) == NO;
    hide Vis, Solution, DefaultTri, ActiveDefault, NoneActive, Value;
    Inert(k, u, w, s);
    ValueAt1(k, u, w, s);
    PlainUnasked(k, u, w, s);
  }

  // ----- text symbols -----

  /** A visible string symbol shows what the user gave it; otherwise the text of its first active default, if that is a
      symbol or a string; otherwise nothing. */
  lemma StringLaw(k: KConf, u: Users, w: World, s: Name, g: Tristate)
    requires Solution(k, u, w) && s !in k.fixed && SymOf(k, s).ty == KString && SymOf(k, s).choice.None?
    requires IsGreatest(SymOf(k, s).prompts, w, g)
    ensures g != NO && s in u.sym ==> w.val(s) == u.sym[s]
    ensures forall j: nat :: (g == NO || s !in u.sym) && FirstActive(SymOf(k, s).defaults, w, j) ==>
      w.val(s) == ExprText(SymOf(k, s).defaults[j].value, w)
    ensures (g == NO || s !in u.sym) && NoneActive(SymOf(k, s).defaults, w) ==> w.val(s) == ""
  {
    var ds := SymOf(k, s).defaults;
    VisLaw(k, w, s, g);
    ValueAt1(k, u, w, s);
    forall j: nat | FirstActive(ds, w, j) ensures ActiveDefault(ds, w) == j {
      ActiveIs(ds, w, j);
    }
    if NoneActive(ds, w) {
      ActiveNone(ds, w);
    }
  }

  // The first range whose condition is not n, as numbers.
  ghost predicate InForce(k: KConf, rs: seq<KRange>, base: nat, w: World, j: nat, lo: int, hi: int) {
    && j < |rs| && Held(rs[j].cond, w) != NO && (forall i :: 0 <= i < j ==> Held(rs[i].cond, w) == NO)
    && lo == NumberOr0(k, AtomText(rs[j].low, w), base) && hi == NumberOr0(k, AtomText(rs[j].high, w), base)
  }

  function NumberOr0(k: KConf, text: string, base: nat): int {
    var n := k.parse(text, base);
    if n.Some? then n.value else 0
  }

  lemma {:induction false} RangeIs(k: KConf, rs: seq<KRange>, base: nat, w: World, j: nat, lo: int, hi: int)
    requires InForce(k, rs, base, w, j, lo, hi)
    ensures ActiveRange(k, rs, base, w) == Some((lo, hi))
    decreases j
  {
    assert Held(rs[0].cond, w) == EvalOpt(rs[0].cond, w);
    if j > 0 {
      assert rs[1..][j - 1] == rs[j] && forall i :: 0 <= i < j - 1 ==> rs[1..][i] == rs[i + 1];
      RangeIs(k, rs[1..], base, w, j - 1, lo, hi);
    }
  }

  lemma {:induction false} NoRangeIs(k: KConf, rs: seq<KRange>, base: nat, w: World)
    requires forall i :: 0 <= i < |rs| ==> Held(rs[i].cond, w) == NO
    ensures ActiveRange(k, rs, base, w) == None
  {
    if rs != [] {
      assert Held(rs[0].cond, w) == EvalOpt(rs[0].cond, w);
      NoRangeIs(k, rs[1..], base, w);
    }
  }

  function BaseOf(ty: KType): nat {
    if ty == KHex then 16 else 10
  }

  predicate IsNumber(k: KConf, s: Name) {
    s !in k.fixed && (SymOf(k, s).ty == KInt || SymOf(k, s).ty == KHex) && SymOf(k, s).choice.None?
  }

  /** The range in force for a number, if there is one. */
  ghost predicate Bounds(k: KConf, w: World, s: Name, r: Option<(int, int)>) {
    var rs, base := SymOf(k, s).ranges, BaseOf(SymOf(k, s).ty);
    match r
    case None => forall i :: 0 <= i < |rs| ==> Held(rs[i].cond, w) == NO
    case Some(p) => exists j :: InForce(k, rs, base, w, j, p.0, p.1)
  }

  lemma BoundsAre(k: KConf, w: World, s: Name, r: Option<(int, int)>)
    requires Bounds(k, w, s, r)
    ensures ActiveRange(k, SymOf(k, s).ranges, BaseOf(SymOf(k, s).ty), w) == r
  {
    var rs, base := SymOf(k, s).ranges, BaseOf(SymOf(k, s).ty);
    if r.Some? {
      var j :| InForce(k, rs, base, w, j, r.value.0, r.value.1);
      RangeIs(k, rs, base, w, j, r.value.0, r.value.1);
    } else {
      NoRangeIs(k, rs, base, w);
    }
  }

  // The user's text is a number within the range.
  predicate Fits(k: KConf, u: Users, s: Name, r: Option<(int, int)>) {
    s in u.sym &&
    var n := k.parse(u.sym[s], BaseOf(SymOf(k, s).ty));
    n.Some? && (r.Some? ==> r.value.0 <= n.value <= r.value.1)
  }

  lemma NumberIs(k: KConf, u: Users, w: World, s: Name, g: Tristate, r: Option<(int, int)>)
    requires Solution(k, u, w) && IsNumber(k, s) && IsGreatest(SymOf(k, s).prompts, w, g) && Bounds(k, w, s, r)
    ensures var d := SymOf(k, s);
      w.val(s) == if g != NO && Fits(k, u, s, r) then u.sym[s]
        else NumberDefault(k, d.defaults, "", r, BaseOf(d.ty), w)
  {
    VisLaw(k, w, s, g);
    BoundsAre(k, w, s, r);
    ValueAt1(k, u, w, s);
    hide Vis, NumberDefault, ActiveRange, Bounds, IsGreatest, Solution;
  }

  /** A visible int or hex symbol shows what the user gave it, if that is a number in the range in force. */
  lemma NumberUserLaw(k: KConf, u: Users, w: World, s: Name, g: Tristate, r: Option<(int, int)>)
    requires Solution(k, u, w) && IsNumber(k, s) && IsGreatest(SymOf(k, s).prompts, w, g) && Bounds(k, w, s, r)
    requires g != NO && Fits(k, u, s, r)
    ensures w.val(s) == u.sym[s]
  {
    hide Solution, Bounds, IsGreatest;
    NumberIs(k, u, w, s, g, r);
  }

  // A default that applies, and one that is a number besides.
  ghost predicate Applies(ds: seq<KDefault>, w: World, j: nat) {
    j < |ds| && Held(ds[j].cond, w) != NO
  }

  ghost predicate NumberAt(k: KConf, ds: seq<KDefault>, base: nat, w: World, j: nat) {
    Applies(ds, w, j) && k.parse(ExprText(ds[j].value, w), base).Some?
  }

  lemma {:induction false} NumberDefaultIs(
    k: KConf, ds: seq<KDefault>, cur: string, range: Option<(int, int)>, base: nat, w: World, j: nat)
    requires NumberAt(k, ds, base, w, j) && forall i :: 0 <= i < j ==> !NumberAt(k, ds, base, w, i)
    ensures var text := ExprText(ds[j].value, w);
      NumberDefault(k, ds, cur, range, base, w) == Clamp(k, text, k.parse(text, base).value, range, base)
    decreases j
  {
    hide ExprText, Clamp;
    assert Held(ds[0].cond, w) == EvalOpt(ds[0].cond, w);
    if j > 0 {
      assert ds[1..][j - 1] == ds[j];
      forall i | 0 <= i < j - 1 ensures !NumberAt(k, ds[1..], base, w, i) {
        assert ds[1..][i] == ds[i + 1] && !NumberAt(k, ds, base, w, i + 1);
      }
      assert !NumberAt(k, ds, base, w, 0);
      var next := if Held(ds[0].cond, w) == NO then cur else ExprText(ds[0].value, w);
      NumberDefaultIs(k, ds[1..], next, range, base, w, j - 1);
    }
  }

  /** Otherwise it shows the first default that applies and is a number, moved into the range in force. */
  lemma NumberDefaultLaw(k: KConf, u: Users, w: World, s: Name, g: Tristate, r: Option<(int, int)>, j: nat)
    requires Solution(k, u, w) && IsNumber(k, s) && IsGreatest(SymOf(k, s).prompts, w, g) && Bounds(k, w, s, r)
    requires g == NO || !Fits(k, u, s, r)
    requires var ds, base := SymOf(k, s).defaults, BaseOf(SymOf(k, s).ty);
      NumberAt(k, ds, base, w, j) && forall i :: 0 <= i < j ==> !NumberAt(k, ds, base, w, i)
    ensures var base := BaseOf(SymOf(k, s).ty); var text := ExprText(SymOf(k, s).defaults[j].value, w);
      var n := k.parse(text, base).value;
      w.val(s) == if r.Some? && n < r.value.0 then k.show(r.value.0, base)
        else if r.Some? && r.value.1 < n then k.show(r.value.1, base) else text
  {
    hide Solution, Bounds, IsGreatest, NumberDefault;
    NumberIs(k, u, w, s, g, r);
    NumberDefaultIs(k, SymOf(k, s).defaults, "", r, BaseOf(SymOf(k, s).ty), w, j);
  }

  ghost predicate LastApplies(ds: seq<KDefault>, w: World, j: nat) {
    Applies(ds, w, j) && forall i :: j < i < |ds| ==> !Applies(ds, w, i)
  }

  // Without a number among the defaults: the text of the last that applies.
  lemma {:induction false} NoNumberIs(
    k: KConf, ds: seq<KDefault>, cur: string, range: Option<(int, int)>, base: nat, w: World)
    requires forall i :: 0 <= i < |ds| ==> !NumberAt(k, ds, base, w, i)
    ensures var x := NumberDefault(k, ds, cur, range, base, w);
      if range.Some? && range.value.0 > 0 then x == k.show(range.value.0, base)
      else
        && ((forall i :: 0 <= i < |ds| ==> !Applies(ds, w, i)) ==> x == cur)
        && forall j: nat :: LastApplies(ds, w, j) ==> x == ExprText(ds[j].value, w)
  {
    hide ExprText;
    if ds != [] {
      assert Held(ds[0].cond, w) == EvalOpt(ds[0].cond, w);
      var next := if Held(ds[0].cond, w) == NO then cur else ExprText(ds[0].value, w);
      forall i | 0 <= i < |ds[1..]|
        ensures !NumberAt(k, ds[1..], base, w, i) && (Applies(ds[1..], w, i) <==> Applies(ds, w, i + 1))
      {
        assert ds[1..][i] == ds[i + 1] && !NumberAt(k, ds, base, w, i + 1);
      }
      assert !NumberAt(k, ds, base, w, 0) && (Applies(ds, w, 0) <==> Held(ds[0].cond, w) != NO);
      NoNumberIs(k, ds[1..], next, range, base, w);
      forall j: nat | LastApplies(ds, w, j) ensures j > 0 ==> LastApplies(ds[1..], w, j - 1) {
        assert j > 0 ==> Applies(ds[1..], w, j - 1);
      }
    }
  }

  /** Without such a default it shows the low end of the range, if that is positive, and else the text of the last
      default that applies, if any. */
  lemma NumberNoneLaw(k: KConf, u: Users, w: World, s: Name, g: Tristate, r: Option<(int, int)>)
    requires Solution(k, u, w) && IsNumber(k, s) && IsGreatest(SymOf(k, s).prompts, w, g) && Bounds(k, w, s, r)
    requires g == NO || !Fits(k, u, s, r)
    requires var ds, base := SymOf(k, s).defaults, BaseOf(SymOf(k, s).ty);
      forall i :: 0 <= i < |ds| ==> !NumberAt(k, ds, base, w, i)
    ensures var ds := SymOf(k, s).defaults;
      if r.Some? && r.value.0 > 0 then w.val(s) == k.show(r.value.0, BaseOf(SymOf(k, s).ty))
      else
        && ((forall i :: 0 <= i < |ds| ==> !Applies(ds, w, i)) ==> w.val(s) == "")
        && forall j: nat :: LastApplies(ds, w, j) ==> w.val(s) == ExprText(ds[j].value, w)
  {
    hide Solution, Bounds, IsGreatest, NumberDefault;
    NumberIs(k, u, w, s, g, r);
    NoNumberIs(k, SymOf(k, s).defaults, "", r, BaseOf(SymOf(k, s).ty), w);
  }

  // ----- choices -----

  // What the user asks of a choice: a mode, or else n of an optional one and m of any other.
  function Asked(k: KConf, u: Users, c: ChoiceId): Tristate {
    if c in u.mode then u.mode[c] else if ChoiceOf(k, c).optional then NO else MOD
  }

  ghost predicate ModeIs(k: KConf, u: Users, w: World, c: ChoiceId, t: Tristate) {
    exists g :: IsGreatest(ChoiceOf(k, c).prompts, w, g) && t == InMode(k, u, w, c, g)
  }

  function InMode(k: KConf, u: Users, w: World, c: ChoiceId, g: Tristate): Tristate {
    var d := ChoiceOf(k, c);
    var t := L.Least(Raised(w, Asked(k, u, c)), Raised(w, Offered(d.ty, g)));
    if d.ty == KBool && t == MOD then YES else t
  }

  /** Choice.get_mode: what is asked, as far as the choice is visible; a boolean choice has no m. */
  lemma ModeLaw(k: KConf, u: Users, w: World, c: ChoiceId, t: Tristate)
    requires ModeIs(k, u, w, c, t)
    ensures Mode(k, u, w, c) == t
  {
    var g :| IsGreatest(ChoiceOf(k, c).prompts, w, g) && t == InMode(k, u, w, c, g);
    ChoiceVisLaw(k, w, c, g);
  }

  // A boolean or tristate symbol of choice `c`.
  ghost predicate MemberOf(k: KConf, c: ChoiceId, s: Name) {
    && s !in k.fixed && SymOf(k, s).choice == Some(c) && (SymOf(k, s).ty == KBool || SymOf(k, s).ty == KTristate)
  }

  // `s` alone of the choice is y.
  ghost predicate OnlyY(k: KConf, w: World, c: ChoiceId, s: Name) {
    MemberOf(k, c, s) && w.val(s) == "y" && forall t :: MemberOf(k, c, t) && t != s ==> w.val(t) == "n"
  }

  lemma MemberValue(k: KConf, u: Users, w: World, c: ChoiceId, s: Name)
    requires Solution(k, u, w) && MemberOf(k, c, s) && Mode(k, u, w, c) == YES
    ensures w.val(s) == if Vis(k, w, s) != NO && Selection(k, u, w, c) == Some(s) then "y" else "n"
  {
    ValueAt1(k, u, w, s);
    hide Vis, Selection, Mode;
  }

  lemma SelectedOnly(k: KConf, u: Users, w: World, c: ChoiceId, s: Name)
    requires Solution(k, u, w) && MemberOf(k, c, s) && Mode(k, u, w, c) == YES
    requires Selection(k, u, w, c) == Some(s) && Vis(k, w, s) != NO
    ensures OnlyY(k, w, c, s)
  {
    hide Solution, Mode, Selection, Vis, MemberOf;
    MemberValue(k, u, w, c, s);
    forall t | MemberOf(k, c, t) && t != s ensures w.val(t) == "n" {
      MemberValue(k, u, w, c, t);
    }
  }

  /** In mode y the symbol the user picked is y, and no other, if it is fully visible. */
  lemma PickLaw(k: KConf, u: Users, w: World, c: ChoiceId)
    requires Solution(k, u, w) && ModeIs(k, u, w, c, YES) && c in u.pick
    requires MemberOf(k, c, u.pick[c]) && Vis(k, w, u.pick[c]) == YES
    ensures OnlyY(k, w, c, u.pick[c])
  {
    ModeLaw(k, u, w, c, YES);
    SelectedOnly(k, u, w, c, u.pick[c]);
  }

  // No pick of the user decides.
  ghost predicate Unpicked(k: KConf, u: Users, w: World, c: ChoiceId) {
    c !in u.pick || Vis(k, w, u.pick[c]) != YES
  }

  // `s` is what the first active default of the choice names, or else its first symbol.
  ghost predicate Preferred(k: KConf, w: World, c: ChoiceId, s: Name) {
    var d := ChoiceOf(k, c);
    || (exists j :: 0 <= j < |d.defaults| && d.defaults[j].sym == s && Held(d.defaults[j].cond, w) != NO
                    && forall i :: 0 <= i < j ==> Held(d.defaults[i].cond, w) == NO)
    || ((forall i :: 0 <= i < |d.defaults| ==> Held(d.defaults[i].cond, w) == NO) && d.members != []
        && s == d.members[0])
  }

  lemma {:induction false} ChoiceActiveIs(ds: seq<KChoiceDefault>, w: World, j: nat)
    requires j <= |ds| && (j < |ds| ==> Held(ds[j].cond, w) != NO)
    requires forall i :: 0 <= i < j ==> Held(ds[i].cond, w) == NO
    ensures ActiveChoiceDefault(ds, w) == j
    decreases j
  {
    if ds != [] {
      assert Held(ds[0].cond, w) == EvalOpt(ds[0].cond, w);
      if j > 0 {
        assert j < |ds| ==> ds[1..][j - 1] == ds[j];
        assert forall i :: 0 <= i < j - 1 ==> ds[1..][i] == ds[i + 1];
        ChoiceActiveIs(ds[1..], w, j - 1);
      }
    }
  }

  lemma PreferredIs(k: KConf, w: World, c: ChoiceId, s: Name)
    requires Preferred(k, w, c, s) && ChoiceOf(k, c).members != []
    ensures var d := ChoiceOf(k, c); var i := ActiveChoiceDefault(d.defaults, w);
      s == if i < |d.defaults| then d.defaults[i].sym else d.members[0]
  {
    var d := ChoiceOf(k, c);
    if j :| 0 <= j < |d.defaults| && d.defaults[j].sym == s && Held(d.defaults[j].cond, w) != NO
            && forall i :: 0 <= i < j ==> Held(d.defaults[i].cond, w) == NO {
      ChoiceActiveIs(d.defaults, w, j);
    } else {
      ChoiceActiveIs(d.defaults, w, |d.defaults|);
    }
  }

  /** Without a pick, the preferred symbol of a choice that is not optional is y, and no other, if it is visible. */
  lemma PreferredLaw(k: KConf, u: Users, w: World, c: ChoiceId, s: Name)
    requires Solution(k, u, w) && ModeIs(k, u, w, c, YES) && Unpicked(k, u, w, c) && !ChoiceOf(k, c).optional
    requires ChoiceOf(k, c).members != [] && Preferred(k, w, c, s) && MemberOf(k, c, s) && Vis(k, w, s) != NO
    ensures OnlyY(k, w, c, s)
  {
    ModeLaw(k, u, w, c, YES);
    PreferredIs(k, w, c, s);
    hide Solution, Mode, Vis, OnlyY, ActiveChoiceDefault;
    SelectedOnly(k, u, w, c, s);
  }

  /** If it is not, the first visible symbol is. */
  lemma FirstVisibleLaw(k: KConf, u: Users, w: World, c: ChoiceId, s: Name, n: nat)
    requires Solution(k, u, w) && ModeIs(k, u, w, c, YES) && Unpicked(k, u, w, c) && !ChoiceOf(k, c).optional
    requires Preferred(k, w, c, s) && Vis(k, w, s) == NO && n < |ChoiceOf(k, c).members|
    requires forall i :: 0 <= i < n ==> Vis(k, w, ChoiceOf(k, c).members[i]) == NO
    requires var t := ChoiceOf(k, c).members[n]; MemberOf(k, c, t) && Vis(k, w, t) != NO
    ensures OnlyY(k, w, c, ChoiceOf(k, c).members[n])
  {
    ModeLaw(k, u, w, c, YES);
    PreferredIs(k, w, c, s);
    FirstVisibleIs(k, w, ChoiceOf(k, c).members, n);
    hide Solution, Mode, Vis, OnlyY, ActiveChoiceDefault, FirstVisible;
    SelectedOnly(k, u, w, c, ChoiceOf(k, c).members[n]);
  }

  lemma {:induction false} FirstVisibleIs(k: KConf, w: World, ms: seq<Name>, n: nat)
    requires n < |ms| && Vis(k, w, ms[n]) != NO && forall i :: 0 <= i < n ==> Vis(k, w, ms[i]) == NO
    ensures FirstVisible(k, w, ms) == Some(ms[n])
    decreases n
  {
    hide Vis;
    if n > 0 {
      assert ms[1..][n - 1] == ms[n] && forall i :: 0 <= i < n - 1 ==> ms[1..][i] == ms[i + 1];
      FirstVisibleIs(k, w, ms[1..], n - 1);
    }
  }

  /** An optional choice without a pick has no y, and in mode m exactly the visible symbols set to m or y are m. */
  lemma OtherModesLaw(k: KConf, u: Users, w: World, c: ChoiceId, t: Tristate, s: Name)
    requires Solution(k, u, w) && ModeIs(k, u, w, c, t) && MemberOf(k, c, s)
    ensures t == YES && Unpicked(k, u, w, c) && ChoiceOf(k, c).optional ==> w.val(s) == "n"
    ensures t == NO ==> w.val(s) == "n"
    ensures t == MOD && SymOf(k, s).ty == KTristate ==>
      w.val(s) == if Vis(k, w, s) != NO && s in u.sym && (u.sym[s] == "m" || u.sym[s] == "y") then "m" else "n"
  {
    ModeLaw(k, u, w, c, t);
    ValueAt1(k, u, w, s);
    hide Vis, Mode;
  }
}
