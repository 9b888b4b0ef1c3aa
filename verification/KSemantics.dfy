/** kconfiglib's symbol values, visibilities and choice selections as functions of the values they read. */
module KSemantics {
  import opened Wrappers
  import opened Expr
  import opened KExpr

  type ChoiceId = nat

  datatype KType = KUnknown | KBool | KTristate | KString | KHex | KInt

  datatype KDefault = KDefault(value: KExpr, cond: Option<KExpr>)

  datatype KRange = KRange(low: Atom, high: Atom, cond: Option<KExpr>)

  datatype KSym = KSym(
    ty: KType,
    prompts: seq<Option<KExpr>>,
    defaults: seq<KDefault>,
    revDep: KExpr,
    ranges: seq<KRange>,
    choice: Option<ChoiceId>)       // set for the actual symbols of a choice

  datatype KChoiceDefault = KChoiceDefault(sym: Name, cond: Option<KExpr>)

  datatype KChoice = KChoice(
    ty: KType,
    prompts: seq<Option<KExpr>>,
    defaults: seq<KChoiceDefault>,
    members: seq<Name>,
    optional: bool)

  // `fixed` holds the special symbols with their values; int() and hex() are parameters.
  datatype KConf = KConf(
    syms: map<Name, KSym>,
    choices: map<ChoiceId, KChoice>,
    fixed: map<Name, string>,
    parse: (string, nat) -> Option<int>,
    show: (int, nat) -> string)

  const NoSym := KSym(KUnknown, [], [], KAtom(AStr("n")), [], None)
  const NoChoice := KChoice(KUnknown, [], [], [], false)
  const Modules := "MODULES"

  function SymOf(k: KConf, s: Name): KSym {
    if s in k.syms then k.syms[s] else NoSym
  }

  function ChoiceOf(k: KConf, c: ChoiceId): KChoice {
    if c in k.choices then k.choices[c] else NoChoice
  }

  predicate TriType(ty: KType) {
    ty.KBool? || ty.KTristate?
  }

  predicate IsTri(k: KConf, s: Name) {
    TriType(SymOf(k, s).ty)
  }

  /** User values of symbols, and the user's selection and mode of choices. */
  datatype Users = Users(sym: map<Name, string>, pick: map<ChoiceId, Name>, mode: map<ChoiceId, Tristate>)

  // ----- visibility, mode and selection -----

  function VisMax(prompts: seq<Option<KExpr>>, n: nat, w: World): Tristate
    requires n <= |prompts|
  {
    if n == 0 then NO else Apply(OrOp, Promote(VisMax(prompts, n - 1, w), w.mods), EvalOpt(prompts[n - 1], w))
  }

  function NonTristate(ty: KType, t: Tristate): Tristate {
    if t == MOD && !ty.KTristate? then YES else t
  }

  function EvalMin(x: Tristate, y: Tristate, mods: bool): Tristate {
    Apply(AndOp, Promote(x, mods), Promote(y, mods))
  }

  function EvalMax(x: Tristate, y: Tristate, mods: bool): Tristate {
    Apply(OrOp, Promote(x, mods), Promote(y, mods))
  }

  // _get_visibility of a choice and of a symbol
  function ChoiceVis(k: KConf, w: World, c: ChoiceId): Tristate {
    var d := ChoiceOf(k, c);
    NonTristate(d.ty, VisMax(d.prompts, |d.prompts|, w))
  }

  function Vis(k: KConf, w: World, s: Name): Tristate {
    var d := SymOf(k, s);
    var vis := VisMax(d.prompts, |d.prompts|, w);
    NonTristate(d.ty, if d.choice.Some? then EvalMin(vis, ChoiceVis(k, w, d.choice.value), w.mods) else vis)
  }

  // Choice.get_mode
  function Mode(k: KConf, u: Users, w: World, c: ChoiceId): Tristate {
    var d := ChoiceOf(k, c);
    var m := if c in u.mode then u.mode[c] else if d.optional then NO else MOD;
    var mode := EvalMin(m, ChoiceVis(k, w, c), w.mods);
    if mode == MOD && d.ty.KBool? then YES else mode
  }

  function ActiveChoiceDefault(ds: seq<KChoiceDefault>, w: World): (i: nat)
    ensures i <= |ds|
  {
    if ds == [] then 0 else if EvalOpt(ds[0].cond, w) != NO then 0 else 1 + ActiveChoiceDefault(ds[1..], w)
  }

  function FirstVisible(k: KConf, w: World, members: seq<Name>): Option<Name> {
    if members == [] then None
    else if Vis(k, w, members[0]) != NO then Some(members[0])
    else FirstVisible(k, w, members[1..])
  }

  // Choice.get_selection_from_defaults
  function DefaultSelection(k: KConf, w: World, c: ChoiceId): Option<Name> {
    var d := ChoiceOf(k, c);
    if d.members == [] then None else
    var i := ActiveChoiceDefault(d.defaults, w);
    var chosen := if i < |d.defaults| then d.defaults[i].sym else d.members[0];
    if Vis(k, w, chosen) != NO then Some(chosen) else FirstVisible(k, w, d.members)
  }

  // Choice.get_selection
  function Selection(k: KConf, u: Users, w: World, c: ChoiceId): Option<Name> {
    if Mode(k, u, w, c) != YES then None
    else if c in u.pick && Vis(k, w, u.pick[c]) == YES then Some(u.pick[c])
    else if ChoiceOf(k, c).optional then None
    else DefaultSelection(k, w, c)
  }

  // ----- Symbol.get_value -----

  function TriString(t: Tristate): string {
    if t == NO then "n" else if t == MOD then "m" else "y"
  }

  function ActiveDefault(ds: seq<KDefault>, w: World): (i: nat)
    ensures i <= |ds|
  {
    if ds == [] then 0 else if EvalOpt(ds[0].cond, w) != NO then 0 else 1 + ActiveDefault(ds[1..], w)
  }

  function DefaultTri(ds: seq<KDefault>, w: World): Tristate {
    var i := ActiveDefault(ds, w);
    if i < |ds| then EvalMin(EvalOpt(Some(ds[i].value), w), EvalOpt(ds[i].cond, w), w.mods) else NO
  }

  // A string default is a single symbol or string.
  function ExprText(e: KExpr, w: World): string {
    if e.KAtom? then AtomText(e.a, w) else ""
  }

  function DefaultText(ds: seq<KDefault>, w: World): string {
    var i := ActiveDefault(ds, w);
    if i < |ds| then ExprText(ds[i].value, w) else ""
  }

  function ChoiceSymbolTri(k: KConf, u: Users, w: World, s: Name, c: ChoiceId): Tristate {
    if Vis(k, w, s) == NO then NO
    else if Mode(k, u, w, c) == YES then (if Selection(k, u, w, c) == Some(s) then YES else NO)
    else if Mode(k, u, w, c) == MOD && s in u.sym && (u.sym[s] == "m" || u.sym[s] == "y") then MOD
    else NO
  }

  function PlainSymbolTri(k: KConf, u: Users, w: World, s: Name): Tristate {
    var d, vis := SymOf(k, s), Vis(k, w, s);
    var base := if vis != NO && s in u.sym then EvalMin(ConstTri(u.sym[s]), vis, w.mods) else DefaultTri(d.defaults, w);
    var rev := EvalOpt(Some(d.revDep), w);
    if rev != NO then EvalMax(base, rev, w.mods) else base
  }

  // The active range as numbers, if there is one.
  function ActiveRange(k: KConf, rs: seq<KRange>, base: nat, w: World): Option<(int, int)> {
    if rs == [] then None
    else if EvalOpt(rs[0].cond, w) != NO then
      var l, h := k.parse(AtomText(rs[0].low, w), base), k.parse(AtomText(rs[0].high, w), base);
      Some((if l.Some? then l.value else 0, if h.Some? then h.value else 0))
    else ActiveRange(k, rs[1..], base, w)
  }

  function Clamp(k: KConf, text: string, n: int, range: Option<(int, int)>, base: nat): string {
    if range.Some? && n < range.value.0 then k.show(range.value.0, base)
    else if range.Some? && n > range.value.1 then k.show(range.value.1, base)
    else text
  }

  // The loop over the defaults of an int or hex symbol; a default that is no number is passed over.
  function NumberDefault(
    k: KConf, ds: seq<KDefault>, cur: string, range: Option<(int, int)>, base: nat, w: World): string {
    if ds == [] then (if range.Some? && range.value.0 > 0 then k.show(range.value.0, base) else cur)
    else if EvalOpt(ds[0].cond, w) == NO then NumberDefault(k, ds[1..], cur, range, base, w)
    else
      var text := ExprText(ds[0].value, w);
      var n := k.parse(text, base);
      if n.Some? then Clamp(k, text, n.value, range, base) else NumberDefault(k, ds[1..], text, range, base, w)
  }

  predicate UserNumberOk(k: KConf, text: string, range: Option<(int, int)>, base: nat) {
    var n := k.parse(text, base);
    n.Some? && (range.None? || range.value.0 <= n.value <= range.value.1)
  }

  function NumberValue(k: KConf, u: Users, w: World, s: Name, base: nat): string {
    var d := SymOf(k, s);
    var range := ActiveRange(k, d.ranges, base, w);
    if Vis(k, w, s) != NO && s in u.sym && UserNumberOk(k, u.sym[s], range, base) then u.sym[s]
    else NumberDefault(k, d.defaults, "", range, base, w)
  }

  function Value(k: KConf, u: Users, w: World, s: Name): string {
    var d := SymOf(k, s);
    if s in k.fixed then k.fixed[s]
    else match d.ty
      case KUnknown => s
      case KString => if Vis(k, w, s) != NO && s in u.sym then u.sym[s] else DefaultText(d.defaults, w)
      case KHex => NumberValue(k, u, w, s, 16)
      case KInt => NumberValue(k, u, w, s, 10)
      case _ =>
        var t := if d.choice.Some? then ChoiceSymbolTri(k, u, w, s, d.choice.value) else PlainSymbolTri(k, u, w, s);
        TriString(if t == MOD && d.ty.KBool? then YES else t)
  }

  // ----- the symbols read -----

  function PromptSyms(prompts: seq<Option<KExpr>>): set<Name> {
    if prompts == [] then {} else PromptSyms(prompts[..|prompts| - 1]) + OptSyms(prompts[|prompts| - 1])
  }

  function DefaultSyms(ds: seq<KDefault>): set<Name> {
    if ds == [] then {} else ExprSyms(ds[0].value) + OptSyms(ds[0].cond) + DefaultSyms(ds[1..])
  }

  function RangeSyms(rs: seq<KRange>): set<Name> {
    if rs == [] then {} else AtomSyms(rs[0].low) + AtomSyms(rs[0].high) + OptSyms(rs[0].cond) + RangeSyms(rs[1..])
  }

  function ChoiceDefaultSyms(ds: seq<KChoiceDefault>): set<Name> {
    if ds == [] then {} else OptSyms(ds[0].cond) + ChoiceDefaultSyms(ds[1..])
  }

  function OwnSyms(d: KSym): set<Name> {
    PromptSyms(d.prompts) + DefaultSyms(d.defaults) + ExprSyms(d.revDep) + RangeSyms(d.ranges)
  }

  function ChoiceSyms(d: KChoice): set<Name> {
    PromptSyms(d.prompts) + ChoiceDefaultSyms(d.defaults)
  }

  /** The symbols in whose `dep` sets _build_dep puts `s`. */
  function DirectUses(k: KConf, s: Name): set<Name> {
    var d := SymOf(k, s);
    OwnSyms(d) + if d.choice.Some? then ChoiceSyms(ChoiceOf(k, d.choice.value)) else {}
  }

  // The prompt conditions of all symbols of a list.
  function MemberSyms(k: KConf, members: seq<Name>): set<Name> {
    if members == [] then {} else PromptSyms(SymOf(k, members[0]).prompts) + MemberSyms(k, members[1..])
  }

  /** Everything the value of `s` reads: for a symbol of a choice also the prompts of the others. */
  function Reads(k: KConf, s: Name): set<Name> {
    var d := SymOf(k, s);
    DirectUses(k, s) + if d.choice.Some? then MemberSyms(k, ChoiceOf(k, d.choice.value).members) else {}
  }

  // ----- values depend on nothing else -----

  lemma {:induction false} VisMaxAgree(prompts: seq<Option<KExpr>>, n: nat, v: World, w: World)
    requires n <= |prompts| && Agree(PromptSyms(prompts[..n]), v, w)
    ensures VisMax(prompts, n, v) == VisMax(prompts, n, w)
  {
    if n > 0 {
      assert prompts[..n][..n - 1] == prompts[..n - 1];
      VisMaxAgree(prompts, n - 1, v, w);
      EvalOptAgree(prompts[n - 1], v, w);
    }
  }

  lemma ChoiceVisAgree(k: KConf, v: World, w: World, c: ChoiceId)
    requires Agree(PromptSyms(ChoiceOf(k, c).prompts), v, w)
    ensures ChoiceVis(k, v, c) == ChoiceVis(k, w, c)
  {
    var ps := ChoiceOf(k, c).prompts;
    assert ps[..|ps|] == ps;
    VisMaxAgree(ps, |ps|, v, w);
  }

  lemma VisAgree(k: KConf, v: World, w: World, s: Name)
    requires Agree(PromptSyms(SymOf(k, s).prompts), v, w)
    requires SymOf(k, s).choice.Some? ==> Agree(PromptSyms(ChoiceOf(k, SymOf(k, s).choice.value).prompts), v, w)
    ensures Vis(k, v, s) == Vis(k, w, s)
  {
    var d := SymOf(k, s);
    assert d.prompts[..|d.prompts|] == d.prompts;
    VisMaxAgree(d.prompts, |d.prompts|, v, w);
    if d.choice.Some? {
      ChoiceVisAgree(k, v, w, d.choice.value);
    }
  }

  lemma {:induction false} ActiveDefaultAgree(ds: seq<KDefault>, v: World, w: World)
    requires Agree(DefaultSyms(ds), v, w)
    ensures ActiveDefault(ds, v) == ActiveDefault(ds, w)
    ensures DefaultTri(ds, v) == DefaultTri(ds, w) && DefaultText(ds, v) == DefaultText(ds, w)
  {
    if ds != [] {
      EvalOptAgree(ds[0].cond, v, w);
      EvalOptAgree(Some(ds[0].value), v, w);
      ActiveDefaultAgree(ds[1..], v, w);
      assert ds[0].value.KAtom? && ds[0].value.a.ASym? ==> ds[0].value.a.name in ExprSyms(ds[0].value);
      var i := ActiveDefault(ds[1..], w);
      assert i < |ds[1..]| ==> ds[1..][i] == ds[i + 1];
    }
  }

  lemma {:induction false} ActiveChoiceDefaultAgree(ds: seq<KChoiceDefault>, v: World, w: World)
    requires Agree(ChoiceDefaultSyms(ds), v, w)
    ensures ActiveChoiceDefault(ds, v) == ActiveChoiceDefault(ds, w)
  {
    if ds != [] {
      EvalOptAgree(ds[0].cond, v, w);
      ActiveChoiceDefaultAgree(ds[1..], v, w);
    }
  }

  lemma {:induction false} NumberDefaultAgree(
    k: KConf, ds: seq<KDefault>, cur: string, range: Option<(int, int)>, base: nat, v: World, w: World)
    requires Agree(DefaultSyms(ds), v, w)
    ensures NumberDefault(k, ds, cur, range, base, v) == NumberDefault(k, ds, cur, range, base, w)
  {
    if ds != [] {
      EvalOptAgree(ds[0].cond, v, w);
      assert ds[0].value.KAtom? && ds[0].value.a.ASym? ==> ds[0].value.a.name in ExprSyms(ds[0].value);
      NumberDefaultAgree(k, ds[1..], cur, range, base, v, w);
      NumberDefaultAgree(k, ds[1..], ExprText(ds[0].value, w), range, base, v, w);
    }
  }

  lemma {:induction false} ActiveRangeAgree(k: KConf, rs: seq<KRange>, base: nat, v: World, w: World)
    requires Agree(RangeSyms(rs), v, w)
    ensures ActiveRange(k, rs, base, v) == ActiveRange(k, rs, base, w)
  {
    if rs != [] {
      EvalOptAgree(rs[0].cond, v, w);
      assert rs[0].low.ASym? ==> rs[0].low.name in AtomSyms(rs[0].low);
      assert rs[0].high.ASym? ==> rs[0].high.name in AtomSyms(rs[0].high);
      ActiveRangeAgree(k, rs[1..], base, v, w);
    }
  }

  lemma {:induction false} FirstVisibleAgree(k: KConf, v: World, w: World, c: ChoiceId, members: seq<Name>)
    requires Agree(MemberSyms(k, members) + PromptSyms(ChoiceOf(k, c).prompts), v, w)
    requires forall m :: m in members ==> SymOf(k, m).choice == Some(c)
    ensures FirstVisible(k, v, members) == FirstVisible(k, w, members)
    ensures forall m :: m in members ==> Vis(k, v, m) == Vis(k, w, m)
  {
    if members != [] {
      VisAgree(k, v, w, members[0]);
      FirstVisibleAgree(k, v, w, c, members[1..]);
    }
  }

  // The user's part in symbol `s`, and in choice `c`, is the same.
  ghost predicate SameUser(u: Users, u': Users, s: Name) {
    (s in u.sym <==> s in u'.sym) && (s in u.sym ==> u.sym[s] == u'.sym[s])
  }

  ghost predicate SameChoiceUser(u: Users, u': Users, c: ChoiceId) {
    && (c in u.pick <==> c in u'.pick) && (c in u.pick ==> u.pick[c] == u'.pick[c])
    && (c in u.mode <==> c in u'.mode) && (c in u.mode ==> u.mode[c] == u'.mode[c])
  }

  /** The shape parsing produces: choices and their symbols refer to each other, choice defaults and user
      selections are symbols of the choice, and MODULES is a plain boolean that depends on nothing. */
  ghost predicate WellFormed(k: KConf) {
    && (forall s ::
          s in k.syms && k.syms[s].choice.Some? ==>
            k.syms[s].choice.value in k.choices && s in k.choices[k.syms[s].choice.value].members)
    && (forall c, m ::
          c in k.choices && m in k.choices[c].members ==> m in k.syms && m !in k.fixed && k.syms[m].choice == Some(c))
    && (forall c :: c in k.choices ==> k.choices[c].members != [] && DefaultsInside(k.choices[c]))
    && Modules !in k.fixed && ModulesPlain(SymOf(k, Modules))
  }

  ghost predicate DefaultsInside(d: KChoice) {
    forall i :: 0 <= i < |d.defaults| ==> d.defaults[i].sym in d.members
  }

  ghost predicate ModulesPlain(d: KSym) {
    && (d.ty.KBool? || d.ty.KUnknown?) && d.choice.None? && Plain(d.revDep)
    && (forall i :: 0 <= i < |d.prompts| && d.prompts[i].Some? ==> Plain(d.prompts[i].value))
    && (forall i ::
          0 <= i < |d.defaults| ==>
            Plain(d.defaults[i].value) && (d.defaults[i].cond.Some? ==> Plain(d.defaults[i].cond.value)))
  }

  // User selections are symbols of their choice, and MODULES is set to y or n only.
  ghost predicate UsersOk(k: KConf, u: Users) {
    && (forall c :: c in u.pick ==> c in k.choices && u.pick[c] in k.choices[c].members)
    && (Modules in u.sym ==> u.sym[Modules] == "y" || u.sym[Modules] == "n")
  }

  lemma AgreeOn(ss: set<Name>, ts: set<Name>, v: World, w: World)
    requires Agree(ss, v, w) && ts <= ss
    ensures Agree(ts, v, w)
  {
  }

  lemma ModeAgree(k: KConf, u: Users, u': Users, v: World, w: World, c: ChoiceId)
    requires SameChoiceUser(u, u', c) && Agree(PromptSyms(ChoiceOf(k, c).prompts), v, w)
    ensures Mode(k, u, v, c) == Mode(k, u', w, c)
  {
    ChoiceVisAgree(k, v, w, c);
  }

  lemma DefaultSelectionAgree(k: KConf, v: World, w: World, c: ChoiceId)
    requires WellFormed(k) && c in k.choices
    requires Agree(PromptSyms(k.choices[c].prompts), v, w) && Agree(ChoiceDefaultSyms(k.choices[c].defaults), v, w)
    requires Agree(MemberSyms(k, k.choices[c].members), v, w)
    ensures DefaultSelection(k, v, c) == DefaultSelection(k, w, c)
    ensures forall m :: m in k.choices[c].members ==> Vis(k, v, m) == Vis(k, w, m)
  {
    hide Vis, FirstVisible, ActiveChoiceDefault, MemberSyms, PromptSyms, ChoiceDefaultSyms;
    var d := k.choices[c];
    ActiveChoiceDefaultAgree(d.defaults, v, w);
    FirstVisibleAgree(k, v, w, c, d.members);
    var i := ActiveChoiceDefault(d.defaults, w);
    assert (if i < |d.defaults| then d.defaults[i].sym else d.members[0]) in d.members;
  }

  lemma SelectionAgree(k: KConf, u: Users, u': Users, v: World, w: World, c: ChoiceId)
    requires WellFormed(k) && UsersOk(k, u) && c in k.choices && SameChoiceUser(u, u', c)
    requires Agree(ChoiceSyms(k.choices[c]), v, w) && Agree(MemberSyms(k, k.choices[c].members), v, w)
    ensures Mode(k, u, v, c) == Mode(k, u', w, c)
    ensures Selection(k, u, v, c) == Selection(k, u', w, c)
  {
    var d := k.choices[c];
    AgreeOn(ChoiceSyms(d), PromptSyms(d.prompts), v, w);
    AgreeOn(ChoiceSyms(d), ChoiceDefaultSyms(d.defaults), v, w);
    ModeAgree(k, u, u', v, w, c);
    DefaultSelectionAgree(k, v, w, c);
  }

  lemma PlainSymbolAgree(k: KConf, u: Users, u': Users, v: World, w: World, s: Name)
    requires SameUser(u, u', s) && Vis(k, v, s) == Vis(k, w, s)
    requires Agree(DefaultSyms(SymOf(k, s).defaults), v, w) && Agree(ExprSyms(SymOf(k, s).revDep), v, w)
    ensures PlainSymbolTri(k, u, v, s) == PlainSymbolTri(k, u', w, s)
    ensures DefaultText(SymOf(k, s).defaults, v) == DefaultText(SymOf(k, s).defaults, w)
  {
    ActiveDefaultAgree(SymOf(k, s).defaults, v, w);
    EvalOptAgree(Some(SymOf(k, s).revDep), v, w);
  }

  lemma NumberAgree(k: KConf, u: Users, u': Users, v: World, w: World, s: Name, base: nat)
    requires SameUser(u, u', s) && Vis(k, v, s) == Vis(k, w, s)
    requires Agree(DefaultSyms(SymOf(k, s).defaults), v, w) && Agree(RangeSyms(SymOf(k, s).ranges), v, w)
    ensures NumberValue(k, u, v, s, base) == NumberValue(k, u', w, s, base)
  {
    ActiveRangeAgree(k, SymOf(k, s).ranges, base, v, w);
    NumberDefaultAgree(k, SymOf(k, s).defaults, "", ActiveRange(k, SymOf(k, s).ranges, base, w), base, v, w);
  }

  // Agreement on each part of what `s` reads.
  ghost predicate PartsAgree(k: KConf, v: World, w: World, s: Name) {
    var d := SymOf(k, s);
    && Agree(PromptSyms(d.prompts), v, w) && Agree(DefaultSyms(d.defaults), v, w)
    && Agree(ExprSyms(d.revDep), v, w) && Agree(RangeSyms(d.ranges), v, w)
    && (d.choice.Some? ==>
          && Agree(ChoiceSyms(ChoiceOf(k, d.choice.value)), v, w)
          && Agree(MemberSyms(k, ChoiceOf(k, d.choice.value).members), v, w))
  }

  lemma ReadsParts(k: KConf, v: World, w: World, s: Name)
    requires Agree(Reads(k, s), v, w)
    ensures PartsAgree(k, v, w, s)
  {
    var d, ss := SymOf(k, s), Reads(k, s);
    assert PromptSyms(d.prompts) <= OwnSyms(d) && DefaultSyms(d.defaults) <= OwnSyms(d);
    assert ExprSyms(d.revDep) <= OwnSyms(d) && RangeSyms(d.ranges) <= OwnSyms(d);
    assert OwnSyms(d) <= DirectUses(k, s) <= ss;
    AgreeOn(ss, PromptSyms(d.prompts), v, w);
    AgreeOn(ss, DefaultSyms(d.defaults), v, w);
    AgreeOn(ss, ExprSyms(d.revDep), v, w);
    AgreeOn(ss, RangeSyms(d.ranges), v, w);
    if d.choice.Some? {
      var e := ChoiceOf(k, d.choice.value);
      AgreeOn(ss, ChoiceSyms(e), v, w);
      AgreeOn(ss, MemberSyms(k, e.members), v, w);
    }
  }

  lemma ChoiceSymbolAgree(k: KConf, u: Users, u': Users, v: World, w: World, s: Name, c: ChoiceId)
    requires WellFormed(k) && UsersOk(k, u) && SameUser(u, u', s) && SameChoiceUser(u, u', c) && c in k.choices
    requires Vis(k, v, s) == Vis(k, w, s)
    requires Agree(ChoiceSyms(k.choices[c]), v, w) && Agree(MemberSyms(k, k.choices[c].members), v, w)
    ensures ChoiceSymbolTri(k, u, v, s, c) == ChoiceSymbolTri(k, u', w, s, c)
  {
    SelectionAgree(k, u, u', v, w, c);
  }

  // The value, once its ingredients are known to be the same.
  lemma ValueFrom(k: KConf, u: Users, u': Users, v: World, w: World, s: Name)
    requires SameUser(u, u', s) && Vis(k, v, s) == Vis(k, w, s)
    requires PlainSymbolTri(k, u, v, s) == PlainSymbolTri(k, u', w, s)
    requires DefaultText(SymOf(k, s).defaults, v) == DefaultText(SymOf(k, s).defaults, w)
    requires NumberValue(k, u, v, s, 10) == NumberValue(k, u', w, s, 10)
    requires NumberValue(k, u, v, s, 16) == NumberValue(k, u', w, s, 16)
    requires SymOf(k, s).choice.Some? ==>
      ChoiceSymbolTri(k, u, v, s, SymOf(k, s).choice.value) == ChoiceSymbolTri(k, u', w, s, SymOf(k, s).choice.value)
    ensures Value(k, u, v, s) == Value(k, u', w, s)
  {
    hide Vis, PlainSymbolTri, DefaultText, NumberValue, ChoiceSymbolTri;
  }

  /** The value of a symbol is determined by its user value, the user's part in its choice and what it reads. */
  lemma ValueAgree(k: KConf, u: Users, u': Users, v: World, w: World, s: Name)
    requires WellFormed(k) && UsersOk(k, u) && SameUser(u, u', s) && PartsAgree(k, v, w, s)
    requires SymOf(k, s).choice.Some? ==> SameChoiceUser(u, u', SymOf(k, s).choice.value)
    ensures Value(k, u, v, s) == Value(k, u', w, s)
    ensures Vis(k, v, s) == Vis(k, w, s)
  {
    var d := SymOf(k, s);
    if d.choice.Some? {
      var c := d.choice.value;
      assert c in k.choices;
      AgreeOn(ChoiceSyms(k.choices[c]), PromptSyms(k.choices[c].prompts), v, w);
      VisAgree(k, v, w, s);
      ChoiceSymbolAgree(k, u, u', v, w, s, c);
    } else {
      VisAgree(k, v, w, s);
    }
    PlainSymbolAgree(k, u, u', v, w, s);
    NumberAgree(k, u, u', v, w, s, 10);
    NumberAgree(k, u, u', v, w, s, 16);
    ValueFrom(k, u, u', v, w, s);
  }
}
