/** The conditions of menu entries and their properties, handed down the tree by menu_finalize. */
module MenuConditions {
  import opened Wrappers
  import Ex = Expr
  import No = Normalisation
  import Du = Duplicates
  import Su = Submenu
  import Ir = Irredundance
  import opened Forest

  type Cond = Option<Ex.Expr>

  // menu->sym, and menu->prompt as an index into the properties defined at the entry
  datatype Info = Info(sym: map<Id, Ex.Symbol>, prompt: map<Id, nat>)

  // menu->dep, and visible.expr of the properties defined at the entry
  datatype Conds = Conds(dep: map<Id, Cond>, visible: map<Id, seq<Cond>>)

  function DepAt(c: Conds, e: Id): Cond {
    if e in c.dep then c.dep[e] else None
  }

  function VisAt(c: Conds, e: Id): seq<Cond> {
    if e in c.visible then c.visible[e] else []
  }

  function PromptOf(info: Info, c: Conds, e: Id): Cond {
    if e in info.prompt && info.prompt[e] < |VisAt(c, e)| then VisAt(c, e)[info.prompt[e]] else None
  }

  /** The condition of an entry: that of its prompt, or else its own. */
  function CondOf(info: Info, c: Conds, e: Id): Cond {
    if e in info.prompt && info.prompt[e] < |VisAt(c, e)| then VisAt(c, e)[info.prompt[e]] else DepAt(c, e)
  }

  // ----- one condition combined with another -----

  function AndOpt(a: Cond, b: Cond): Cond {
    if a.None? then b else if b.None? then a else Some(Ex.Bin(Ex.AndOp, a.value, b.value))
  }

  function TransformOpt(e: Cond): Cond {
    if e.None? then None else Some(No.Transform(e.value))
  }

  function DupsOpt(e: Cond): Cond {
    if e.None? then None else Some(Du.EliminateDups(e.value))
  }

  // The condition of an entry, given the condition of its parent.
  function BaseDep(parentDep: Cond, dep: Cond): Cond {
    DupsOpt(AndOpt(parentDep, TransformOpt(dep)))
  }

  // The condition of a property of an entry; for anything but a tristate symbol also expr_trans_bool.
  function PropDep(baseDep: Cond, vis: Cond, transBool: bool): Cond {
    var d := BaseDep(baseDep, vis);
    if transBool && d.Some? then Some(No.TransBool(d.value)) else d
  }

  function PropDeps(baseDep: Cond, vis: seq<Cond>, transBool: bool, n: nat): (ds: seq<Cond>)
    requires n <= |vis|
    ensures |ds| == n && forall i :: 0 <= i < n ==> ds[i] == PropDep(baseDep, vis[i], transBool)
  {
    if n == 0 then [] else PropDeps(baseDep, vis, transBool, n - 1) + [PropDep(baseDep, vis[n - 1], transBool)]
  }

  predicate TransBoolAt(info: Info, e: Id) {
    e in info.sym && !info.sym[e].IsTristate()
  }

  // Conditions that are n or y in `v`, over boolean and tristate symbols.
  ghost predicate Plain(e: Cond, v: Ex.Valuation) {
    Su.PlainCondition(e, v)
  }

  // ... and in negation normal form, so that they can be handed down.
  ghost predicate Fit(e: Cond, v: Ex.Valuation) {
    Su.PlainCondition(e, v) && (e.Some? ==> No.Normalised(e.value))
  }

  // A valuation without m, as the resolver produces them.
  ghost predicate Sharp(v: Ex.Valuation) {
    Ex.WellTyped(v) && No.Boolean(v)
  }

  predicate Holds(e: Cond, v: Ex.Valuation) {
    Ex.EvalCond(e, v) != Ex.NO
  }

  lemma TransformFit(e: Ex.Expr, v: Ex.Valuation)
    requires Sharp(v) && Plain(Some(e), v)
    ensures Fit(Some(No.Transform(e)), v) && Ex.Eval(No.Transform(e), v) == Ex.Eval(e, v)
  {
    No.TransformMeaning(e, v);
    No.TransformNormalises(e);
    No.TransformConditional(e);
    No.TransformTwoValued(e, v);
  }

  lemma DupsFit(e: Ex.Expr, v: Ex.Valuation)
    requires Sharp(v) && Fit(Some(e), v)
    ensures Fit(Some(Du.EliminateDups(e)), v) && Ex.Eval(Du.EliminateDups(e), v) == Ex.Eval(e, v)
  {
    Du.EliminateDupsMeaning(e, v);
    Du.EliminateDupsKeeps(e, Du.NormalForm);
    Du.EliminateDupsKeeps(e, Du.Conditions);
  }

  /** Handing a condition down means conjunction, and the result is again fit to be handed down. */
  lemma BaseDepMeaning(parentDep: Cond, dep: Cond, v: Ex.Valuation)
    requires Sharp(v) && Fit(parentDep, v) && Plain(dep, v)
    ensures Fit(BaseDep(parentDep, dep), v)
    ensures Ex.EvalCond(BaseDep(parentDep, dep), v)
      == Ex.Apply(Ex.AndOp, Ex.EvalCond(parentDep, v), Ex.EvalCond(dep, v))
  {
    hide Sharp, No.Transform, Du.EliminateDups;
    if dep.Some? {
      TransformFit(dep.value, v);
    }
    var e := AndOpt(parentDep, TransformOpt(dep));
    assert Fit(e, v);
    if e.Some? {
      DupsFit(e.value, v);
    }
  }

  /** A property of an entry is visible exactly where the entry's condition and its own both hold. */
  lemma PropDepMeaning(baseDep: Cond, vis: Cond, transBool: bool, v: Ex.Valuation)
    requires Sharp(v) && Fit(baseDep, v) && Plain(vis, v)
    ensures Fit(PropDep(baseDep, vis, transBool), v)
    ensures Holds(PropDep(baseDep, vis, transBool), v) <==> Holds(baseDep, v) && Holds(vis, v)
  {
    BaseDepMeaning(baseDep, vis, v);
    var d := BaseDep(baseDep, vis);
    if d.Some? {
      No.TransBoolKeeps(d.value);
      No.TransBoolKeepsNonNo(d.value, v);
    }
  }

  // ----- all entries of a tree -----

  ghost predicate SameAt(c: Conds, d: Conds, e: Id) {
    DepAt(c, e) == DepAt(d, e) && VisAt(c, e) == VisAt(d, e)
  }

  ghost predicate AgreeOn(c: Conds, d: Conds, ids: set<Id>) {
    forall e :: e in ids ==> SameAt(c, d, e)
  }

  // Only the conditions of the entries in `ids` may differ.
  ghost predicate AgreeBut(c: Conds, d: Conds, ids: set<Id>) {
    forall e :: e !in ids ==> SameAt(c, d, e)
  }

  // Entry `e` has been given the condition `parentDep` from above.
  ghost predicate Received(info: Info, c: Conds, d: Conds, parentDep: Cond, e: Id) {
    && DepAt(d, e) == BaseDep(parentDep, DepAt(c, e))
    && VisAt(d, e) == PropDeps(DepAt(d, e), VisAt(c, e), TransBoolAt(info, e), |VisAt(c, e)|)
  }

  /** The form of what an entry is given: its condition holds no duplicates, and neither do those of its properties;
      below a symbol that is not tristate they also hold no FOO!=n. */
  lemma ReceivedForm(info: Info, c: Conds, d: Conds, parentDep: Cond, e: Id, i: nat)
    requires Received(info, c, d, parentDep, e) && i < |VisAt(d, e)|
    ensures DepAt(d, e).Some? ==> Ir.Irredundant(DepAt(d, e).value)
    ensures VisAt(d, e)[i].Some? ==>
      var x := VisAt(d, e)[i].value;
      if e in info.sym && !info.sym[e].IsTristate() then No.NoneUnequalNo(x) else Ir.Irredundant(x)
  {
    hide Ir.Irredundant, Du.EliminateDups, No.Transform, No.TransBool, No.NoneUnequalNo;
    var own := AndOpt(parentDep, TransformOpt(DepAt(c, e)));
    if own.Some? {
      Ir.EliminateDupsIrredundant(own.value);
    }
    var x := AndOpt(DepAt(d, e), TransformOpt(VisAt(c, e)[i]));
    if x.Some? {
      Ir.EliminateDupsIrredundant(x.value);
      No.TransBoolComplete(Du.EliminateDups(x.value));
    }
  }

  /** With nothing handed down, FOO!=n stays as it is for a tristate symbol or a plain menu and becomes FOO for any
      other symbol. */
  lemma ReceivedUnequal(info: Info, c: Conds, d: Conds, e: Id, i: nat, s: Ex.Symbol)
    requires Received(info, c, d, None, e) && DepAt(c, e).None? && i < |VisAt(c, e)| && s.IsTristate()
    requires VisAt(c, e)[i] == Some(Ex.Unequal(s, Ex.SymNo))
    ensures VisAt(d, e)[i]
      == Some(if e in info.sym && !info.sym[e].IsTristate() then Ex.Sym(s) else Ex.Unequal(s, Ex.SymNo))
  {
    assert Du.EliminateDups(Ex.Unequal(s, Ex.SymNo)) == Ex.Unequal(s, Ex.SymNo);
  }

  /** Every entry below `p` has been given the condition that its parent ends up with, exactly once. */
  ghost predicate HandedDown(info: Info, c: Conds, d: Conds, p: Id, kids: seq<Tree>)
    decreases kids
  {
    kids != [] ==>
      && Received(info, c, d, CondOf(info, d, p), kids[0].id)
      && HandedDown(info, c, d, kids[0].id, kids[0].kids) && HandedDown(info, c, d, p, kids[1..])
  }

  // ... in each tree of a list, the roots of which keep their conditions.
  ghost predicate HandedAll(info: Info, c: Conds, d: Conds, f: seq<Tree>) {
    f != [] ==> HandedDown(info, c, d, f[0].id, f[0].kids) && HandedAll(info, c, d, f[1..])
  }

  // The entries below the roots of a list.
  function Deep(f: seq<Tree>): set<Id> {
    if f == [] then {} else Ids(f[0].kids) + Deep(f[1..])
  }

  function Tops(f: seq<Tree>): set<Id> {
    if f == [] then {} else {f[0].id} + Tops(f[1..])
  }

  lemma {:induction false} DeepFacts(f: seq<Tree>)
    ensures Deep(f) + Tops(f) == Ids(f)
    ensures Unique(f) ==> Deep(f) !! Tops(f)
  {
    if f != [] {
      DeepFacts(f[1..]);
    }
  }

  lemma {:induction false} DeepConcat(f: seq<Tree>, g: seq<Tree>)
    ensures Deep(f + g) == Deep(f) + Deep(g)
  {
    if f == [] {
      assert f + g == g;
    } else {
      assert (f + g)[1..] == f[1..] + g;
      DeepConcat(f[1..], g);
    }
  }

  lemma {:induction false} HandedAllConcat(info: Info, c: Conds, d: Conds, f: seq<Tree>, g: seq<Tree>)
    ensures HandedAll(info, c, d, f + g) <==> HandedAll(info, c, d, f) && HandedAll(info, c, d, g)
  {
    if f == [] {
      assert f + g == g;
    } else {
      assert (f + g)[1..] == f[1..] + g;
      HandedAllConcat(info, c, d, f[1..], g);
    }
  }

  lemma {:induction false} HandedFrame(
    info: Info, c: Conds, d: Conds, c': Conds, d': Conds, p: Id, kids: seq<Tree>)
    requires HandedDown(info, c, d, p, kids) && AgreeOn(c, c', Ids(kids)) && AgreeOn(d, d', {p} + Ids(kids))
    ensures HandedDown(info, c', d', p, kids)
    decreases kids
  {
    if kids != [] {
      var e := kids[0].id;
      assert SameAt(c, c', e) && SameAt(d, d', e) && SameAt(d, d', p);
      HandedFrame(info, c, d, c', d', e, kids[0].kids);
      HandedFrame(info, c, d, c', d', p, kids[1..]);
    }
  }

  lemma {:induction false} HandedAllFrame(info: Info, c: Conds, d: Conds, c': Conds, d': Conds, f: seq<Tree>)
    requires HandedAll(info, c, d, f) && AgreeOn(c, c', Ids(f)) && AgreeOn(d, d', Ids(f))
    ensures HandedAll(info, c', d', f)
  {
    if f != [] {
      HandedFrame(info, c, d, c', d', f[0].id, f[0].kids);
      HandedAllFrame(info, c, d, c', d', f[1..]);
    }
  }

  // ----- the loop that hands down one level -----

  // The entries of the list have been given the condition.
  ghost predicate LevelDone(info: Info, c: Conds, d: Conds, parentDep: Cond, kids: seq<Tree>) {
    kids != [] ==> Received(info, c, d, parentDep, kids[0].id) && LevelDone(info, c, d, parentDep, kids[1..])
  }

  lemma {:induction false} LevelAppend(info: Info, c: Conds, d: Conds, parentDep: Cond, a: seq<Tree>, t: Tree)
    ensures LevelDone(info, c, d, parentDep, a + [t])
      <==> LevelDone(info, c, d, parentDep, a) && Received(info, c, d, parentDep, t.id)
    ensures Tops(a + [t]) == Tops(a) + {t.id}
    decreases |a|
  {
    if a == [] {
      assert a + [t] == [t] && [t][1..] == [];
    } else {
      assert (a + [t])[1..] == a[1..] + [t];
      LevelAppend(info, c, d, parentDep, a[1..], t);
    }
  }

  lemma LevelStart(info: Info, c: Conds, parentDep: Cond)
    ensures LevelDone(info, c, c, parentDep, []) && AgreeBut(c, c, Tops([]))
  {
  }

  // The next entry of the list is given the condition.
  lemma LevelStep(info: Info, c: Conds, d: Conds, e: Conds, parentDep: Cond, a: seq<Tree>, b: seq<Tree>)
    requires LevelDone(info, c, d, parentDep, a) && AgreeBut(c, d, Tops(a)) && b != [] && Unique(a + b)
    requires Received(info, d, e, parentDep, b[0].id) && AgreeBut(d, e, {b[0].id})
    ensures LevelDone(info, c, e, parentDep, a + [b[0]]) && AgreeBut(c, e, Tops(a + [b[0]]))
  {
    var t := b[0];
    ConcatFacts(a, b);
    DeepFacts(a);
    assert t.id in Ids(b) && t.id !in Tops(a);
    assert SameAt(c, d, t.id);
    LevelFrame(info, c, d, e, parentDep, a);
    LevelAppend(info, c, e, parentDep, a, t);
    forall x | x !in Tops(a + [t]) ensures SameAt(c, e, x) {
      assert SameAt(c, d, x) && SameAt(d, e, x);
    }
  }

  lemma {:induction false} LevelFrame(info: Info, c: Conds, d: Conds, e: Conds, parentDep: Cond, a: seq<Tree>)
    requires LevelDone(info, c, d, parentDep, a) && AgreeOn(d, e, Tops(a))
    ensures LevelDone(info, c, e, parentDep, a)
    decreases |a|
  {
    if a != [] {
      assert SameAt(d, e, a[0].id);
      LevelFrame(info, c, d, e, parentDep, a[1..]);
    }
  }

  // One level, and then the trees below it.
  lemma {:induction false} LevelThenBelow(
    info: Info, c: Conds, d: Conds, e: Conds, p: Id, parentDep: Cond, kids: seq<Tree>)
    requires LevelDone(info, c, d, parentDep, kids) && HandedAll(info, d, e, kids) && Unique(kids)
    requires AgreeOn(c, d, Deep(kids)) && AgreeOn(d, e, Tops(kids)) && CondOf(info, e, p) == parentDep
    ensures HandedDown(info, c, e, p, kids)
  {
    if kids != [] {
      var t := kids[0];
      DeepFacts(kids);
      assert SameAt(d, e, t.id);
      HandedFrame(info, d, e, c, e, t.id, t.kids);
      LevelThenBelow(info, c, d, e, p, parentDep, kids[1..]);
    }
  }

  // ----- what the handed-down conditions mean -----

  ghost predicate PlainAt(c: Conds, e: Id, v: Ex.Valuation) {
    Plain(DepAt(c, e), v) && forall i :: 0 <= i < |VisAt(c, e)| ==> Plain(VisAt(c, e)[i], v)
  }

  ghost predicate PlainIn(c: Conds, ids: set<Id>, v: Ex.Valuation) {
    forall e :: e in ids ==> PlainAt(c, e, v)
  }

  // The conditions an entry had of its own hold.
  predicate OwnHolds(info: Info, c: Conds, e: Id, v: Ex.Valuation) {
    Holds(DepAt(c, e), v) && Holds(PromptOf(info, c, e), v)
  }

  lemma ReceivedMeaning(info: Info, c: Conds, d: Conds, parentDep: Cond, e: Id, v: Ex.Valuation)
    requires Sharp(v) && Fit(parentDep, v) && PlainAt(c, e, v) && Received(info, c, d, parentDep, e)
    ensures Fit(CondOf(info, d, e), v) && Fit(PromptOf(info, d, e), v)
    ensures Holds(CondOf(info, d, e), v) <==> Holds(parentDep, v) && OwnHolds(info, c, e, v)
  {
    hide Sharp, BaseDep, PropDep;
    BaseDepMeaning(parentDep, DepAt(c, e), v);
    assert Holds(DepAt(d, e), v) <==> Holds(parentDep, v) && Holds(DepAt(c, e), v);
    if e in info.prompt && info.prompt[e] < |VisAt(c, e)| {
      PropDepMeaning(DepAt(d, e), VisAt(c, e)[info.prompt[e]], TransBoolAt(info, e), v);
    }
  }

  /** `path` leads down from the list, one entry to the next below it. */
  ghost predicate IsPath(kids: seq<Tree>, path: seq<Id>)
    decreases path
  {
    path != [] ==> exists i :: 0 <= i < |kids| && kids[i].id == path[0] && IsPath(kids[i].kids, path[1..])
  }

  predicate AllHold(info: Info, c: Conds, path: seq<Id>, v: Ex.Valuation) {
    forall i :: 0 <= i < |path| ==> OwnHolds(info, c, path[i], v)
  }

  lemma {:induction false} HandedAt(info: Info, c: Conds, d: Conds, p: Id, kids: seq<Tree>, i: nat)
    requires HandedDown(info, c, d, p, kids) && i < |kids|
    ensures Received(info, c, d, CondOf(info, d, p), kids[i].id)
    ensures HandedDown(info, c, d, kids[i].id, kids[i].kids)
    ensures kids[i].id in Ids(kids) && Ids(kids[i].kids) <= Ids(kids)
  {
    if i > 0 {
      HandedAt(info, c, d, p, kids[1..], i - 1);
    }
  }

  /** The condition an entry ends up with holds exactly where the condition of the root holds and every entry on the
      way down has its own conditions hold. */
  lemma {:induction false} ConditionMeaning(
    info: Info, c: Conds, d: Conds, p: Id, kids: seq<Tree>, path: seq<Id>, v: Ex.Valuation)
    requires Sharp(v) && HandedDown(info, c, d, p, kids) && PlainIn(c, Ids(kids), v) && Fit(CondOf(info, d, p), v)
    requires IsPath(kids, path) && path != []
    ensures var e := path[|path| - 1];
      && Fit(CondOf(info, d, e), v) && Fit(PromptOf(info, d, e), v)
      && (Holds(CondOf(info, d, e), v) <==> Holds(CondOf(info, d, p), v) && AllHold(info, c, path, v))
    decreases path
  {
    hide Sharp, Fit, Received, OwnHolds;
    var i :| 0 <= i < |kids| && kids[i].id == path[0] && IsPath(kids[i].kids, path[1..]);
    HandedAt(info, c, d, p, kids, i);
    ReceivedMeaning(info, c, d, CondOf(info, d, p), path[0], v);
    if |path| > 1 {
      ConditionMeaning(info, c, d, path[0], kids[i].kids, path[1..], v);
      assert path == [path[0]] + path[1..];
    }
  }

  /** Every entry of a tree can be reached. */
  lemma {:induction false} PathTo(kids: seq<Tree>, e: Id) returns (path: seq<Id>)
    requires e in Ids(kids)
    ensures IsPath(kids, path) && path != [] && path[|path| - 1] == e
  {
    if kids[0].id == e {
      path := [e];
      assert IsPath(kids[0].kids, path[1..]);
    } else if e in Ids(kids[0].kids) {
      var below := PathTo(kids[0].kids, e);
      path := [kids[0].id] + below;
      assert path[1..] == below;
    } else {
      path := PathTo(kids[1..], e);
      var i :| 0 <= i < |kids[1..]| && kids[1..][i].id == path[0] && IsPath(kids[1..][i].kids, path[1..]);
      assert kids[i + 1] == kids[1..][i];
    }
  }
}
