/** kconfiglib: which symbols a changed user value can affect. */
module KDependents {
  import opened Wrappers
  import opened Expr
  import opened KExpr
  import opened KSemantics

  /** `w` gives every symbol the value its definition yields in `w`. */
  ghost predicate Solution(k: KConf, u: Users, w: World) {
    && (forall s {:trigger w.tri(s)} :: w.tri(s) == IsTri(k, s))
    && (w.mods <==> Modules in k.syms && w.val(Modules) == "y")
    && (forall s {:trigger Value(k, u, w, s)} :: Value(k, u, w, s) == w.val(s))
  }

  /** No symbol depends on itself, the symbols of a choice counting as one; MODULES comes first. */
  ghost predicate Acyclic(k: KConf, rank: Name -> nat, top: nat) {
    && (forall s, x {:trigger x in DirectUses(k, s)} :: s in k.syms && x in DirectUses(k, s) ==> rank(x) < rank(s))
    && (forall s {:trigger s in k.syms} :: s in k.syms ==> rank(s) <= top && (s != Modules ==> rank(s) > 0))
    && (forall c, m {:trigger m in k.choices[c].members} ::
           c in k.choices && m in k.choices[c].members ==> rank(m) == rank(k.choices[c].members[0]))
    && rank(Modules) == 0
  }

  // ----- MODULES depends on nothing -----

  lemma {:induction false} PlainVisMax(prompts: seq<Option<KExpr>>, n: nat, v: World, w: World)
    requires n <= |prompts| && forall i :: 0 <= i < |prompts| && prompts[i].Some? ==> Plain(prompts[i].value)
    ensures VisMax(prompts, n, v) == VisMax(prompts, n, w) != MOD
  {
    if n > 0 {
      PlainVisMax(prompts, n - 1, v, w);
      if prompts[n - 1].Some? {
        PlainEval(prompts[n - 1].value, v, w);
      }
    }
  }

  lemma {:induction false} PlainDefault(ds: seq<KDefault>, v: World, w: World)
    requires forall i :: 0 <= i < |ds| ==> Plain(ds[i].value) && (ds[i].cond.Some? ==> Plain(ds[i].cond.value))
    ensures DefaultTri(ds, v) == DefaultTri(ds, w) != MOD && ActiveDefault(ds, v) == ActiveDefault(ds, w)
  {
    if ds != [] {
      if ds[0].cond.Some? {
        PlainEval(ds[0].cond.value, v, w);
      }
      PlainEval(ds[0].value, v, w);
      PlainDefault(ds[1..], v, w);
      var i := ActiveDefault(ds[1..], w);
      assert i < |ds[1..]| ==> ds[1..][i] == ds[i + 1];
    }
  }

  lemma ModulesParts(d: KSym, v: World, w: World)
    requires ModulesPlain(d)
    ensures VisMax(d.prompts, |d.prompts|, v) == VisMax(d.prompts, |d.prompts|, w) != MOD
    ensures DefaultTri(d.defaults, v) == DefaultTri(d.defaults, w) != MOD
      && Eval2(d.revDep, v) == Eval2(d.revDep, w) != MOD
  {
    PlainVisMax(d.prompts, |d.prompts|, v, w);
    PlainDefault(d.defaults, v, w);
    PlainEval(d.revDep, v, w);
  }

  lemma ModulesTri(k: KConf, u: Users, u': Users, v: World, w: World)
    requires UsersOk(k, u) && SameUser(u, u', Modules) && SymOf(k, Modules).choice.None?
    requires var d := SymOf(k, Modules);
      && VisMax(d.prompts, |d.prompts|, v) == VisMax(d.prompts, |d.prompts|, w) != MOD
      && DefaultTri(d.defaults, v) == DefaultTri(d.defaults, w) != MOD
          && Eval2(d.revDep, v) == Eval2(d.revDep, w) != MOD
    ensures PlainSymbolTri(k, u, v, Modules) == PlainSymbolTri(k, u', w, Modules)
  {
  }

  lemma ModulesValue(k: KConf, u: Users, u': Users, v: World, w: World)
    requires WellFormed(k) && UsersOk(k, u) && SameUser(u, u', Modules)
    ensures Value(k, u, v, Modules) == Value(k, u', w, Modules)
  {
    var d := SymOf(k, Modules);
    ModulesParts(d, v, w);
    ModulesTri(k, u, u', v, w);
    assert d.ty.KBool? || d.ty.KUnknown?;
  }

  lemma ModsEqual(k: KConf, u: Users, u': Users, v: World, w: World)
    requires WellFormed(k) && UsersOk(k, u) && SameUser(u, u', Modules) && Solution(k, u, v) && Solution(k, u', w)
    ensures v.mods == w.mods
  {
    ModulesValue(k, u, u', v, w);
  }

  // ----- a solution exists -----

  ghost function ValueAt(k: KConf, u: Users, rank: Name -> nat, s: Name): string
    decreases rank(s), 1
  {
    Value(k, u, Below(k, u, rank, rank(s)), s)
  }

  ghost function Below(k: KConf, u: Users, rank: Name -> nat, n: nat): World
    decreases n, 0
  {
    World((t: Name) => if rank(t) < n then ValueAt(k, u, rank, t) else "", (t: Name) => IsTri(k, t), ModsOf(k, u))
  }

  ghost function ModsOf(k: KConf, u: Users): bool {
    Modules in k.syms && Value(k, u, World((t: Name) => "", (t: Name) => IsTri(k, t), false), Modules) == "y"
  }

  /** The values kconfiglib computes from empty caches. */
  ghost function Fresh(k: KConf, u: Users, rank: Name -> nat): World {
    World((t: Name) => ValueAt(k, u, rank, t), (t: Name) => IsTri(k, t), ModsOf(k, u))
  }

  // What a symbol reads has a lower rank.
  lemma {:induction false} MemberSymsFrom(k: KConf, members: seq<Name>, x: Name) returns (m: Name)
    requires x in MemberSyms(k, members)
    ensures m in members && x in PromptSyms(SymOf(k, m).prompts)
  {
    if x in PromptSyms(SymOf(k, members[0]).prompts) {
      m := members[0];
    } else {
      m := MemberSymsFrom(k, members[1..], x);
    }
  }

  lemma ReadFrom(k: KConf, s: Name, x: Name) returns (m: Name)
    requires WellFormed(k) && x in Reads(k, s)
    ensures m in k.syms && x in DirectUses(k, m) && s in k.syms
    ensures m == s || (SymOf(k, s).choice.Some? && SymOf(k, s).choice.value in k.choices
      && m in k.choices[SymOf(k, s).choice.value].members && s in k.choices[SymOf(k, s).choice.value].members)
  {
    if x in DirectUses(k, s) {
      m := s;
    } else {
      var c := SymOf(k, s).choice.value;
      m := MemberSymsFrom(k, ChoiceOf(k, c).members, x);
      assert x in OwnSyms(SymOf(k, m));
    }
  }

  lemma ReadsLower(k: KConf, rank: Name -> nat, top: nat, s: Name, x: Name)
    requires WellFormed(k) && Acyclic(k, rank, top) && x in Reads(k, s)
    ensures rank(x) < rank(s)
  {
    var m := ReadFrom(k, s, x);
  }

  lemma FreshSolves(k: KConf, u: Users, rank: Name -> nat, top: nat)
    requires WellFormed(k) && UsersOk(k, u) && Acyclic(k, rank, top)
    ensures Solution(k, u, Fresh(k, u, rank))
  {
    var w := Fresh(k, u, rank);
    forall s ensures Value(k, u, w, s) == w.val(s) {
      var b := Below(k, u, rank, rank(s));
      forall x | x in Reads(k, s) ensures b.val(x) == w.val(x) && b.tri(x) == w.tri(x) {
        ReadsLower(k, rank, top, s, x);
      }
      ReadsParts(k, b, w, s);
      ValueAgree(k, u, u, b, w, s);
    }
    ModulesValue(k, u, u, World((t: Name) => "", (t: Name) => IsTri(k, t), false), Below(k, u, rank, rank(Modules)));
  }

  // ----- what a change leaves alone -----

  /** `a` contains every symbol that reads one of its symbols, and whole choices only. */
  ghost predicate ClosedUnder(k: KConf, a: set<Name>) {
    && (forall t, x {:trigger x in DirectUses(k, t)} :: t in k.syms && x in a && x in DirectUses(k, t) ==> t in a)
    && (forall c, m, m' {:trigger m in k.choices[c].members, m' in k.choices[c].members} ::
          c in k.choices && m in k.choices[c].members && m' in k.choices[c].members && m in a ==> m' in a)
  }

  ghost predicate Untouched(k: KConf, a: set<Name>, c: ChoiceId) {
    c in k.choices && forall m :: m in k.choices[c].members ==> m !in a
  }

  // The user values differ only within `a`.
  ghost predicate UsersDifferIn(k: KConf, u: Users, u': Users, a: set<Name>) {
    && (forall s {:trigger SameUser(u, u', s)} :: s !in a ==> SameUser(u, u', s))
    && (forall c {:trigger SameChoiceUser(u, u', c)} :: Untouched(k, a, c) ==> SameChoiceUser(u, u', c))
  }

  lemma ReadsOutside(k: KConf, a: set<Name>, t: Name, x: Name)
    requires WellFormed(k) && ClosedUnder(k, a) && t !in a && x in Reads(k, t)
    ensures x !in a
  {
    var m := ReadFrom(k, t, x);
  }

  lemma OutsideUntouched(k: KConf, a: set<Name>, t: Name)
    requires WellFormed(k) && ClosedUnder(k, a) && t !in a && SymOf(k, t).choice.Some?
    ensures Untouched(k, a, SymOf(k, t).choice.value)
  {
    var c := SymOf(k, t).choice.value;
    assert t in k.choices[c].members;
  }

  /** A symbol outside the closed set keeps its value and visibility. */
  lemma {:induction false} Unaffected(
    k: KConf, u: Users, u': Users, rank: Name -> nat, top: nat, v: World, w: World, a: set<Name>, t: Name)
    requires WellFormed(k) && UsersOk(k, u) && Acyclic(k, rank, top) && Solution(k, u, v) && Solution(k, u', w)
    requires ClosedUnder(k, a) && UsersDifferIn(k, u, u', a) && v.mods == w.mods && t !in a
    ensures v.val(t) == w.val(t) && Vis(k, v, t) == Vis(k, w, t) && PartsAgree(k, v, w, t)
    decreases rank(t)
  {
    forall x | x in Reads(k, t) ensures v.val(x) == w.val(x) && v.tri(x) == w.tri(x) {
      ReadsOutside(k, a, t, x);
      ReadsLower(k, rank, top, t, x);
      Unaffected(k, u, u', rank, top, v, w, a, x);
    }
    assert Agree(Reads(k, t), v, w);
    ReadsParts(k, v, w, t);
    assert SameUser(u, u', t);
    if SymOf(k, t).choice.Some? {
      OutsideUntouched(k, a, t);
      assert SameChoiceUser(u, u', SymOf(k, t).choice.value);
    }
    ValueAgree(k, u, u', v, w, t);
  }

  lemma UnaffectedChoice(
    k: KConf, u: Users, u': Users, rank: Name -> nat, top: nat, v: World, w: World, a: set<Name>, c: ChoiceId)
    requires WellFormed(k) && UsersOk(k, u) && Acyclic(k, rank, top) && Solution(k, u, v) && Solution(k, u', w)
    requires ClosedUnder(k, a) && UsersDifferIn(k, u, u', a) && v.mods == w.mods && Untouched(k, a, c)
    ensures ChoiceVis(k, v, c) == ChoiceVis(k, w, c) && Selection(k, u, v, c) == Selection(k, u', w, c)
  {
    var d := k.choices[c];
    var m := d.members[0];
    assert m in d.members && SymOf(k, m).choice == Some(c);
    Unaffected(k, u, u', rank, top, v, w, a, m);
    AgreeOn(ChoiceSyms(d), PromptSyms(d.prompts), v, w);
    ChoiceVisAgree(k, v, w, c);
    assert SameChoiceUser(u, u', c);
    SelectionAgree(k, u, u', v, w, c);
  }

  /** The values are unique, so any two evaluations with the same user values agree. */
  lemma SolutionUnique(k: KConf, u: Users, rank: Name -> nat, top: nat, v: World, w: World, s: Name)
    requires WellFormed(k) && UsersOk(k, u) && Acyclic(k, rank, top) && Solution(k, u, v) && Solution(k, u, w)
    ensures v.val(s) == w.val(s)
  {
    ModsEqual(k, u, u, v, w);
    Unaffected(k, u, u, rank, top, v, w, {}, s);
  }

  // ----- Symbol.dep and _get_dependent -----

  /** Symbol.dep as _build_dep fills it: the symbols that use `x` directly. */
  function DepOf(k: KConf, x: Name): set<Name> {
    set t | t in k.syms && x in DirectUses(k, t)
  }

  function Siblings(k: KConf, s: Name): set<Name> {
    var c := SymOf(k, s).choice;
    if c.Some? then (set m | m in ChoiceOf(k, c.value).members && m != s) else {}
  }

  // Ranks counted from the top, for recursion over dependents.
  ghost function Height(rank: Name -> nat, top: nat, s: Name): nat {
    if rank(s) <= top then top - rank(s) else 0
  }

  lemma DepOfHigher(k: KConf, rank: Name -> nat, top: nat, x: Name, t: Name)
    requires WellFormed(k) && Acyclic(k, rank, top) && t in DepOf(k, x)
    ensures Height(rank, top, t) < Height(rank, top, x)
  {
    assert x in DirectUses(k, t);
  }

  lemma SiblingRank(k: KConf, rank: Name -> nat, top: nat, s: Name, m: Name)
    requires WellFormed(k) && Acyclic(k, rank, top) && m in Siblings(k, s)
    ensures Height(rank, top, m) == Height(rank, top, s) && m in k.syms && s in k.syms
  {
    var c := SymOf(k, s).choice.value;
    assert s in k.choices[c].members && m in k.choices[c].members;
  }

  // _add_dependent_ignore_siblings
  ghost function Ignoring(k: KConf, rank: Name -> nat, top: nat, s: Name): set<Name>
    requires WellFormed(k) && Acyclic(k, rank, top)
    decreases Height(rank, top, s), 0
  {
    // the comparison of heights always holds (DepOfHigher); it is what ends the recursion
    DepOf(k, s) + set t, y | t in DepOf(k, s) && Height(rank, top, t) < Height(rank, top, s)
      && y in Dependents(k, rank, top, t) :: y
  }

  // _get_dependent
  ghost function Dependents(k: KConf, rank: Name -> nat, top: nat, s: Name): set<Name>
    requires WellFormed(k) && Acyclic(k, rank, top)
    decreases Height(rank, top, s), 1
  {
    Ignoring(k, rank, top, s)
    + Siblings(k, s)
    + set m, y | m in Siblings(k, s) && Height(rank, top, m) == Height(rank, top, s)
      && y in Ignoring(k, rank, top, m) :: y
  }

  ghost function Affected(k: KConf, rank: Name -> nat, top: nat, s: Name): set<Name>
    requires WellFormed(k) && Acyclic(k, rank, top)
  {
    {s} + Dependents(k, rank, top, s)
  }

  // Everything in Ignoring(s) lies in the affected set of one of the direct dependents.
  lemma IgnoringFrom(k: KConf, rank: Name -> nat, top: nat, s: Name, y: Name) returns (t: Name)
    requires WellFormed(k) && Acyclic(k, rank, top) && y in Ignoring(k, rank, top, s)
    ensures t in DepOf(k, s) && y in Affected(k, rank, top, t)
  {
    if y in DepOf(k, s) {
      t := y;
    } else {
      t :| t in DepOf(k, s) && y in Dependents(k, rank, top, t);
    }
  }

  lemma IgnoringHas(k: KConf, rank: Name -> nat, top: nat, s: Name, t: Name)
    requires WellFormed(k) && Acyclic(k, rank, top) && t in DepOf(k, s)
    ensures Affected(k, rank, top, t) <= Ignoring(k, rank, top, s)
  {
    DepOfHigher(k, rank, top, s, t);
  }

  // Every affected symbol is `s`, a sibling, or reached from one of them through a direct dependent.
  lemma AffectedFrom(k: KConf, rank: Name -> nat, top: nat, s: Name, y: Name) returns (m: Name, direct: bool)
    requires WellFormed(k) && Acyclic(k, rank, top) && y in Affected(k, rank, top, s)
    ensures m == s || m in Siblings(k, s)
    ensures if direct then y == m else y in Ignoring(k, rank, top, m)
  {
    m, direct := s, true;
    if y != s {
      direct := false;
      if y !in Ignoring(k, rank, top, s) {
        if y in Siblings(k, s) {
          m, direct := y, true;
        } else {
          m :| m in Siblings(k, s) && y in Ignoring(k, rank, top, m);
        }
      }
    }
  }

  lemma AffectedHas(k: KConf, rank: Name -> nat, top: nat, s: Name, m: Name)
    requires WellFormed(k) && Acyclic(k, rank, top) && (m == s || m in Siblings(k, s))
    ensures m in Affected(k, rank, top, s) && Ignoring(k, rank, top, m) <= Affected(k, rank, top, s)
  {
    if m != s {
      SiblingRank(k, rank, top, s, m);
    }
  }

  lemma {:induction false} AffectedClosedDep(k: KConf, rank: Name -> nat, top: nat, s: Name, x: Name, t: Name)
    requires WellFormed(k) && Acyclic(k, rank, top) && x in Affected(k, rank, top, s) && t in DepOf(k, x)
    ensures t in Affected(k, rank, top, s)
    decreases Height(rank, top, s)
  {
    var m, direct := AffectedFrom(k, rank, top, s, x);
    AffectedHas(k, rank, top, s, m);
    if direct {
      IgnoringHas(k, rank, top, m, t);
    } else {
      if m != s {
        SiblingRank(k, rank, top, s, m);
      }
      var t1 := IgnoringFrom(k, rank, top, m, x);
      DepOfHigher(k, rank, top, m, t1);
      AffectedClosedDep(k, rank, top, t1, x, t);
      IgnoringHas(k, rank, top, m, t1);
    }
  }

  lemma {:induction false} AffectedClosedSibling(k: KConf, rank: Name -> nat, top: nat, s: Name, x: Name, y: Name)
    requires WellFormed(k) && Acyclic(k, rank, top) && x in Affected(k, rank, top, s) && y in Siblings(k, x)
    ensures y in Affected(k, rank, top, s)
    decreases Height(rank, top, s)
  {
    var m, direct := AffectedFrom(k, rank, top, s, x);
    if direct {
      SiblingsShared(k, s, m, y);
      AffectedHas(k, rank, top, s, y);
    } else {
      AffectedHas(k, rank, top, s, m);
      if m != s {
        SiblingRank(k, rank, top, s, m);
      }
      var t1 := IgnoringFrom(k, rank, top, m, x);
      DepOfHigher(k, rank, top, m, t1);
      AffectedClosedSibling(k, rank, top, t1, x, y);
      IgnoringHas(k, rank, top, m, t1);
    }
  }

  lemma SiblingsShared(k: KConf, s: Name, m: Name, y: Name)
    requires WellFormed(k) && (m == s || m in Siblings(k, s)) && y in Siblings(k, m)
    ensures y == s || y in Siblings(k, s)
  {
    if m != s {
      var c := SymOf(k, s).choice.value;
      assert s in k.choices[c].members && m in k.choices[c].members;
    }
  }

  /** What set_user_value invalidates is closed: nothing outside it can read anything inside it. */
  lemma AffectedClosed(k: KConf, rank: Name -> nat, top: nat, s: Name)
    requires WellFormed(k) && Acyclic(k, rank, top)
    ensures ClosedUnder(k, Affected(k, rank, top, s))
  {
    var a := Affected(k, rank, top, s);
    forall t, x | t in k.syms && x in a && x in DirectUses(k, t) ensures t in a {
      AffectedClosedDep(k, rank, top, s, x, t);
    }
    forall c, m, m' | c in k.choices && m in k.choices[c].members && m' in k.choices[c].members && m in a
      ensures m' in a {
      if m != m' {
        assert m' in Siblings(k, m);
        AffectedClosedSibling(k, rank, top, s, m, m');
      }
    }
  }
}
