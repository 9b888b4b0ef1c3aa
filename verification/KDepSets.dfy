/** kconfiglib's _build_dep: filling the sets of direct dependents that invalidation follows. */
module KDepSets {
  import opened Wrappers
  import opened KExpr
  import opened KSemantics
  import opened KDependents

  function DepAt(dep: map<Name, set<Name>>, x: Name): set<Name> {
    if x in dep then dep[x] else {}
  }

  // `e` is `d` with `s` added to the sets of the symbols in `uses`.
  ghost predicate Added(d: map<Name, set<Name>>, e: map<Name, set<Name>>, uses: set<Name>, s: Name) {
    forall x {:trigger DepAt(e, x)} :: DepAt(e, x) == DepAt(d, x) + (if x in uses then {s} else {})
  }

  lemma AddedMore(
    d: map<Name, set<Name>>, e: map<Name, set<Name>>, f: map<Name, set<Name>>, u: set<Name>, v: set<Name>, s: Name)
    requires Added(d, e, u, s) && Added(e, f, v, s)
    ensures Added(d, f, u + v, s)
  {
    forall x ensures DepAt(f, x) == DepAt(d, x) + (if x in u + v then {s} else {}) {
      assert DepAt(e, x) == DepAt(d, x) + (if x in u then {s} else {});
    }
  }

  class DepSets {
    var dep: map<Name, set<Name>>    // Symbol.dep

    constructor ()
      ensures dep == map[]
    {
      dep := map[];
    }

    // add_expr_deps, on the symbols of an expression
    method AddDeps(ss: set<Name>, s: Name)
      modifies this
      ensures Added(old(dep), dep, ss, s)
    {
      var todo := ss;
      ghost var done := {};
      while todo != {}
        invariant done + todo == ss && Added(old(dep), dep, done, s)
        decreases todo
      {
        var x :| x in todo;
        ghost var before := dep;
        dep := dep[x := DepAt(dep, x) + {s}];
        AddedMore(old(dep), before, dep, done, {x}, s);
        todo, done := todo - {x}, done + {x};
      }
      assert done == ss;
    }

    method AddPrompts(prompts: seq<Option<KExpr>>, s: Name)
      modifies this
      ensures Added(old(dep), dep, PromptSyms(prompts), s)
    {
      var i := 0;
      while i < |prompts|
        invariant i <= |prompts| && Added(old(dep), dep, PromptSyms(prompts[..i]), s)
      {
        ghost var before := dep;
        AddDeps(OptSyms(prompts[i]), s);
        AddedMore(old(dep), before, dep, PromptSyms(prompts[..i]), OptSyms(prompts[i]), s);
        assert prompts[..i + 1][..i] == prompts[..i];
        i := i + 1;
      }
      assert prompts[..i] == prompts;
    }

    method AddDefaults(ds: seq<KDefault>, s: Name)
      modifies this
      ensures Added(old(dep), dep, DefaultSyms(ds), s)
    {
      var i := 0;
      ghost var done := {};
      while i < |ds|
        invariant i <= |ds| && Added(old(dep), dep, done, s) && done + DefaultSyms(ds[i..]) == DefaultSyms(ds)
      {
        ghost var d0 := dep;
        AddDeps(ExprSyms(ds[i].value), s);
        ghost var d1 := dep;
        AddDeps(OptSyms(ds[i].cond), s);
        AddedMore(old(dep), d0, d1, done, ExprSyms(ds[i].value), s);
        AddedMore(old(dep), d1, dep, done + ExprSyms(ds[i].value), OptSyms(ds[i].cond), s);
        assert ds[i..][1..] == ds[i + 1..];
        done := done + ExprSyms(ds[i].value) + OptSyms(ds[i].cond);
        i := i + 1;
      }
    }

    method AddRanges(rs: seq<KRange>, s: Name)
      modifies this
      ensures Added(old(dep), dep, RangeSyms(rs), s)
    {
      var i := 0;
      ghost var done := {};
      while i < |rs|
        invariant i <= |rs| && Added(old(dep), dep, done, s) && done + RangeSyms(rs[i..]) == RangeSyms(rs)
      {
        ghost var uses := AtomSyms(rs[i].low) + AtomSyms(rs[i].high) + OptSyms(rs[i].cond);
        ghost var d := dep;
        AddRange(rs[i], s);
        AddedMore(old(dep), d, dep, done, uses, s);
        assert rs[i..][1..] == rs[i + 1..];
        done := done + uses;
        i := i + 1;
      }
    }

    method AddRange(r: KRange, s: Name)
      modifies this
      ensures Added(old(dep), dep, AtomSyms(r.low) + AtomSyms(r.high) + OptSyms(r.cond), s)
    {
      ghost var d0 := dep;
      AddDeps(AtomSyms(r.low), s);
      ghost var d1 := dep;
      AddDeps(AtomSyms(r.high), s);
      ghost var d2 := dep;
      AddDeps(OptSyms(r.cond), s);
      AddedMore(d0, d1, d2, AtomSyms(r.low), AtomSyms(r.high), s);
      AddedMore(d0, d2, dep, AtomSyms(r.low) + AtomSyms(r.high), OptSyms(r.cond), s);
    }

    method AddChoiceDefaults(ds: seq<KChoiceDefault>, s: Name)
      modifies this
      ensures Added(old(dep), dep, ChoiceDefaultSyms(ds), s)
    {
      var i := 0;
      ghost var done := {};
      while i < |ds|
        invariant i <= |ds| && Added(old(dep), dep, done, s)
          && done + ChoiceDefaultSyms(ds[i..]) == ChoiceDefaultSyms(ds)
      {
        ghost var d := dep;
        AddDeps(OptSyms(ds[i].cond), s);
        AddedMore(old(dep), d, dep, done, OptSyms(ds[i].cond), s);
        assert ds[i..][1..] == ds[i + 1..];
        done := done + OptSyms(ds[i].cond);
        i := i + 1;
      }
    }

    method AddOwn(d: KSym, s: Name)
      modifies this
      ensures Added(old(dep), dep, OwnSyms(d), s)
    {
      ghost var d0 := dep;
      AddPrompts(d.prompts, s);
      ghost var d1 := dep;
      AddDefaults(d.defaults, s);
      ghost var d2 := dep;
      AddDeps(ExprSyms(d.revDep), s);
      ghost var d3 := dep;
      AddRanges(d.ranges, s);
      AddedMore(d0, d1, d2, PromptSyms(d.prompts), DefaultSyms(d.defaults), s);
      AddedMore(d0, d2, d3, PromptSyms(d.prompts) + DefaultSyms(d.defaults), ExprSyms(d.revDep), s);
      AddedMore(d0, d3, dep, PromptSyms(d.prompts) + DefaultSyms(d.defaults)
        + ExprSyms(d.revDep), RangeSyms(d.ranges), s);
    }

    method AddSymbol(k: KConf, s: Name)
      modifies this
      ensures Added(old(dep), dep, DirectUses(k, s), s)
    {
      var d := SymOf(k, s);
      ghost var d0 := dep;
      AddOwn(d, s);
      if d.choice.Some? {
        var c := ChoiceOf(k, d.choice.value);
        ghost var d1 := dep;
        AddPrompts(c.prompts, s);
        ghost var d2 := dep;
        AddChoiceDefaults(c.defaults, s);
        AddedMore(d1, d2, dep, PromptSyms(c.prompts), ChoiceDefaultSyms(c.defaults), s);
        AddedMore(d0, d1, dep, OwnSyms(d), ChoiceSyms(c), s);
      }
    }

    /** _build_dep: the sets come out as the direct dependents that coherence of the caches rests on. */
    method BuildDep(k: KConf)
      requires dep == map[]
      modifies this
      ensures forall x :: DepAt(dep, x) == DepOf(k, x)
    {
      var todo := k.syms.Keys;
      ghost var done := {};
      while todo != {}
        invariant done + todo == k.syms.Keys && Built(k, dep, done)
        decreases todo
      {
        var s :| s in todo;
        ghost var before := dep;
        AddSymbol(k, s);
        BuiltMore(k, before, dep, done, s);
        todo, done := todo - {s}, done + {s};
      }
      assert done == k.syms.Keys;
    }
  }

  // The dependents among the symbols in `done`.
  ghost predicate Built(k: KConf, dep: map<Name, set<Name>>, done: set<Name>) {
    forall x {:trigger DepAt(dep, x)} :: DepAt(dep, x) == set t | t in done && x in DirectUses(k, t)
  }

  lemma BuiltMore(k: KConf, d: map<Name, set<Name>>, e: map<Name, set<Name>>, done: set<Name>, s: Name)
    requires Built(k, d, done) && Added(d, e, DirectUses(k, s), s)
    ensures Built(k, e, done + {s})
  {
    forall x ensures DepAt(e, x) == set t | t in done + {s} && x in DirectUses(k, t) {
      assert DepAt(d, x) == set t | t in done && x in DirectUses(k, t);
    }
  }
}
