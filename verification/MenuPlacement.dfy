/** Where menu_finalize puts the entry after a symbol: below it, whenever it passes the symbol's test. */
module MenuPlacement {
  import opened Wrappers
  import Su = Submenu
  import opened Forest
  import opened MenuConditions
  import opened MenuMoves
  import opened MenuSteps

  // `a` is a symbol with a prompt and nothing below it, and entry `b` passes its test.
  ghost predicate Passes(info: Info, c: Conds, a: Tree, b: Id) {
    && a.kids == [] && a.id in info.sym && a.id in info.prompt
    && Su.JoinsSubmenu(info.sym[a.id], PromptOf(info, c, a.id), CondOf(info, c, b))
  }

  /** In the menu as written, here and further down: whenever the entry after a symbol passes its test, its parent is
      the symbol. */
  ghost predicate Placed(info: Info, c: Conds, parent: map<Id, Link>, f: seq<Tree>) {
    f != [] ==>
      && (|f| > 1 && Passes(info, c, f[0], f[1].id) ==> At(parent, f[1].id) == Some(f[0].id))
      && Placed(info, c, parent, f[0].kids) && Placed(info, c, parent, f[1..])
  }

  // No such pair is cut at `i`.
  ghost predicate Cut(info: Info, c: Conds, f: seq<Tree>, i: int) {
    0 < i < |f| ==> !Passes(info, c, f[i - 1], f[i].id)
  }

  /** The first `i` trees of `f` are dealt with. */
  ghost predicate Settled(info: Info, t: State, f: seq<Tree>, i: int) {
    0 <= i <= |f| && Placed(info, t.c, t.h.parent, f[..i]) && Cut(info, t.c, f, i)
  }

  // Parents with a prompt are kept.
  ghost predicate Keeps(info: Info, p: map<Id, Link>, q: map<Id, Link>, ids: set<Id>) {
    forall x :: x in ids && At(p, x).Some? && At(p, x).value in info.prompt ==> At(q, x) == At(p, x)
  }

  // The parent of the first entry does not matter.
  lemma {:induction false} PlacedFrame(
    info: Info, c: Conds, d: Conds, p: map<Id, Link>, q: map<Id, Link>, f: seq<Tree>, e: Id)
    requires Placed(info, c, p, f) && AgreeOn(c, d, Ids(f)) && Keeps(info, p, q, Ids(f) - {e}) && Unique(f)
    requires e in Ids(f) ==> f[0].id == e
    ensures Placed(info, d, q, f)
  {
    hide Su.JoinsSubmenu;
    if f != [] {
      PlacedFrame(info, c, d, p, q, f[0].kids, e);
      PlacedFrame(info, c, d, p, q, f[1..], e);
      assert SameAt(c, d, f[0].id);
      assert |f| > 1 ==> f[1].id in Ids(f[1..]) && SameAt(c, d, f[1].id);
    }
  }

  lemma {:induction false} PlacedConcat(info: Info, c: Conds, p: map<Id, Link>, a: seq<Tree>, b: seq<Tree>)
    requires Placed(info, c, p, a) && Placed(info, c, p, b)
    requires a != [] && b != [] && Passes(info, c, a[|a| - 1], b[0].id) ==> At(p, b[0].id) == Some(a[|a| - 1].id)
    ensures Placed(info, c, p, a + b)
    decreases |a|
  {
    hide Passes;
    if a == [] {
      assert a + b == b;
    } else {
      assert (a + b)[1..] == a[1..] + b;
      PlacedConcat(info, c, p, a[1..], b);
    }
  }

  // The next `n` trees join those that are dealt with.
  lemma Extend(
    info: Info, c: Conds, d: Conds, p: map<Id, Link>, q: map<Id, Link>, f: seq<Tree>, i: nat, n: nat)
    requires 0 < n && i + n <= |f| && Unique(f[..i]) && Placed(info, c, p, f[..i])
    requires AgreeOn(c, d, Ids(f[..i])) && SameAt(c, d, f[i].id) && Keeps(info, p, q, Ids(f[..i]))
    requires Placed(info, d, q, f[i..][..n]) && Cut(info, d, f[i..], n)
    requires Cut(info, c, f, i) || At(q, f[i].id) == Some(f[i - 1].id)
    ensures Placed(info, d, q, f[..i + n]) && Cut(info, d, f, i + n)
  {
    hide Placed, Su.JoinsSubmenu, Ids, Unique;
    var a, b := f[..i], f[i..][..n];
    PlacedFrameAll(info, c, d, p, q, a);
    assert a + b == f[..i + n];
    if i > 0 {
      LastInIds(a);
      assert a[|a| - 1] == f[i - 1] && SameAt(c, d, f[i - 1].id);
      assert b[0] == f[i];
    }
    PlacedConcat(info, d, q, a, b);
    assert f[i..][n - 1] == f[i + n - 1] && (i + n < |f| ==> f[i..][n] == f[i + n]);
  }

  lemma PlacedFrameAll(info: Info, c: Conds, d: Conds, p: map<Id, Link>, q: map<Id, Link>, f: seq<Tree>)
    requires Placed(info, c, p, f) && AgreeOn(c, d, Ids(f)) && Keeps(info, p, q, Ids(f)) && Unique(f)
    ensures Placed(info, d, q, f)
  {
    if f != [] {
      PlacedFrame(info, c, d, p, q, f, f[0].id);
    }
  }

  // Finalising the trees from the `i`th on leaves the earlier ones alone.
  lemma EarlierKept(
    info: Info, t: State, u: State, par: Link, f: seq<Tree>, i: nat, c: seq<Tree>, ms: seq<Move>)
    requires i < |f| && Unique(f) && Finalized(info, t, u, par, f[i..], c, ms, true)
    ensures Unique(f[..i]) && Unique(f[i..]) && f[i].id !in Ids(f[..i])
    ensures AgreeOn(t.c, u.c, Ids(f[..i])) && SameAt(t.c, u.c, f[i].id)
    ensures Keeps(info, t.h.parent, u.h.parent, Ids(f[..i]))
  {
    hide Ids, Unique, SameAt, Placed, Preorder, Size, Encodes, Deep, Tops, Stops, Flat;
    var b := f[i..];
    assert f == f[..i] + b;
    ConcatFacts(f[..i], b);
    DoneIds(b, c);
    var done := Done(b, c);
    DeepFacts(done);
    FirstTop(done);
  }

  lemma FirstTop(f: seq<Tree>)
    requires f != []
    ensures f[0].id in Tops(f) && f[0].id in Ids(f)
  {
  }

  lemma Started(info: Info, t: State, f: seq<Tree>)
    ensures Settled(info, t, f, 0)
  {
  }

  /** One more entry of a list is finalised. */
  lemma ListSettled(
    info: Info, t: State, u: State, par: Link, f: seq<Tree>, i: nat, c: seq<Tree>, ms: seq<Move>)
    requires i < |f| && Unique(f) && Settled(info, t, f, i) && Finalized(info, t, u, par, f[i..], c, ms, true)
    requires Settled(info, u, f[i..], |f[i..]| - |c| + 1)
    ensures Settled(info, u, f, |f| - |c| + 1)
  {
    hide Placed, Passes, Ids, Unique, Keeps, AgreeOn, SameAt;
    EarlierKept(info, t, u, par, f, i, c, ms);
    assert c != [] && |c| <= |f[i..]|;
    hide Finalized, Cut;
    Extend(info, t.c, u.c, t.h.parent, u.h.parent, f, i, |f[i..]| - |c| + 1);
  }

  // Of the siblings `f` of a symbol at its head the first `i` are dealt with, the symbol and those it has absorbed.
  ghost predicate Gathered(info: Info, t: State, f: seq<Tree>, i: int) {
    0 < i <= |f| && Placed(info, t.c, t.h.parent, f[..i]) && (i > 1 ==> Cut(info, t.c, f, i))
  }

  lemma GatherStart(info: Info, t: State, f: seq<Tree>)
    requires f != [] && f[0].kids == []
    ensures Gathered(info, t, f, 1)
  {
    assert f[..1][1..] == [];
  }

  /** One more sibling is finalised and gets the symbol as its parent. */
  lemma GatherStep(
    info: Info, t: State, u: State, par: Link, f: seq<Tree>, i: nat, c: seq<Tree>, ms: seq<Move>)
    requires i < |f| && Unique(f) && Gathered(info, t, f, i) && Finalized(info, t, u, par, f[i..], c, ms, true)
    requires Settled(info, u, f[i..], |f[i..]| - |c| + 1)
    ensures Gathered(info, State(SetParent(u.h, f[i].id, Some(f[0].id)), u.c), f, |f| - |c| + 1)
  {
    hide Placed, Passes, Ids, Unique, AgreeOn, SameAt;
    EarlierKept(info, t, u, par, f, i, c, ms);
    assert c != [] && |c| <= |f[i..]|;
    hide Finalized;
    var e, n := f[i].id, |f[i..]| - |c| + 1;
    var q := u.h.parent[e := Some(f[0].id)];
    HeadAdopted(info, u.c, u.h.parent, q, f[i..], n);
    Extend(info, t.c, u.c, t.h.parent, q, f, i, n);
  }

  lemma HeadAdopted(info: Info, c: Conds, p: map<Id, Link>, q: map<Id, Link>, b: seq<Tree>, n: nat)
    requires 0 < n <= |b| && Unique(b) && Placed(info, c, p, b[..n])
    requires forall x :: x != b[0].id ==> At(q, x) == At(p, x)
    ensures Placed(info, c, q, b[..n])
  {
    hide Placed, SameAt;
    assert b == b[..n] + b[n..];
    ConcatFacts(b[..n], b[n..]);
    AgreeSelf(c, Ids(b[..n]));
    PlacedFrame(info, c, c, p, q, b[..n], b[0].id);
  }

  lemma GatherEnd(info: Info, t: State, u: State, f: seq<Tree>, i: nat)
    requires Gathered(info, t, f, i) && u.c == t.c && u.h.parent == t.h.parent && f[0].id in info.sym
    requires Stops(info, t.c, f[0].id, f[i..])
    ensures Settled(info, u, f, i)
  {
  }

  lemma ChildrenSettled(info: Info, t: State, f: seq<Tree>)
    requires f != [] && Placed(info, t.c, t.h.parent, f[0].kids) && (f[0].kids != [] || f[0].id !in info.sym)
    ensures Settled(info, t, f, 1)
  {
    assert f[..1][1..] == [];
  }

  /** Lifting entries out of entries without prompt undoes none of this. */
  lemma FlattenSettled(info: Info, t: State, u: State, f: seq<Tree>, i: int)
    requires Settled(info, t, f, i) && Unique(f) && u.c == t.c && NoneLeaves(info, t.h.parent, u.h.parent)
    ensures Settled(info, u, f, i)
  {
    hide Placed, Passes, SameAt;
    assert f == f[..i] + f[i..];
    ConcatFacts(f[..i], f[i..]);
    AgreeSelf(t.c, Ids(f[..i]));
    PlacedFrameAll(info, t.c, u.c, t.h.parent, u.h.parent, f[..i]);
  }

  lemma AllSettled(info: Info, t: State, f: seq<Tree>)
    requires Settled(info, t, f, |f|)
    ensures Placed(info, t.c, t.h.parent, f)
  {
    assert f[..|f|] == f;
  }

  // ----- the finished menu -----

  /** Entry `b` stands directly after `a` in the menu as written. */
  ghost predicate Follows(f: seq<Tree>, a: Tree, b: Tree) {
    f != [] && ((|f| > 1 && f[0] == a && f[1] == b) || Follows(f[0].kids, a, b) || Follows(f[1..], a, b))
  }

  lemma {:induction false} PlacedPair(
    info: Info, c: Conds, parent: map<Id, Link>, f: seq<Tree>, a: Tree, b: Tree)
    requires Placed(info, c, parent, f) && Follows(f, a, b) && Passes(info, c, a, b.id)
    ensures At(parent, b.id) == Some(a.id)
  {
    hide Passes;
    if Follows(f[0].kids, a, b) {
      PlacedPair(info, c, parent, f[0].kids, a, b);
    } else if Follows(f[1..], a, b) {
      PlacedPair(info, c, parent, f[1..], a, b);
    }
  }

  /** A symbol that has a prompt and nothing below it, and the entry after it: if a conjunct of the entry's condition
      says that the symbol is set, the entry ends below the symbol. */
  ghost predicate Dependants(info: Info, c: Conds, parent: map<Id, Link>, f: seq<Tree>) {
    forall a, b ::
      && Follows(f, a, b) && a.kids == [] && a.id in info.sym && a.id in info.prompt
      && CondOf(info, c, b.id).Some? && Su.HasConjunct(CondOf(info, c, b.id).value, info.sym[a.id])
      ==> At(parent, b.id) == Some(a.id)
  }

  lemma DependantsPlaced(info: Info, c: Conds, parent: map<Id, Link>, f: seq<Tree>)
    requires Placed(info, c, parent, f)
    ensures Dependants(info, c, parent, f)
  {
    hide Placed, Follows, Su.JoinsSubmenu, Su.HasConjunct, CondOf, PromptOf;
    forall a, b |
      && Follows(f, a, b) && a.kids == [] && a.id in info.sym && a.id in info.prompt
      && CondOf(info, c, b.id).Some? && Su.HasConjunct(CondOf(info, c, b.id).value, info.sym[a.id])
      ensures At(parent, b.id) == Some(a.id)
    {
      Su.JoinsExact(info.sym[a.id], PromptOf(info, c, a.id), CondOf(info, c, b.id));
      PlacedPair(info, c, parent, f, a, b);
    }
  }
}
