/** What menu_finalize does to the tree: which entries get another parent, why, and in which shape they end up. */
module MenuMoves {
  import opened Wrappers
  import Ex = Expr
  import Su = Submenu
  import opened Forest
  import opened MenuConditions

  datatype How = Joined | Lifted(out: Id)

  /** A write to the parent field of `entry`. */
  datatype Move = Move(entry: Id, to: Id, how: How)

  function Replay(parent: map<Id, Link>, ms: seq<Move>): map<Id, Link> {
    if ms == [] then parent
    else
      var m := ms[|ms| - 1];
      Replay(parent, ms[..|ms| - 1])[m.entry := Some(m.to)]
  }

  /** An entry may join a symbol beside it if it passes the submenu test, and may be lifted out of an entry without
      prompt to the parent of that entry. */
  ghost predicate MoveOk(info: Info, c: Conds, parent: map<Id, Link>, m: Move) {
    match m.how
    case Joined =>
      && m.to in info.sym && At(parent, m.to) == At(parent, m.entry)
      && Su.JoinsSubmenu(info.sym[m.to], PromptOf(info, c, m.to), CondOf(info, c, m.entry))
    case Lifted(out) => out !in info.prompt && At(parent, m.entry) == Some(out) && At(parent, out) == Some(m.to)
  }

  ghost predicate Justified(info: Info, c: Conds, parent: map<Id, Link>, ms: seq<Move>) {
    ms != [] ==>
      var init, m := ms[..|ms| - 1], ms[|ms| - 1];
      Justified(info, c, parent, init) && MoveOk(info, c, Replay(parent, init), m)
  }

  ghost predicate Mentions(ms: seq<Move>, ids: set<Id>) {
    forall m :: m in ms ==> m.entry in ids && m.to in ids
  }

  lemma {:induction false} MovesConcat(info: Info, c: Conds, parent: map<Id, Link>, ms: seq<Move>, ns: seq<Move>)
    ensures Replay(parent, ms + ns) == Replay(Replay(parent, ms), ns)
    ensures Justified(info, c, parent, ms + ns)
      <==> Justified(info, c, parent, ms) && Justified(info, c, Replay(parent, ms), ns)
    decreases |ns|
  {
    if ns == [] {
      assert ms + ns == ms;
    } else {
      hide MoveOk;
      var init := ns[..|ns| - 1];
      assert (ms + ns)[..|ms + ns| - 1] == ms + init;
      MovesConcat(info, c, parent, ms, init);
    }
  }

  lemma {:induction false} JustifiedFrame(
    info: Info, c: Conds, d: Conds, parent: map<Id, Link>, ms: seq<Move>, ids: set<Id>)
    requires Justified(info, c, parent, ms) && Mentions(ms, ids) && AgreeOn(c, d, ids)
    ensures Justified(info, d, parent, ms)
    decreases |ms|
  {
    if ms != [] {
      var m := ms[|ms| - 1];
      assert m in ms && SameAt(c, d, m.entry) && SameAt(c, d, m.to);
      JustifiedFrame(info, c, d, parent, ms[..|ms| - 1], ids);
    }
  }

  function LastMove(ms: seq<Move>, e: Id): Option<Move> {
    if ms == [] then None
    else if ms[|ms| - 1].entry == e then Some(ms[|ms| - 1])
    else LastMove(ms[..|ms| - 1], e)
  }

  /** The parent an entry ends up with is the one of its last move, and the one it had if there is none. */
  lemma {:induction false} LastMoveParent(parent: map<Id, Link>, ms: seq<Move>, e: Id)
    ensures var m := LastMove(ms, e);
      At(Replay(parent, ms), e) == if m.None? then At(parent, e) else Some(m.value.to)
    decreases |ms|
  {
    if ms != [] {
      LastMoveParent(parent, ms[..|ms| - 1], e);
    }
  }

  lemma {:induction false} LastMoveOk(info: Info, c: Conds, parent: map<Id, Link>, ms: seq<Move>, e: Id)
    returns (n: nat)
    requires Justified(info, c, parent, ms) && LastMove(ms, e).Some?
    ensures n < |ms| && MoveOk(info, c, Replay(parent, ms[..n]), LastMove(ms, e).value)
    decreases |ms|
  {
    n := |ms| - 1;
    if ms[n].entry != e {
      n := LastMoveOk(info, c, parent, ms[..n], e);
      assert ms[..|ms| - 1][..n] == ms[..n];
    }
  }

  lemma {:induction false} LastMoveMentioned(ms: seq<Move>, e: Id)
    requires LastMove(ms, e).Some?
    ensures LastMove(ms, e).value in ms && LastMove(ms, e).value.entry == e
    decreases |ms|
  {
    if ms[|ms| - 1].entry != e {
      LastMoveMentioned(ms[..|ms| - 1], e);
    }
  }

  // ----- the shape -----

  /** No entry without prompt has entries below it, here or further down. */
  ghost predicate Flat(info: Info, f: seq<Tree>) {
    f != [] ==> (f[0].id !in info.prompt ==> f[0].kids == []) && Flat(info, f[0].kids) && Flat(info, f[1..])
  }

  // ... further down.
  ghost predicate FlatBelow(info: Info, f: seq<Tree>) {
    f != [] ==> Flat(info, f[0].kids) && FlatBelow(info, f[1..])
  }

  lemma {:induction false} FlatConcat(info: Info, f: seq<Tree>, g: seq<Tree>)
    ensures Flat(info, f + g) <==> Flat(info, f) && Flat(info, g)
    ensures FlatBelow(info, f + g) <==> FlatBelow(info, f) && FlatBelow(info, g)
    decreases |f|
  {
    if f == [] {
      assert f + g == g;
    } else {
      assert (f + g)[1..] == f[1..] + g;
      FlatConcat(info, f[1..], g);
    }
  }

  lemma {:induction false} FlatIsFlatBelow(info: Info, f: seq<Tree>)
    requires Flat(info, f)
    ensures FlatBelow(info, f)
    decreases |f|
  {
    if f != [] {
      FlatIsFlatBelow(info, f[1..]);
    }
  }

  // No entry leaves a parent that has a prompt.
  ghost predicate NoneLeaves(info: Info, p: map<Id, Link>, q: map<Id, Link>) {
    forall x :: At(p, x).Some? && At(p, x).value in info.prompt ==> At(q, x) == At(p, x)
  }

  // ----- progress -----

  datatype State = State(h: Links, c: Conds)

  /** From `s` to `t` the trees `done` have been handed their conditions, and parents changed as recorded only. */
  ghost predicate Progress(info: Info, s: State, t: State, done: seq<Tree>, ids: set<Id>, ms: seq<Move>) {
    && HandedAll(info, s.c, t.c, done) && AgreeBut(s.c, t.c, Deep(done))
    && t.h.parent == Replay(s.h.parent, ms) && Justified(info, t.c, s.h.parent, ms) && Mentions(ms, ids)
  }

  lemma ProgressOn(
    info: Info, s: State, t: State, u: State, done: seq<Tree>, more: seq<Tree>, ids: set<Id>, jds: set<Id>,
    ms: seq<Move>, ns: seq<Move>)
    requires Progress(info, s, t, done, ids, ms) && Progress(info, t, u, more, jds, ns)
    requires Unique(done + more) && ids !! Deep(more)
    ensures Progress(info, s, u, done + more, ids + jds, ms + ns)
  {
    hide HandedAll, Deep, Justified, Replay, SameAt;
    ConcatFacts(done, more);
    DeepFacts(done);
    DeepFacts(more);
    DeepConcat(done, more);
    HandedAllConcat(info, s.c, u.c, done, more);
    HandedAllFrame(info, s.c, t.c, s.c, u.c, done) by {
      AgreeSelf(s.c, Ids(done));
      AgreeOutside(t.c, u.c, Deep(more), Ids(done));
    }
    HandedAllFrame(info, t.c, u.c, s.c, u.c, more) by {
      AgreeSelf(u.c, Ids(more));
      AgreeOutside(s.c, t.c, Deep(done), Ids(more));
      AgreeSymm(s.c, t.c, Ids(more));
    }
    AgreeTwice(s.c, t.c, u.c, Deep(done), Deep(more));
    AgreeOutside(t.c, u.c, Deep(more), ids);
    JustifiedFrame(info, t.c, u.c, s.h.parent, ms, ids);
    MovesConcat(info, u.c, s.h.parent, ms, ns);
  }

  lemma AgreeSelf(c: Conds, ids: set<Id>)
    ensures AgreeOn(c, c, ids)
  {
  }

  lemma AgreeOutside(c: Conds, d: Conds, changed: set<Id>, ids: set<Id>)
    requires AgreeBut(c, d, changed) && ids !! changed
    ensures AgreeOn(c, d, ids)
  {
  }

  lemma AgreeSymm(c: Conds, d: Conds, ids: set<Id>)
    requires AgreeOn(c, d, ids)
    ensures AgreeOn(d, c, ids)
  {
    forall e | e in ids ensures SameAt(d, c, e) {
      assert SameAt(c, d, e);
    }
  }

  lemma AgreeTwice(c: Conds, d: Conds, e: Conds, a: set<Id>, b: set<Id>)
    requires AgreeBut(c, d, a) && AgreeBut(d, e, b)
    ensures AgreeBut(c, e, a + b)
  {
    forall x | x !in a + b ensures SameAt(c, e, x) {
      assert SameAt(c, d, x) && SameAt(d, e, x);
    }
  }

  // A step that changes links only.
  lemma ProgressLinks(info: Info, s: State, t: State, ids: set<Id>, ms: seq<Move>)
    requires t.c == s.c && t.h.parent == Replay(s.h.parent, ms)
    requires Justified(info, s.c, s.h.parent, ms) && Mentions(ms, ids)
    ensures Progress(info, s, t, [], ids, ms)
  {
  }

  lemma ProgressMentions(info: Info, s: State, t: State, done: seq<Tree>, ids: set<Id>, jds: set<Id>, ms: seq<Move>)
    requires Progress(info, s, t, done, ids, ms) && ids <= jds
    ensures Progress(info, s, t, done, jds, ms)
  {
  }

  // ----- menu_finalize -----

  // The trees of `f` that the call has dealt with: the first and those it has absorbed.
  function Done(f: seq<Tree>, g: seq<Tree>): seq<Tree>
    requires g != [] && |g| <= |f|
  {
    f[..|f| - |g| + 1]
  }

  // The next sibling fails the submenu test of symbol `p`, if there is one.
  ghost predicate Stops(info: Info, c: Conds, p: Id, rest: seq<Tree>)
    requires p in info.sym
  {
    rest == [] || !Su.JoinsSubmenu(info.sym[p], PromptOf(info, c, p), CondOf(info, c, rest[0].id))
  }

  /** The siblings from `p` on were the forest `f` and are the forest `g`. The same entries follow in the same order;
      only a symbol without entries below it absorbs following siblings, as many as pass the test; every entry dealt
      with has the condition handed down to it; parents changed as recorded only; and (once `flat`) nothing is left
      below an entry without prompt. */
  ghost predicate Finalized(
    info: Info, s: State, t: State, par: Link, f: seq<Tree>, g: seq<Tree>, ms: seq<Move>, flat: bool)
    requires f != []
  {
    && g != [] && |g| <= |f| && g[0].id == f[0].id && g[1..] == f[|f| - |g| + 1..] && SameEntries(f, g)
    && Encodes(t.h, Some(f[0].id), par, g, None) && SameOutside(s.h, t.h, Ids(f))
    && Progress(info, s, t, Done(f, g), Ids(Done(f, g)), ms)
    && (if flat then Flat(info, g[0].kids) else FlatBelow(info, g[0].kids))
    && if f[0].kids == [] && f[0].id in info.sym then Stops(info, t.c, f[0].id, g[1..]) else |g| == |f|
  }
}
