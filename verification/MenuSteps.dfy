/** The steps of menu_finalize put together: from what each does to links, conditions and parents. */
module MenuSteps {
  import opened Wrappers
  import Ex = Expr
  import Su = Submenu
  import opened Forest
  import opened MenuConditions
  import opened MenuMoves

  // What a call has dealt with has the entries of the one tree it left.
  lemma DoneIds(f: seq<Tree>, g: seq<Tree>)
    requires f != [] && g != [] && |g| <= |f| && g[1..] == f[|f| - |g| + 1..] && SameEntries(f, g) && Unique(f)
    ensures Ids(Done(f, g)) == Ids([g[0]]) == {g[0].id} + Ids(g[0].kids) && Unique(Done(f, g))
    ensures f == Done(f, g) + g[1..] && Ids(Done(f, g)) !! Ids(g[1..]) && Ids(Done(f, g)) <= Ids(f)
  {
    hide Ids, Unique, Size, Preorder;
    var n := |f| - |g| + 1;
    assert f == f[..n] + f[n..] && g == [g[0]] + g[1..];
    ConcatFacts(f[..n], f[n..]);
    ConcatFacts([g[0]], g[1..]);
    OneTree(g[0]);
  }

  lemma OneTree(t: Tree)
    ensures Ids([t]) == {t.id} + Ids(t.kids)
  {
    assert [t][1..] == [];
  }

  // An entry that is no symbol and has nothing below it.
  lemma NothingToDo(info: Info, s: State, par: Link, f: seq<Tree>)
    requires f != [] && Unique(f) && Encodes(s.h, Some(f[0].id), par, f, None) && f[0].kids == []
    requires f[0].id !in info.sym
    ensures Finalized(info, s, s, par, f, f, [], false)
  {
    assert f[..1][1..] == [];
    assert f[|f| - |f| + 1..] == f[1..];
    AgreeSelf(s.c, {});
  }

  // ----- an entry with entries below it -----

  lemma ChildrenDone(
    info: Info, s: State, t: State, u: State, par: Link, f: seq<Tree>, kids: seq<Tree>, ms: seq<Move>)
    requires f != [] && Unique(f) && Encodes(s.h, Some(f[0].id), par, f, None) && f[0].kids != [] && t.h == s.h
    requires LevelDone(info, s.c, t.c, CondOf(info, s.c, f[0].id), f[0].kids) && AgreeBut(s.c, t.c, Tops(f[0].kids))
    requires Progress(info, t, u, f[0].kids, Ids(f[0].kids), ms) && SameOutside(t.h, u.h, Ids(f[0].kids))
    requires Encodes(u.h, At(u.h.list, f[0].id), Some(f[0].id), kids, None) && SameEntries(f[0].kids, kids)
    requires FlatBelow(info, kids)
    ensures Finalized(info, s, u, par, f, [Tree(f[0].id, kids)] + f[1..], ms, false)
  {
    var p, g := f[0].id, [Tree(f[0].id, kids)] + f[1..];
    assert g[1..] == f[1..] && f[|f| - |g| + 1..] == f[1..] && Done(f, g) == [f[0]];
    NewKids(s.h, u.h, par, f, g);
    ChildrenHanded(info, s.c, t.c, u.c, p, f[0].kids);
    ChildrenProgress(info, s, t, u, f[0], ms);
  }

  lemma ChildrenProgress(info: Info, s: State, t: State, u: State, tree: Tree, ms: seq<Move>)
    requires HandedDown(info, s.c, u.c, tree.id, tree.kids) && AgreeBut(s.c, u.c, Ids(tree.kids)) && t.h == s.h
    requires Progress(info, t, u, tree.kids, Ids(tree.kids), ms)
    ensures Progress(info, s, u, [tree], Ids([tree]), ms)
  {
    var one, none: seq<Tree> := [tree], [];
    assert one[1..] == none && Deep(none) == {} && Ids(none) == {} && HandedAll(info, s.c, u.c, none);
    assert Deep(one) == Ids(tree.kids) && Ids(one) == {tree.id} + Ids(tree.kids);
  }

  lemma ChildrenHanded(info: Info, c: Conds, d: Conds, e: Conds, p: Id, kids: seq<Tree>)
    requires p !in Ids(kids) && Unique(kids)
    requires LevelDone(info, c, d, CondOf(info, c, p), kids) && AgreeBut(c, d, Tops(kids))
    requires HandedAll(info, d, e, kids) && AgreeBut(d, e, Deep(kids))
    ensures HandedDown(info, c, e, p, kids) && AgreeBut(c, e, Ids(kids))
  {
    DeepFacts(kids);
    AgreeOutside(c, d, Tops(kids), Deep(kids));
    AgreeOutside(d, e, Deep(kids), Tops(kids));
    AgreeTwice(c, d, e, Tops(kids), Deep(kids));
    assert Tops(kids) + Deep(kids) == Ids(kids);
    assert SameAt(c, e, p);
    LevelThenBelow(info, c, d, e, p, CondOf(info, c, p), kids);
  }

  // Replacing the trees below the head of a forest.
  lemma NewKids(h: Links, k: Links, par: Link, f: seq<Tree>, g: seq<Tree>)
    requires f != [] && g != [] && f[0].id == g[0].id && f[1..] == g[1..] && Unique(f)
    requires Encodes(h, Some(f[0].id), par, f, None) && SameOutside(h, k, Ids(f[0].kids))
    requires SameEntries(f[0].kids, g[0].kids)
    requires Encodes(k, At(k.list, f[0].id), Some(f[0].id), g[0].kids, None)
    ensures Encodes(k, Some(f[0].id), par, g, None) && SameEntries(f, g) && SameOutside(h, k, Ids(f))
  {
    EncodesFrame(h, k, At(h.next, f[0].id), par, f[1..], None);
  }

  // The entries below `p` were `kids`; `a` are finalised, `b` still to come.
  ghost predicate Listed(
    info: Info, s: State, t: State, p: Id, kids: seq<Tree>, a: seq<Tree>, b: seq<Tree>, ms: seq<Move>)
  {
    && |b| <= |kids| && b == kids[|kids| - |b|..] && SameEntries(kids, a + b) && FlatBelow(info, a)
    && Encodes(t.h, At(t.h.list, p), Some(p), a + b, None) && SameOutside(s.h, t.h, Ids(kids))
    && Progress(info, s, t, kids[..|kids| - |b|], Ids(kids[..|kids| - |b|]), ms)
  }

  lemma ListStart(info: Info, s: State, p: Id, kids: seq<Tree>)
    requires Encodes(s.h, At(s.h.list, p), Some(p), kids, None) && Unique(kids)
    ensures Listed(info, s, s, p, kids, [], kids, [])
  {
    assert [] + kids == kids && kids[..0] == [];
    ProgressLinks(info, s, s, {}, []);
  }

  lemma SuffixOf(f: seq<Tree>, i: nat, n: nat)
    requires i + n <= |f|
    ensures f[i..][n..] == f[i + n..]
  {
  }

  // The links of a list below `p`, after its tail `b` has become `c` and the head of that is passed.
  lemma ListLinks(
    h: Links, k: Links, l: Links, p: Id, kids: seq<Tree>, a: seq<Tree>, b: seq<Tree>, c: seq<Tree>)
    requires p !in Ids(kids) && b != [] && c != [] && c[0].id == b[0].id && SameEntries(kids, a + b)
    requires Encodes(k, At(k.list, p), Some(p), a + b, None) && SameOutside(h, k, Ids(kids))
    requires Encodes(l, Some(b[0].id), Some(p), c, None) && SameOutside(k, l, Ids(b)) && SameEntries(b, c)
    ensures SameEntries(kids, a + [c[0]] + c[1..]) && SameOutside(h, l, Ids(kids)) && Ids(b) <= Ids(kids)
    ensures Encodes(l, At(l.list, p), Some(p), a + [c[0]] + c[1..], None)
    ensures At(l.next, c[0].id) == Head(c[1..], None) && Size(c[1..]) < Size(b)
  {
    hide Encodes, Unique, Size, Preorder;
    PassHead(k, l, At(k.list, p), Some(p), a, b, c);
    assert At(l.list, p) == At(k.list, p);
    AdoptSame(kids, a, b, c);
    OutsideMore(h, k, l, Ids(b), Ids(kids));
  }

  lemma OutsideMore(h: Links, k: Links, l: Links, inner: set<Id>, ids: set<Id>)
    requires SameOutside(h, k, ids) && SameOutside(k, l, inner) && inner <= ids
    ensures SameOutside(h, l, ids)
  {
  }

  lemma ListStep(
    info: Info, s: State, t: State, u: State, p: Id, kids: seq<Tree>, a: seq<Tree>, b: seq<Tree>, c: seq<Tree>,
    ms: seq<Move>, ns: seq<Move>)
    requires Listed(info, s, t, p, kids, a, b, ms) && b != [] && Unique(kids) && p !in Ids(kids)
    requires Finalized(info, t, u, Some(p), b, c, ns, true)
    ensures Listed(info, s, u, p, kids, a + [c[0]], c[1..], ms + ns)
    ensures At(u.h.next, c[0].id) == Head(c[1..], None) && Size(c[1..]) < Size(b)
  {
    hide Progress, Flat, FlatBelow, Encodes, Ids, Unique, Size, Preorder, SameEntries, SameOutside;
    var i, j := |kids| - |b|, |kids| - |c[1..]|;
    ListLinks(s.h, t.h, u.h, p, kids, a, b, c);
    SuffixOf(kids, i, |b| - |c| + 1);
    ListFlat(info, a, c);
    ListProgress(info, s, t, u, kids, i, j, b, c, ms, ns);
  }

  lemma ListFlat(info: Info, a: seq<Tree>, c: seq<Tree>)
    requires FlatBelow(info, a) && c != [] && Flat(info, c[0].kids)
    ensures FlatBelow(info, a + [c[0]])
  {
    assert FlatBelow(info, [c[0]]) by {
      assert [c[0]][1..] == [];
    }
    FlatConcat(info, a, [c[0]]);
  }

  lemma ListProgress(
    info: Info, s: State, t: State, u: State, kids: seq<Tree>, i: nat, j: nat, b: seq<Tree>, c: seq<Tree>,
    ms: seq<Move>, ns: seq<Move>)
    requires i <= j <= |kids| && b == kids[i..] && c != [] && |c| <= |b| && |c[1..]| == |kids| - j && Unique(kids)
    requires Progress(info, s, t, kids[..i], Ids(kids[..i]), ms)
    requires Progress(info, t, u, Done(b, c), Ids(Done(b, c)), ns)
    ensures Progress(info, s, u, kids[..j], Ids(kids[..j]), ms + ns)
  {
    hide Progress, Ids, Unique, Deep, Tops;
    var front, more := kids[..i], Done(b, c);
    assert more == kids[i..j];
    Prefixes(kids, i, j);
    DeepFacts(more);
    ProgressOn(info, s, t, u, front, more, Ids(front), Ids(more), ms, ns);
  }

  lemma Prefixes(f: seq<Tree>, i: nat, j: nat)
    requires i <= j <= |f| && Unique(f)
    ensures f[..j] == f[..i] + f[i..j] && Unique(f[..i] + f[i..j])
    ensures Ids(f[..i]) !! Ids(f[i..j]) && Ids(f[..j]) == Ids(f[..i]) + Ids(f[i..j])
  {
    hide Ids, Unique, Preorder, Size;
    assert f == f[..j] + f[j..] && f[..j] == f[..i] + f[i..j];
    ConcatFacts(f[..j], f[j..]);
    ConcatFacts(f[..i], f[i..j]);
  }

  lemma ListEnd(info: Info, s: State, t: State, p: Id, kids: seq<Tree>, a: seq<Tree>, ms: seq<Move>)
    requires Listed(info, s, t, p, kids, a, [], ms)
    ensures Encodes(t.h, At(t.h.list, p), Some(p), a, None) && SameEntries(kids, a) && FlatBelow(info, a)
    ensures SameOutside(s.h, t.h, Ids(kids)) && Progress(info, s, t, kids, Ids(kids), ms)
  {
    assert a + [] == a && kids[..|kids|] == kids;
  }

  // ----- automatic submenus -----

  // `m` has been taken under `p`, though still linked as siblings; `b` is what follows.
  ghost predicate Absorbing(
    info: Info, s: State, t: State, p: Id, par: Link, f: seq<Tree>, m: seq<Tree>, b: seq<Tree>, ms: seq<Move>)
    requires f != []
  {
    && |b| < |f| && b == f[|f| - |b|..] && SameEntries(f[1..], m + b) && p !in Ids(f[1..]) && FlatBelow(info, m)
    && Encodes(t.h, At(t.h.next, p), Some(p), m, Head(b, None)) && Encodes(t.h, Head(b, None), par, b, None)
    && SameOutside(s.h, t.h, Ids(f[1..])) && At(s.h.parent, p) == par
    && Progress(info, s, t, f[1..|f| - |b|], {p} + Ids(f[1..|f| - |b|]), ms)
  }

  lemma AbsorbStart(info: Info, s: State, p: Id, par: Link, f: seq<Tree>)
    requires f != [] && f[0].id == p && Unique(f) && Encodes(s.h, Some(p), par, f, None)
    ensures Absorbing(info, s, s, p, par, f, [], f[1..], []) && At(s.h.next, p) == Head(f[1..], None)
    ensures Size(f[1..]) < Size(f)
  {
    EncodesHead(s.h, At(s.h.next, p), par, f[1..], None);
    ProgressLinks(info, s, s, {p}, []);
    hide Progress, Preorder;
    assert [] + f[1..] == f[1..] && f[1..1] == [];
  }

  lemma AbsorbStep(
    info: Info, s: State, t: State, u: State, p: Id, par: Link, f: seq<Tree>, m: seq<Tree>, b: seq<Tree>,
    c: seq<Tree>, ms: seq<Move>, ns: seq<Move>)
    requires f != [] && Unique(f) && Absorbing(info, s, t, p, par, f, m, b, ms) && b != [] && p in info.sym
    requires Su.JoinsSubmenu(info.sym[p], PromptOf(info, t.c, p), CondOf(info, t.c, b[0].id))
    requires Finalized(info, t, u, par, b, c, ns, true)
    ensures var e := b[0].id; var u' := State(SetParent(u.h, e, Some(p)), u.c);
      && Absorbing(info, s, u', p, par, f, m + [c[0]], c[1..], ms + ns + [Move(e, p, Joined)])
      && At(u'.h.next, e) == Head(c[1..], None) && Size(c[1..]) < Size(b)
  {
    hide Progress, Flat, FlatBelow, Encodes, Su.JoinsSubmenu, Ids, Unique, Size, Preorder, SameEntries, SameOutside;
    hide Stops, PromptOf, CondOf, Deep, AgreeBut;
    var i, j := |f| - |b|, |f| - |c[1..]|;
    AdoptLink(s.h, t.h, u.h, p, par, f[1..], m, b, c);
    SuffixOf(f, i, |b| - |c| + 1);
    ListFlat(info, m, c);
    AbsorbProgress(info, s, t, u, p, f, i, j, b, c, ms, ns);
    ProgressAgrees(info, t, u, Done(b, c), Ids(Done(b, c)), ns);
    JoinProgress(info, s, t, u, p, par, f, i, j, b, c, ms + ns);
  }

  lemma AdoptLink(
    h: Links, k: Links, l: Links, p: Id, par: Link, rest: seq<Tree>, m: seq<Tree>, b: seq<Tree>, c: seq<Tree>)
    requires p !in Ids(rest) && b != [] && c != [] && c[0].id == b[0].id && SameEntries(rest, m + b)
    requires Encodes(k, At(k.next, p), Some(p), m, Head(b, None)) && SameOutside(h, k, Ids(rest))
    requires Encodes(l, Some(b[0].id), par, c, None) && SameOutside(k, l, Ids(b)) && SameEntries(b, c)
    ensures var l' := SetParent(l, b[0].id, Some(p));
      && SameEntries(rest, m + [c[0]] + c[1..]) && SameOutside(h, l', Ids(rest)) && Size(c[1..]) < Size(b)
      && Encodes(l', At(l'.next, p), Some(p), m + [c[0]], Head(c[1..], None))
      && Encodes(l', Head(c[1..], None), par, c[1..], None) && At(l'.next, b[0].id) == Head(c[1..], None)
  {
    hide Encodes, Size, Preorder;
    AdoptHead(k, l, p, par, m, b, c);
    AdoptSame(rest, m, b, c);
    OutsideTwice(h, k, SetParent(l, b[0].id, Some(p)), Ids(rest));
  }

  lemma AdoptSame(rest: seq<Tree>, m: seq<Tree>, b: seq<Tree>, c: seq<Tree>)
    requires SameEntries(rest, m + b) && c != [] && SameEntries(m + b, m + [c[0]] + c[1..])
    ensures SameEntries(rest, m + [c[0]] + c[1..])
  {
  }

  lemma OutsideTwice(h: Links, k: Links, l: Links, ids: set<Id>)
    requires SameOutside(h, k, ids) && SameOutside(k, l, ids)
    ensures SameOutside(h, l, ids)
  {
  }

  lemma Slices(f: seq<Tree>, i: nat, j: nat)
    requires 1 <= i <= j <= |f| && Unique(f)
    ensures f[1..j] == f[1..i] + f[i..j] && Unique(f[1..i] + f[i..j]) && Unique(f[i..j])
    ensures Ids(f[1..i]) !! Ids(f[i..j]) && Ids(f[1..j]) == Ids(f[1..i]) + Ids(f[i..j])
    ensures Ids(f[1..j]) <= Ids(f[1..]) && Ids(f[i..]) <= Ids(f[1..])
  {
    hide Ids, Unique, Preorder, Size;
    var a, b, c := f[1..i], f[i..j], f[j..];
    assert f == f[..1] + f[1..];
    CutTwice(f, i, j);
    ConcatFacts(f[..1], f[1..]);
    ConcatFacts(a, b + c);
    ConcatFacts(b, c);
    ConcatFacts(a, b);
  }

  lemma CutTwice(f: seq<Tree>, i: nat, j: nat)
    requires 1 <= i <= j <= |f|
    ensures f[1..] == f[1..i] + (f[i..j] + f[j..]) && f[1..j] == f[1..i] + f[i..j] && f[i..] == f[i..j] + f[j..]
  {
  }

  lemma AbsorbProgress(
    info: Info, s: State, t: State, u: State, p: Id, f: seq<Tree>, i: nat, j: nat, b: seq<Tree>, c: seq<Tree>,
    ms: seq<Move>, ns: seq<Move>)
    requires 1 <= i <= j <= |f| && b == f[i..] && c != [] && |c| <= |b| && |c[1..]| == |f| - j && Unique(f)
    requires p !in Ids(f[1..]) && Progress(info, s, t, f[1..i], {p} + Ids(f[1..i]), ms)
    requires Progress(info, t, u, Done(b, c), Ids(Done(b, c)), ns)
    ensures Progress(info, s, u, f[1..j], {p} + Ids(f[1..j]), ms + ns)
  {
    hide Progress, Ids, Unique, Deep, Tops;
    var front, more := f[1..i], Done(b, c);
    assert more == f[i..j];
    Slices(f, i, j);
    DeepFacts(more);
    ProgressOn(info, s, t, u, front, more, {p} + Ids(front), Ids(more), ms, ns);
    assert {p} + Ids(front) + Ids(more) == {p} + Ids(f[1..j]);
  }

  // The entry has been finalised and gets its new parent.
  lemma JoinProgress(
    info: Info, s: State, t: State, u: State, p: Id, par: Link, f: seq<Tree>, i: nat, j: nat, b: seq<Tree>,
    c: seq<Tree>, ms: seq<Move>)
    requires 1 <= i < j <= |f| && b == f[i..] && b != [] && c != [] && |c| <= |b| && Unique(f) && p !in Ids(f[1..])
    requires c[0].id == b[0].id && Encodes(u.h, Some(b[0].id), par, c, None) && p in info.sym
    requires SameOutside(t.h, u.h, Ids(b)) && SameOutside(s.h, t.h, Ids(f[1..])) && At(s.h.parent, p) == par
    requires AgreeBut(t.c, u.c, Deep(Done(b, c))) && j == i + |Done(b, c)|
    requires Su.JoinsSubmenu(info.sym[p], PromptOf(info, t.c, p), CondOf(info, t.c, b[0].id))
    requires Progress(info, s, u, f[1..j], {p} + Ids(f[1..j]), ms)
    ensures var e := b[0].id; var u' := State(SetParent(u.h, e, Some(p)), u.c);
      Progress(info, s, u', f[1..j], {p} + Ids(f[1..j]), ms + [Move(e, p, Joined)])
  {
    hide Progress, Su.JoinsSubmenu, Ids, Unique, Deep, Tops, Encodes, AgreeBut, SameOutside;
    var e := b[0].id;
    var m := Move(e, p, Joined);
    var u' := State(SetParent(u.h, e, Some(p)), u.c);
    Slices(f, i, j);
    assert Done(b, c) == f[i..j];
    assert f[1..] == f[1..i] + b;
    HeadIn(f[i..j]);
    JoinOk(info, s, t, u, p, par, f[1..], b, c);
    OneMove(info, u, u', m);
    assert f[1..j] + [] == f[1..j] && {p} + Ids(f[1..j]) + {e, p} == {p} + Ids(f[1..j]);
    NothingDeep();
    ProgressOn(info, s, u, u', f[1..j], [], {p} + Ids(f[1..j]), {e, p}, ms, [m]);
  }

  // The entry may join `p`.
  lemma JoinOk(
    info: Info, s: State, t: State, u: State, p: Id, par: Link, rest: seq<Tree>, b: seq<Tree>, c: seq<Tree>)
    requires b != [] && c != [] && |c| <= |b| && Ids(b) <= Ids(rest) && p !in Ids(rest) && Unique(Done(b, c))
    requires c[0].id == b[0].id && Encodes(u.h, Some(b[0].id), par, c, None) && p in info.sym
    requires SameOutside(t.h, u.h, Ids(b)) && SameOutside(s.h, t.h, Ids(rest)) && At(s.h.parent, p) == par
    requires AgreeBut(t.c, u.c, Deep(Done(b, c)))
    requires Su.JoinsSubmenu(info.sym[p], PromptOf(info, t.c, p), CondOf(info, t.c, b[0].id))
    ensures MoveOk(info, u.c, u.h.parent, Move(b[0].id, p, Joined))
  {
    assert At(u.h.parent, b[0].id) == par;
    hide Su.JoinsSubmenu, Ids, Unique, Deep, Encodes, AgreeBut;
    TopsKept(t.c, u.c, p, b, Done(b, c));
    assert At(u.h.parent, p) == par;
  }

  // Conditions change below the roots of `more` only.
  lemma TopsKept(c: Conds, d: Conds, p: Id, b: seq<Tree>, more: seq<Tree>)
    requires more != [] && more <= b && Unique(more) && p !in Ids(b) && AgreeBut(c, d, Deep(more))
    ensures SameAt(c, d, p) && SameAt(c, d, b[0].id)
  {
    hide Ids, Unique, Deep, Tops, Size, Preorder;
    assert b == more + b[|more|..];
    IdsOfTail(more, b[|more|..]);
    DeepFacts(more);
    HeadTop(more);
  }

  lemma HeadTop(f: seq<Tree>)
    requires f != []
    ensures f[0].id in Tops(f)
  {
  }

  lemma NothingDeep()
    ensures Deep([]) == {} && Unique([])
  {
  }

  lemma OneMove(info: Info, s: State, t: State, m: Move)
    requires MoveOk(info, s.c, s.h.parent, m) && t == State(SetParent(s.h, m.entry, Some(m.to)), s.c)
    ensures Progress(info, s, t, [], {m.entry, m.to}, [m])
  {
    assert [m][..0] == [];
    ProgressLinks(info, s, t, {m.entry, m.to}, [m]);
  }

  lemma ProgressAgrees(info: Info, s: State, t: State, done: seq<Tree>, ids: set<Id>, ms: seq<Move>)
    requires Progress(info, s, t, done, ids, ms)
    ensures AgreeBut(s.c, t.c, Deep(done))
  {
  }

  /** The absorbed siblings are linked below `p`. */
  lemma AbsorbEnd(
    info: Info, s: State, t: State, u: State, p: Id, par: Link, f: seq<Tree>, m: seq<Tree>, b: seq<Tree>,
    ms: seq<Move>)
    requires f != [] && f[0].id == p && Unique(f) && Encodes(s.h, Some(p), par, f, None) && f[0].kids == []
    requires Absorbing(info, s, t, p, par, f, m, b, ms) && u.c == t.c && u.h.parent == t.h.parent
    requires p in info.sym && Stops(info, t.c, p, b)
    requires if m == [] then u == t else
      && Encodes(u.h, At(u.h.list, p), Some(p), m, None) && At(u.h.next, p) == Head(b, None)
      && Encodes(u.h, Head(b, None), par, b, None) && SameOutside(t.h, u.h, {p} + Ids(f[1..]))
    ensures Finalized(info, s, u, par, f, [Tree(p, m)] + b, ms, false)
  {
    hide Flat, FlatBelow, Progress;
    var g := [Tree(p, m)] + b;
    assert g[1..] == b && Done(f, g) == f[..|f| - |b|];
    AbsorbLinks(s.h, t.h, u.h, p, par, f, m, b);
    AbsorbedProgress(info, s, t, u, p, f, b, ms);
  }

  lemma AbsorbLinks(h: Links, k: Links, l: Links, p: Id, par: Link, f: seq<Tree>, m: seq<Tree>, b: seq<Tree>)
    requires f != [] && f[0].id == p && Unique(f) && Encodes(h, Some(p), par, f, None) && f[0].kids == []
    requires SameEntries(f[1..], m + b) && SameOutside(h, k, Ids(f[1..])) && l.parent == k.parent
    requires Encodes(k, At(k.next, p), Some(p), m, Head(b, None)) && Encodes(k, Head(b, None), par, b, None)
    requires if m == [] then l == k else
      && Encodes(l, At(l.list, p), Some(p), m, None) && At(l.next, p) == Head(b, None)
      && Encodes(l, Head(b, None), par, b, None) && SameOutside(k, l, {p} + Ids(f[1..]))
    ensures Encodes(l, Some(p), par, [Tree(p, m)] + b, None) && SameEntries(f, [Tree(p, m)] + b)
    ensures SameOutside(h, l, Ids(f))
  {
    assert f == [Tree(p, [])] + f[1..];
    AbsorbEntries(p, m, b, f[1..]);
    assert ([Tree(p, m)] + b)[1..] == b;
    assert At(l.parent, p) == par;
  }

  lemma AbsorbedProgress(
    info: Info, s: State, t: State, u: State, p: Id, f: seq<Tree>, b: seq<Tree>, ms: seq<Move>)
    requires f != [] && f[0].id == p && f[0].kids == [] && |b| < |f|
    requires Progress(info, s, t, f[1..|f| - |b|], {p} + Ids(f[1..|f| - |b|]), ms)
    requires u.c == t.c && u.h.parent == t.h.parent
    ensures Progress(info, s, u, f[..|f| - |b|], Ids(f[..|f| - |b|]), ms)
  {
    var done := f[..|f| - |b|];
    assert done[1..] == f[1..|f| - |b|] && done[0] == f[0];
  }

  // ----- entries without a prompt do not keep entries below them -----

  // `a` are in their final place below `p`, `b` still to come.
  ghost predicate Flattening(
    info: Info, s: State, t: State, p: Id, kids: seq<Tree>, a: seq<Tree>, b: seq<Tree>, ms: seq<Move>)
  {
    && SameEntries(kids, a + b) && Flat(info, a) && FlatBelow(info, b) && p !in Ids(kids)
    && Encodes(t.h, At(t.h.list, p), Some(p), a + b, None) && SameOutside(s.h, t.h, Ids(kids))
    && Progress(info, s, t, [], {p} + Ids(kids), ms)
  }

  lemma FlattenStart(info: Info, s: State, p: Id, kids: seq<Tree>)
    requires Encodes(s.h, At(s.h.list, p), Some(p), kids, None) && Unique(kids) && FlatBelow(info, kids)
    requires p !in Ids(kids)
    ensures Flattening(info, s, s, p, kids, [], kids, [])
  {
    assert [] + kids == kids;
    ProgressLinks(info, s, s, {p} + Ids(kids), []);
  }

  // The head of `b` is passed, after its entries were lifted out of it if it has no prompt.
  lemma FlattenStep(
    info: Info, s: State, t: State, u: State, p: Id, kids: seq<Tree>, a: seq<Tree>, b: seq<Tree>, c: seq<Tree>,
    ms: seq<Move>, ns: seq<Move>)
    requires Flattening(info, s, t, p, kids, a, b, ms) && b != []
    requires c == if b[0].id !in info.prompt then [Tree(b[0].id, [])] + (b[0].kids + b[1..]) else b
    requires SameEntries(b, c) && Encodes(u.h, Some(b[0].id), Some(p), c, None) && SameOutside(t.h, u.h, Ids(b))
    requires Progress(info, t, u, [], {p} + Ids(b), ns)
    ensures Flattening(info, s, u, p, kids, a + [c[0]], c[1..], ms + ns)
    ensures At(u.h.next, b[0].id) == Head(c[1..], None) && Size(c[1..]) < Size(b)
  {
    hide Progress, Encodes, Flat, FlatBelow, Ids, Unique, Size, Preorder, SameEntries, SameOutside;
    ListLinks(s.h, t.h, u.h, p, kids, a, b, c);
    FlattenFlat(info, a, b, c);
    var none: seq<Tree> := [];
    assert none + none == none && {p} + Ids(kids) + ({p} + Ids(b)) == {p} + Ids(kids);
    NothingDeep();
    ProgressOn(info, s, t, u, none, none, {p} + Ids(kids), {p} + Ids(b), ms, ns);
  }

  lemma FlattenFlat(info: Info, a: seq<Tree>, b: seq<Tree>, c: seq<Tree>)
    requires Flat(info, a) && FlatBelow(info, b) && b != []
    requires c == if b[0].id !in info.prompt then [Tree(b[0].id, [])] + (b[0].kids + b[1..]) else b
    ensures Flat(info, a + [c[0]]) && FlatBelow(info, c[1..])
  {
    assert [c[0]][1..] == [];
    assert Flat(info, [c[0]]);
    FlatConcat(info, a, [c[0]]);
    if b[0].id !in info.prompt {
      assert c[1..] == b[0].kids + b[1..];
      FlatIsFlatBelow(info, b[0].kids);
      FlatConcat(info, b[0].kids, b[1..]);
    }
  }

  lemma FlattenEnd(info: Info, s: State, t: State, p: Id, kids: seq<Tree>, a: seq<Tree>, ms: seq<Move>)
    requires Flattening(info, s, t, p, kids, a, [], ms)
    ensures Encodes(t.h, At(t.h.list, p), Some(p), a, None) && SameEntries(kids, a) && Flat(info, a)
    ensures SameOutside(s.h, t.h, Ids(kids)) && Progress(info, s, t, [], {p} + Ids(kids), ms)
  {
    assert a + [] == a;
  }

  /** Flattening completes the work on an entry. */
  lemma FlattenDone(
    info: Info, s: State, t: State, u: State, par: Link, f: seq<Tree>, g: seq<Tree>, kids: seq<Tree>,
    ms: seq<Move>, ns: seq<Move>)
    requires f != [] && Unique(f) && Finalized(info, s, t, par, f, g, ms, false)
    requires var p := f[0].id;
      && Encodes(u.h, At(u.h.list, p), Some(p), kids, None) && SameEntries(g[0].kids, kids) && Flat(info, kids)
      && SameOutside(t.h, u.h, Ids(g[0].kids)) && Progress(info, t, u, [], {p} + Ids(g[0].kids), ns) && u.c == t.c
    ensures Finalized(info, s, u, par, f, [Tree(f[0].id, kids)] + g[1..], ms + ns, true)
  {
    hide Progress, Flat, FlatBelow, Encodes, Preorder, Size, Stops;
    var p, g' := f[0].id, [Tree(f[0].id, kids)] + g[1..];
    assert g'[1..] == g[1..];
    DoneIds(f, g);
    NewKids(t.h, u.h, par, g, g');
    OutsideTwice(s.h, t.h, u.h, Ids(f));
    var done := Done(f, g);
    assert Done(f, g') == done && done + [] == done;
    assert Ids(done) + ({p} + Ids(g[0].kids)) == Ids(done);
    ConcatFacts(done, []);
    ProgressOn(info, s, t, u, done, [], Ids(done), {p} + Ids(g[0].kids), ms, ns);
  }

  // ----- what the loops need to know -----

  lemma ListedTail(
    info: Info, s: State, t: State, p: Id, kids: seq<Tree>, a: seq<Tree>, b: seq<Tree>, ms: seq<Move>)
    requires Listed(info, s, t, p, kids, a, b, ms) && b != []
    ensures Unique(b) && Encodes(t.h, Some(b[0].id), Some(p), b, None)
    ensures |b| <= |kids| && b == kids[|kids| - |b|..]
  {
    EncodesConcat(t.h, At(t.h.list, p), Some(p), a, b, None);
    IdsOfTail(a, b);
  }

  lemma AbsorbingTail(
    info: Info, s: State, t: State, p: Id, par: Link, f: seq<Tree>, m: seq<Tree>, b: seq<Tree>, ms: seq<Move>)
    requires f != [] && Absorbing(info, s, t, p, par, f, m, b, ms) && b != []
    ensures Unique(b) && Encodes(t.h, Some(b[0].id), par, b, None) && p !in Ids(b)
  {
    IdsOfTail(m, b);
  }

  lemma AbsorbingSuffix(
    info: Info, s: State, t: State, p: Id, par: Link, f: seq<Tree>, m: seq<Tree>, b: seq<Tree>, ms: seq<Move>)
    requires f != [] && Absorbing(info, s, t, p, par, f, m, b, ms)
    ensures |b| < |f| && b == f[|f| - |b|..]
  {
  }

  lemma FlatteningTail(
    info: Info, s: State, t: State, p: Id, kids: seq<Tree>, a: seq<Tree>, b: seq<Tree>, ms: seq<Move>)
    requires Flattening(info, s, t, p, kids, a, b, ms) && b != []
    ensures Unique(b) && Encodes(t.h, Some(b[0].id), Some(p), b, None)
  {
    EncodesConcat(t.h, At(t.h.list, p), Some(p), a, b, None);
    IdsOfTail(a, b);
  }

  lemma FinalizedHead(
    info: Info, s: State, t: State, par: Link, f: seq<Tree>, g: seq<Tree>, ms: seq<Move>, flat: bool)
    requires f != [] && Finalized(info, s, t, par, f, g, ms, flat)
    ensures g != [] && g[0].id == f[0].id
  {
  }

  lemma FinalizedKids(info: Info, s: State, t: State, par: Link, f: seq<Tree>, g: seq<Tree>, ms: seq<Move>)
    requires f != [] && Finalized(info, s, t, par, f, g, ms, false)
    ensures g != [] && |g| <= |f| && FlatBelow(info, g[0].kids)
    ensures var p := f[0].id;
      Encodes(t.h, At(t.h.list, p), Some(p), g[0].kids, None) && Unique(g[0].kids) && p !in Ids(g[0].kids)
  {
    SplitHead(t.h, Some(f[0].id), par, g);
  }

  // The prompt of an entry elsewhere is as it was.
  lemma FinalizedAbove(
    info: Info, s: State, t: State, par: Link, f: seq<Tree>, g: seq<Tree>, ms: seq<Move>, flat: bool, p: Id)
    requires f != [] && Unique(f) && Finalized(info, s, t, par, f, g, ms, flat) && p !in Ids(f)
    ensures PromptOf(info, s.c, p) == PromptOf(info, t.c, p)
  {
    DoneIds(f, g);
    DeepFacts(Done(f, g));
    ProgressAgrees(info, s, t, Done(f, g), Ids(Done(f, g)), ms);
    assert SameAt(s.c, t.c, p);
  }

  lemma SpliceAll(h: Links, p: Id, last: Id, par: Link, rest: seq<Tree>, m: seq<Tree>, b: seq<Tree>)
    requires m != [] && SameEntries(rest, m + b) && p !in Ids(rest) && m[|m| - 1].id == last
    requires At(h.next, last) == Head(b, None)
    requires Encodes(h, At(h.next, p), Some(p), m, Head(b, None)) && Encodes(h, Head(b, None), par, b, None)
    ensures var k := SetNext(SetNext(SetList(h, p, At(h.next, p)), p, Head(b, None)), last, None);
      && Encodes(k, At(k.list, p), Some(p), m, None) && At(k.next, p) == Head(b, None)
      && Encodes(k, Head(b, None), par, b, None) && SameOutside(h, k, {p} + Ids(rest))
  {
    hide Encodes, Ids, Unique, Size, Preorder, SameOutside;
    SpliceLinks(h, p, last, par, m, b);
    IdsOfTail(m, b);
    LastInIds(m);
    SpliceOutside(h, p, last, At(h.next, p), Head(b, None), Ids(rest));
  }

  lemma SpliceOutside(h: Links, p: Id, last: Id, first: Link, end: Link, ids: set<Id>)
    requires last in ids
    ensures SameOutside(h, SetNext(SetNext(SetList(h, p, first), p, end), last, None), {p} + ids)
  {
  }

  lemma NotLifted(info: Info, t: State, p: Id, b: seq<Tree>)
    requires b != [] && Unique(b) && Encodes(t.h, Some(b[0].id), Some(p), b, None)
    requires At(t.h.list, b[0].id).None? || b[0].id in info.prompt
    ensures b == if b[0].id !in info.prompt then [Tree(b[0].id, [])] + (b[0].kids + b[1..]) else b
    ensures SameEntries(b, b) && SameOutside(t.h, t.h, Ids(b)) && Progress(info, t, t, [], {p} + Ids(b), [])
  {
    EncodesHead(t.h, At(t.h.list, b[0].id), Some(b[0].id), b[0].kids, None);
    ProgressLinks(info, t, t, {p} + Ids(b), []);
    if b[0].id !in info.prompt {
      assert b[0].kids + b[1..] == b[1..];
    }
  }

  // The links after the entries below `e` have been given the parent `p`.
  lemma LiftAll(h: Links, k: Links, e: Id, last: Id, p: Id, b: seq<Tree>)
    requires b != [] && b[0].id == e && Encodes(h, Some(e), Some(p), b, None) && Unique(b) && b[0].kids != []
    requires Encodes(k, At(h.list, e), Some(p), b[0].kids, None) && SameOutside(h, k, Ids(b[0].kids))
    requires last == b[0].kids[|b[0].kids| - 1].id
    ensures var l := Relinked(k, e, last);
      var c := [Tree(e, [])] + (b[0].kids + b[1..]);
      Encodes(l, Some(e), Some(p), c, None) && SameEntries(b, c) && SameOutside(h, l, Ids(b))
  {
    var ks, rest := b[0].kids, b[1..];
    hide Encodes, Ids, Unique, Size, Preorder, SameOutside, SameEntries, Relinked;
    LiftRest(h, k, e, p, b);
    LiftLinks(k, e, last, p, ks, rest);
    assert b == [Tree(e, ks)] + rest;
    LiftEntries(e, ks, rest);
    LiftOutside(h, k, e, last, b);
  }

  // Nothing has happened yet to `e` itself and to what follows it.
  lemma LiftRest(h: Links, k: Links, e: Id, p: Id, b: seq<Tree>)
    requires b != [] && b[0].id == e && Encodes(h, Some(e), Some(p), b, None) && Unique(b)
    requires SameOutside(h, k, Ids(b[0].kids))
    ensures Unique(b[0].kids) && Unique(b[1..]) && Ids(b[0].kids) !! Ids(b[1..])
    ensures e !in Ids(b[0].kids) && e !in Ids(b[1..]) && At(k.list, e) == At(h.list, e)
    ensures At(k.parent, e) == Some(p) && At(k.next, e) == Head(b[1..], None)
    ensures Encodes(k, At(k.next, e), Some(p), b[1..], None)
  {
    EncodesHead(h, At(h.next, e), Some(p), b[1..], None);
    EncodesFrame(h, k, Head(b[1..], None), Some(p), b[1..], None);
  }

  lemma LiftOutside(h: Links, k: Links, e: Id, last: Id, b: seq<Tree>)
    requires b != [] && b[0].id == e && b[0].kids != [] && SameOutside(h, k, Ids(b[0].kids))
    requires last == b[0].kids[|b[0].kids| - 1].id
    ensures SameOutside(h, Relinked(k, e, last), Ids(b))
  {
    LastInIds(b[0].kids);
  }

  lemma LiftProgress(info: Info, s: State, t: State, p: Id, b: seq<Tree>, ms: seq<Move>)
    requires b != [] && t.c == s.c && t.h.parent == Replay(s.h.parent, ms)
    requires Justified(info, s.c, s.h.parent, ms) && Mentions(ms, {p} + Ids(b[0].kids))
    ensures Progress(info, s, t, [], {p} + Ids(b), ms)
  {
    ProgressLinks(info, s, t, {p} + Ids(b), ms);
  }

  // The entries `a` below `e` have got the parent of `e`, and `b` are to follow, `at` first.
  ghost predicate Lifting(
    info: Info, c: Conds, h: Links, k: Links, first: Id, at: Id, e: Id, p: Id, a: seq<Tree>, b: seq<Tree>,
    ms: seq<Move>)
  {
    && b != [] && b[0].id == at && Unique(a + b) && e !in Ids(a + b) && e !in info.prompt
    && At(h.parent, e) == Some(p) && SameOutside(h, k, Ids(a + b))
    && Encodes(k, Some(first), Some(p), a, Some(at)) && Encodes(k, Some(at), Some(e), b, None)
    && k.parent == Replay(h.parent, ms) && Justified(info, c, h.parent, ms) && Mentions(ms, {p} + Ids(a + b))
    && NoneLeaves(info, h.parent, k.parent)
  }

  lemma LiftingStart(info: Info, c: Conds, h: Links, first: Id, e: Id, p: Id, ks: seq<Tree>)
    requires ks != [] && Encodes(h, Some(first), Some(e), ks, None) && Unique(ks) && e !in Ids(ks)
    requires e !in info.prompt && At(h.parent, e) == Some(p)
    ensures Lifting(info, c, h, h, first, first, e, p, [], ks, []) && [] + ks == ks
  {
    assert [] + ks == ks;
  }

  // What holds once `at` has got its new parent.
  ghost predicate LiftedUpTo(
    info: Info, c: Conds, h: Links, k: Links, first: Id, at: Id, e: Id, p: Id, a: seq<Tree>, b: seq<Tree>,
    ms: seq<Move>)
  {
    && Encodes(k, Some(first), Some(p), a, Head(b, None)) && Encodes(k, Head(b, None), Some(e), b, None)
    && a != [] && a[|a| - 1].id == at && SameOutside(h, k, Ids(a + b))
    && k.parent == Replay(h.parent, ms) && Justified(info, c, h.parent, ms) && Mentions(ms, {p} + Ids(a + b))
    && NoneLeaves(info, h.parent, k.parent)
  }

  lemma LiftingStep(
    info: Info, c: Conds, h: Links, k: Links, first: Id, at: Id, e: Id, p: Id, a: seq<Tree>, b: seq<Tree>,
    ms: seq<Move>)
    requires Lifting(info, c, h, k, first, at, e, p, a, b, ms)
    ensures var k', ns := SetParent(k, at, Some(p)), ms + [Move(at, p, Lifted(e))];
      && a + [b[0]] + b[1..] == a + b && At(k'.next, at) == Head(b[1..], None)
      && LiftedUpTo(info, c, h, k', first, at, e, p, a + [b[0]], b[1..], ns)
      && (b[1..] != [] ==> Lifting(info, c, h, k', first, b[1].id, e, p, a + [b[0]], b[1..], ns))
  {
    var k' := SetParent(k, at, Some(p));
    assert b == [b[0]] + b[1..] && a + [b[0]] + b[1..] == a + b;
    AdoptLinks(k, Some(first), Some(p), Some(e), a, b[0], b[1..]);
    LiftedOne(info, c, h, k, ms, at, e, p, a, b);
    assert NoneLeaves(info, h.parent, k'.parent) by {
      assert At(k.parent, at) == Some(e);
    }
    hide Encodes, Unique, Replay, Justified, Mentions, NoneLeaves;
    assert at in Ids(a + b) by {
      ConcatFacts(a, b);
      assert at in Ids(b);
    }
    OutsideAdopt(h, k, at, Some(p), Ids(a + b), Ids(a + b));
  }

  lemma LiftingEnd(
    info: Info, c: Conds, h: Links, k: Links, first: Id, at: Id, e: Id, p: Id, a: seq<Tree>, b: seq<Tree>,
    ms: seq<Move>)
    requires b != [] && LiftedUpTo(info, c, h, k, first, at, e, p, a + [b[0]], b[1..], ms) && Head(b[1..], None).None?
    ensures Encodes(k, Some(first), Some(p), a + b, None) && at == (a + b)[|a + b| - 1].id
    ensures SameOutside(h, k, Ids(a + b)) && k.parent == Replay(h.parent, ms)
    ensures Justified(info, c, h.parent, ms) && Mentions(ms, {p} + Ids(a + b)) && NoneLeaves(info, h.parent, k.parent)
  {
    assert b[1..] == [] && a + [b[0]] == a + b && a + [b[0]] + b[1..] == a + b;
  }

  // One entry below `e` gets the parent of `e`.
  lemma LiftedOne(
    info: Info, c: Conds, h: Links, k: Links, ms: seq<Move>, at: Id, e: Id, p: Id, a: seq<Tree>, b: seq<Tree>)
    requires b != [] && b[0].id == at && Encodes(k, Some(at), Some(e), b, None) && e !in Ids(a + b)
    requires SameOutside(h, k, Ids(a + b)) && At(h.parent, e) == Some(p) && e !in info.prompt
    requires k.parent == Replay(h.parent, ms) && Justified(info, c, h.parent, ms) && Mentions(ms, {p} + Ids(a + b))
    ensures var ns := ms + [Move(at, p, Lifted(e))];
      && SetParent(k, at, Some(p)).parent == Replay(h.parent, ns) && Justified(info, c, h.parent, ns)
      && Mentions(ns, {p} + Ids(a + b))
  {
    var m := Move(at, p, Lifted(e));
    assert (ms + [m])[..|ms|] == ms;
    ConcatFacts(a, b);
    assert at in Ids(b);
  }
}
