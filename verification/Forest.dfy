/** The shape of a menu: first-child, next-sibling and parent links, and the forest they encode. */
module Forest {
  import opened Wrappers

  type Id = nat

  datatype Tree = Tree(id: Id, kids: seq<Tree>)

  type Link = Option<Id>

  // The link fields of all entries; an entry missing from a map has a null link.
  datatype Links = Links(next: map<Id, Link>, list: map<Id, Link>, parent: map<Id, Link>)

  function At(m: map<Id, Link>, x: Id): Link {
    if x in m then m[x] else None
  }

  function Size(f: seq<Tree>): (n: nat)
    ensures f != [] ==> n > 0
  {
    if f == [] then 0 else 1 + Size(f[0].kids) + Size(f[1..])
  }

  function Preorder(f: seq<Tree>): seq<Id> {
    if f == [] then [] else [f[0].id] + Preorder(f[0].kids) + Preorder(f[1..])
  }

  function Ids(f: seq<Tree>): set<Id> {
    if f == [] then {} else {f[0].id} + Ids(f[0].kids) + Ids(f[1..])
  }

  // No entry occurs twice.
  predicate Unique(f: seq<Tree>) {
    f != [] ==>
    && f[0].id !in Ids(f[0].kids) && f[0].id !in Ids(f[1..]) && Ids(f[0].kids) !! Ids(f[1..])
    && Unique(f[0].kids) && Unique(f[1..])
  }

  function Head(f: seq<Tree>, end: Link): Link {
    if f == [] then end else Some(f[0].id)
  }

  /** The sibling list that starts at `first` is the forest `f` below `par`, and continues with `end`. */
  ghost predicate Encodes(h: Links, first: Link, par: Link, f: seq<Tree>, end: Link)
    decreases Size(f)
  {
    if f == [] then first == end
    else
      var t := f[0];
      && first == Some(t.id) && At(h.parent, t.id) == par
      && Encodes(h, At(h.list, t.id), Some(t.id), t.kids, None)
      && Encodes(h, At(h.next, t.id), par, f[1..], end)
  }

  lemma {:induction false} EncodesHead(h: Links, first: Link, par: Link, f: seq<Tree>, end: Link)
    requires Encodes(h, first, par, f, end)
    ensures first == Head(f, end)
  {
  }

  lemma EncodesNext(h: Links, first: Id, par: Link, f: seq<Tree>)
    requires Encodes(h, Some(first), par, f, None)
    ensures f != [] && f[0].id == first && Encodes(h, At(h.next, first), par, f[1..], None)
  {
  }

  lemma {:induction false} ConcatFacts(f: seq<Tree>, g: seq<Tree>)
    ensures Size(f + g) == Size(f) + Size(g)
    ensures Preorder(f + g) == Preorder(f) + Preorder(g)
    ensures Ids(f + g) == Ids(f) + Ids(g)
    ensures Unique(f + g) <==> Unique(f) && Unique(g) && Ids(f) !! Ids(g)
    decreases |f|
  {
    if f == [] {
      assert f + g == g;
    } else {
      assert (f + g)[1..] == f[1..] + g;
      ConcatFacts(f[1..], g);
    }
  }

  lemma {:induction false} EncodesConcat(h: Links, first: Link, par: Link, f: seq<Tree>, g: seq<Tree>, end: Link)
    ensures Encodes(h, first, par, f + g, end)
      <==> Encodes(h, first, par, f, Head(g, end)) && Encodes(h, Head(g, end), par, g, end)
    decreases |f|
  {
    if f == [] {
      assert f + g == g;
    } else {
      assert (f + g)[1..] == f[1..] + g;
      EncodesConcat(h, At(h.next, f[0].id), par, f[1..], g, end);
    }
  }

  // The links of the entries in `ids` are the same.
  ghost predicate SameOn(h: Links, k: Links, ids: set<Id>) {
    forall x :: x in ids
      ==> At(h.next, x) == At(k.next, x) && At(h.list, x) == At(k.list, x) && At(h.parent, x) == At(k.parent, x)
  }

  lemma {:induction false} EncodesFrame(h: Links, k: Links, first: Link, par: Link, f: seq<Tree>, end: Link)
    requires Encodes(h, first, par, f, end) && SameOn(h, k, Ids(f))
    ensures Encodes(k, first, par, f, end)
    decreases Size(f)
  {
    if f != [] {
      EncodesFrame(h, k, At(h.list, f[0].id), Some(f[0].id), f[0].kids, None);
      EncodesFrame(h, k, At(h.next, f[0].id), par, f[1..], end);
    }
  }

  // Redirecting the last sibling.
  lemma {:induction false} EncodesRedirect(h: Links, first: Link, par: Link, f: seq<Tree>, end: Link, end': Link)
    requires Encodes(h, first, par, f, end) && f != [] && Unique(f)
    ensures Encodes(h.(next := h.next[f[|f| - 1].id := end']), first, par, f, end')
    decreases |f|
  {
    var last := f[|f| - 1].id;
    var k := h.(next := h.next[last := end']);
    if |f| == 1 {
      EncodesFrame(h, k, At(h.list, last), Some(last), f[0].kids, None);
    } else {
      assert f[1..][|f| - 2] == f[|f| - 1];
      LastInIds(f[1..]);
      EncodesFrame(h, k, At(h.list, f[0].id), Some(f[0].id), f[0].kids, None);
      EncodesRedirect(h, At(h.next, f[0].id), par, f[1..], end, end');
    }
  }

  lemma {:induction false} LastInIds(f: seq<Tree>)
    requires f != []
    ensures f[|f| - 1].id in Ids(f)
    decreases |f|
  {
    if |f| > 1 {
      assert f[1..][|f| - 2] == f[|f| - 1];
      LastInIds(f[1..]);
    }
  }

  // Only the links of the entries in `ids` may differ.
  ghost predicate SameOutside(h: Links, k: Links, ids: set<Id>) {
    forall x :: x !in ids
      ==> At(h.next, x) == At(k.next, x) && At(h.list, x) == At(k.list, x) && At(h.parent, x) == At(k.parent, x)
  }

  /** `g` has the same entries as `f`, in the same preorder, none twice. */
  ghost predicate SameEntries(f: seq<Tree>, g: seq<Tree>) {
    Preorder(g) == Preorder(f) && Ids(g) == Ids(f) && Size(g) == Size(f) && Unique(g)
  }

  // Rewriting the tail of a sibling list.
  lemma ReplaceTail(h: Links, k: Links, first: Link, par: Link, a: seq<Tree>, b: seq<Tree>, c: seq<Tree>)
    requires Encodes(h, first, par, a + b, None) && Unique(a + b) && SameOutside(h, k, Ids(b))
    requires SameEntries(b, c) && Head(b, None) == Head(c, None) && Encodes(k, Head(c, None), par, c, None)
    ensures Encodes(k, first, par, a + c, None) && SameEntries(a + b, a + c)
  {
    EncodesConcat(h, first, par, a, b, None);
    ConcatFacts(a, b);
    ConcatFacts(a, c);
    EncodesFrame(h, k, first, par, a, Head(b, None));
    EncodesConcat(k, first, par, a, c, None);
  }

  // A tree and the trees after it.
  lemma SplitHead(h: Links, first: Link, par: Link, f: seq<Tree>)
    requires f != [] && Encodes(h, first, par, f, None) && Unique(f)
    ensures f == [f[0]] + f[1..]
    ensures Encodes(h, first, par, [f[0]], Head(f[1..], None)) && Encodes(h, Head(f[1..], None), par, f[1..], None)
    ensures Unique([f[0]]) && Unique(f[1..]) && Ids([f[0]]) !! Ids(f[1..]) && Ids([f[0]]) == {f[0].id} + Ids(f[0].kids)
    ensures Size(f) == Size([f[0]]) + Size(f[1..]) && Size([f[0]]) == 1 + Size(f[0].kids)
  {
    EncodesConcat(h, first, par, [f[0]], f[1..], None);
    ConcatFacts([f[0]], f[1..]);
    assert [f[0]][1..] == [];
  }

  // Writing one link of an entry outside the forest.
  function SetNext(h: Links, x: Id, l: Link): Links {
    h.(next := h.next[x := l])
  }

  function SetList(h: Links, x: Id, l: Link): Links {
    h.(list := h.list[x := l])
  }

  function SetParent(h: Links, x: Id, l: Link): Links {
    h.(parent := h.parent[x := l])
  }

  lemma EncodesElsewhere(h: Links, x: Id, l: Link, first: Link, par: Link, f: seq<Tree>, end: Link)
    requires Encodes(h, first, par, f, end) && x !in Ids(f)
    ensures Encodes(SetNext(h, x, l), first, par, f, end)
    ensures Encodes(SetList(h, x, l), first, par, f, end)
    ensures Encodes(SetParent(h, x, l), first, par, f, end)
  {
    EncodesFrame(h, SetNext(h, x, l), first, par, f, end);
    EncodesFrame(h, SetList(h, x, l), first, par, f, end);
    EncodesFrame(h, SetParent(h, x, l), first, par, f, end);
  }

  // Giving the head of a list another parent.
  lemma EncodesAdopt(h: Links, t: Tree, par: Link, par': Link, end: Link)
    requires Encodes(h, Some(t.id), par, [t], end) && Unique([t])
    ensures Encodes(SetParent(h, t.id, par'), Some(t.id), par', [t], end)
  {
    assert [t][1..] == [];
    EncodesElsewhere(h, t.id, par', At(h.list, t.id), Some(t.id), t.kids, None);
  }

  /** Taking the siblings `m` after `p` under `p`. */
  lemma SpliceLinks(h: Links, p: Id, last: Id, par: Link, m: seq<Tree>, b: seq<Tree>)
    requires m != [] && Unique(m + b) && p !in Ids(m + b) && m[|m| - 1].id == last && At(h.next, last) == Head(b, None)
    requires Encodes(h, At(h.next, p), Some(p), m, Head(b, None)) && Encodes(h, Head(b, None), par, b, None)
    ensures var k := SetNext(SetNext(SetList(h, p, At(h.next, p)), p, Head(b, None)), last, None);
      && Encodes(k, At(k.list, p), Some(p), m, None) && At(k.next, p) == Head(b, None)
          && Encodes(k, Head(b, None), par, b, None)
  {
    var first, end := At(h.next, p), Head(b, None);
    ConcatFacts(m, b);
    LastInIds(m);
    var h1 := SetList(h, p, first);
    EncodesElsewhere(h, p, first, first, Some(p), m, end);
    EncodesElsewhere(h, p, first, end, par, b, None);
    var h2 := SetNext(h1, p, end);
    EncodesElsewhere(h1, p, end, first, Some(p), m, end);
    EncodesElsewhere(h1, p, end, end, par, b, None);
    EncodesRedirect(h2, first, Some(p), m, end, None);
    EncodesElsewhere(h2, last, None, end, par, b, None);
  }

  // last->next = e->next; e->next = e->list; e->list = NULL
  function Relinked(h: Links, e: Id, last: Id): Links {
    SetList(SetNext(SetNext(h, last, At(h.next, e)), e, At(h.list, e)), e, None)
  }

  /** Making the entries `ks`, already below `p`, the following siblings of `e`. */
  lemma LiftLinks(h: Links, e: Id, last: Id, p: Id, ks: seq<Tree>, rest: seq<Tree>)
    requires ks != [] && Unique(ks) && Unique(rest) && Ids(ks) !! Ids(rest) && e !in Ids(ks) && e !in Ids(rest)
      && ks[|ks| - 1].id == last
    requires At(h.parent, e) == Some(p) && At(h.next, e) == Head(rest, None)
    requires Encodes(h, At(h.list, e), Some(p), ks, None) && Encodes(h, At(h.next, e), Some(p), rest, None)
    ensures Encodes(Relinked(h, e, last), Some(e), Some(p), [Tree(e, [])] + (ks + rest), None)
  {
    var first, end := At(h.list, e), Head(rest, None);
    LastInIds(ks);
    var h1 := SetNext(h, last, end);
    EncodesRedirect(h, first, Some(p), ks, None, end);
    EncodesElsewhere(h, last, end, end, Some(p), rest, None);
    EncodesConcat(h1, first, Some(p), ks, rest, None);
    ConcatFacts(ks, rest);
    var h2 := SetNext(h1, e, first);
    EncodesElsewhere(h1, e, first, first, Some(p), ks + rest, None);
    EncodesElsewhere(h2, e, None, first, Some(p), ks + rest, None);
    assert ([Tree(e, [])] + (ks + rest))[1..] == ks + rest;
  }

  lemma LiftEntries(e: Id, ks: seq<Tree>, rest: seq<Tree>)
    requires Unique([Tree(e, ks)] + rest)
    ensures SameEntries([Tree(e, ks)] + rest, [Tree(e, [])] + (ks + rest))
  {
    var f, g := [Tree(e, ks)] + rest, [Tree(e, [])] + (ks + rest);
    var none: seq<Tree> := [];
    assert f[1..] == rest && g[1..] == ks + rest && f[0] == Tree(e, ks) && g[0] == Tree(e, none);
    hide Preorder, Size, Ids, Unique, Listing;
    ConcatFacts(ks, rest);
    Nothing();
    PreorderStep(f, e, ks, rest);
    PreorderStep(g, e, none, ks + rest);
    JoinSeqs(e, Preorder(ks), Preorder(rest));
    IdsStep(f, e, ks, rest);
    IdsStep(g, e, none, ks + rest);
  }

  lemma AbsorbEntries(p: Id, m: seq<Tree>, b: seq<Tree>, rest: seq<Tree>)
    requires Unique([Tree(p, [])] + rest) && SameEntries(rest, m + b)
    ensures SameEntries([Tree(p, [])] + rest, [Tree(p, m)] + b)
  {
    var f, g := [Tree(p, [])] + rest, [Tree(p, m)] + b;
    var none: seq<Tree> := [];
    assert g[1..] == b && f[1..] == rest && g[0] == Tree(p, m) && f[0] == Tree(p, none);
    hide Preorder, Size, Ids, Unique, Listing;
    ConcatFacts(m, b);
    Nothing();
    PreorderStep(f, p, none, rest);
    PreorderStep(g, p, m, b);
    JoinSeqs(p, Preorder(m), Preorder(b));
    IdsStep(f, p, none, rest);
    IdsStep(g, p, m, b);
  }

  lemma Nothing()
    ensures Preorder([]) == [] && Size([]) == 0 && Ids([]) == {} && Unique([])
  {
  }

  lemma PreorderStep(f: seq<Tree>, id: Id, kids: seq<Tree>, rest: seq<Tree>)
    requires f != [] && f[0] == Tree(id, kids) && f[1..] == rest
    ensures Preorder(f) == Listing(id, Preorder(kids), Preorder(rest)) && Size(f) == 1 + Size(kids) + Size(rest)
  {
  }

  function Listing(id: Id, below: seq<Id>, after: seq<Id>): seq<Id> {
    [id] + below + after
  }

  lemma JoinSeqs(id: Id, a: seq<Id>, b: seq<Id>)
    ensures Listing(id, [], a + b) == Listing(id, a, b)
  {
  }

  lemma IdsStep(f: seq<Tree>, id: Id, kids: seq<Tree>, rest: seq<Tree>)
    requires f != [] && f[0] == Tree(id, kids) && f[1..] == rest
    ensures Ids(f) == {id} + Ids(kids) + Ids(rest)
    ensures Unique(f)
      <==> id !in Ids(kids) && id !in Ids(rest) && Ids(kids) !! Ids(rest) && Unique(kids) && Unique(rest)
  {
  }

  // Moving the head `t` of the list [t] + b from below `par` to the end of `m` below `p`.
  lemma AdoptLinks(h: Links, first: Link, p: Link, par: Link, m: seq<Tree>, t: Tree, b: seq<Tree>)
    requires Unique(m + ([t] + b))
    requires Encodes(h, first, p, m, Some(t.id)) && Encodes(h, Some(t.id), par, [t] + b, None)
    ensures var k := SetParent(h, t.id, p);
      && Encodes(k, first, p, m + [t], Head(b, None)) && Encodes(k, Head(b, None), par, b, None)
      && At(k.next, t.id) == Head(b, None)
  {
    ConcatFacts(m, [t] + b);
    SplitHead(h, Some(t.id), par, [t] + b);
    assert ([t] + b)[1..] == b;
    EncodesElsewhere(h, t.id, p, first, p, m, Some(t.id));
    EncodesElsewhere(h, t.id, p, Head(b, None), par, b, None);
    EncodesAdopt(h, t, par, p, Head(b, None));
    EncodesConcat(SetParent(h, t.id, p), first, p, m, [t], Head(b, None));
    EncodesHead(h, At(h.next, t.id), par, b, None);
  }

  // The tail `b` has become `c`, and its head is passed.
  lemma PassHead(h: Links, k: Links, first: Link, par: Link, a: seq<Tree>, b: seq<Tree>, c: seq<Tree>)
    requires b != [] && c != [] && b[0].id == c[0].id && Encodes(h, first, par, a + b, None) && Unique(a + b)
    requires SameOutside(h, k, Ids(b)) && SameEntries(b, c) && Encodes(k, Some(c[0].id), par, c, None)
    ensures Encodes(k, first, par, a + [c[0]] + c[1..], None) && SameEntries(a + b, a + [c[0]] + c[1..])
    ensures At(k.next, c[0].id) == Head(c[1..], None) && Size(c[1..]) < Size(b)
    ensures Ids(b) <= Ids(a + b)
  {
    hide Encodes, Ids, Unique, Size, Preorder, SameOutside;
    ReplaceTail(h, k, first, par, a, b, c);
    assert a + [c[0]] + c[1..] == a + c;
    TailOf(k, par, c);
    IdsOfTail(a, b);
  }

  lemma TailOf(k: Links, par: Link, c: seq<Tree>)
    requires c != [] && Encodes(k, Some(c[0].id), par, c, None)
    ensures At(k.next, c[0].id) == Head(c[1..], None) && Size(c[1..]) < Size(c) && c == [c[0]] + c[1..]
  {
    EncodesHead(k, At(k.next, c[0].id), par, c[1..], None);
  }

  lemma IdsOfTail(a: seq<Tree>, b: seq<Tree>)
    ensures Ids(b) <= Ids(a + b) && Ids(a) <= Ids(a + b)
    ensures Unique(a + b) ==> Unique(a) && Unique(b) && Ids(a) !! Ids(b)
  {
    ConcatFacts(a, b);
  }

  lemma OutsideAdopt(h: Links, k: Links, x: Id, l: Link, inner: set<Id>, outer: set<Id>)
    requires SameOutside(h, k, inner) && x in inner && inner <= outer
    ensures SameOutside(h, SetParent(k, x, l), outer)
  {
  }

  lemma SameEntriesConcat(a: seq<Tree>, b: seq<Tree>, c: seq<Tree>)
    requires Unique(a + b) && SameEntries(b, c)
    ensures SameEntries(a + b, a + c)
  {
    ConcatFacts(a, b);
    ConcatFacts(a, c);
  }

  lemma HeadIn(f: seq<Tree>)
    requires f != []
    ensures f[0].id in Ids(f)
  {
  }

  // The siblings `b` have become `c`, and the head of it is adopted at the end of `m`.
  lemma AdoptHead(h: Links, k: Links, p: Id, par: Link, m: seq<Tree>, b: seq<Tree>, c: seq<Tree>)
    requires b != [] && c != [] && b[0].id == c[0].id && Unique(m + b) && p !in Ids(m + b)
    requires Encodes(h, At(h.next, p), Some(p), m, Some(b[0].id)) && SameOutside(h, k, Ids(b)) && SameEntries(b, c)
    requires Encodes(k, Some(c[0].id), par, c, None)
    ensures SameEntries(m + b, m + [c[0]] + c[1..]) && Size(c[1..]) < Size(b)
    ensures var k' := SetParent(k, c[0].id, Some(p));
      && At(k'.next, c[0].id) == Head(c[1..], None) && SameOutside(h, k', Ids(m + b))
      && Encodes(k', At(k'.next, p), Some(p), m + [c[0]], Head(c[1..], None))
          && Encodes(k', Head(c[1..], None), par, c[1..], None)
  {
    hide Ids, Unique, Preorder, Encodes;
    SameEntriesConcat(m, b, c);
    IdsOfTail(m, b);
    TailOf(k, par, c);
    HeadIn(c);
    assert m + [c[0]] + c[1..] == m + c == m + ([c[0]] + c[1..]);
    assert At(k.next, p) == At(h.next, p);
    EncodesFrame(h, k, At(h.next, p), Some(p), m, Some(b[0].id));
    AdoptLinks(k, At(h.next, p), Some(p), par, m, c[0], c[1..]);
    OutsideAdopt(h, k, c[0].id, Some(p), Ids(b), Ids(m + b));
  }
}
