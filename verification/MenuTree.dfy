/** menu_finalize on linked menu entries, and the walk by which the configuration is written. */
module MenuTree {
  import opened Wrappers
  import Ex = Expr
  import Su = Submenu
  import opened Forest
  import opened MenuConditions
  import opened MenuMoves
  import opened MenuSteps
  import opened MenuPlacement

  // A level above the walk: an ancestor and the siblings after it.
  datatype Level = Level(id: Id, after: seq<Tree>)

  ghost predicate Above(h: Links, par: Link, up: seq<Level>)
    decreases |up|
  {
    if up == [] then par == None
    else
      && par == Some(up[0].id)
      && Encodes(h, At(h.next, up[0].id), At(h.parent, up[0].id), up[0].after, None)
      && Above(h, At(h.parent, up[0].id), up[1..])
  }

  ghost function Pending(up: seq<Level>): seq<Id> {
    if up == [] then [] else Preorder(up[0].after) + Pending(up[1..])
  }

  lemma Regroup(a: seq<Id>, b: seq<Id>, c: seq<Id>, d: seq<Id>)
    ensures a + (b + (c + d)) == a + b + c + d
    ensures b == [] ==> a + (c + d) == a + b + c + d
    ensures b == [] && c == [] ==> a + d == a + b + c + d
  {
  }

  class Menus {
    const info: Info

    var next: map<Id, Link>
    var list: map<Id, Link>
    var parent: map<Id, Link>
    var dep: map<Id, Cond>
    var visible: map<Id, seq<Cond>>

    ghost function H(): Links
      reads this`next, this`list, this`parent
    {
      Links(next, list, parent)
    }

    function C(): Conds
      reads this`dep, this`visible
    {
      Conds(dep, visible)
    }

    ghost function S(): State
      reads this
    {
      State(H(), C())
    }

    // The state of the walk: it stands at the head of `cur`, below the levels `up`.
    ghost predicate Standing(at: Link, cur: seq<Tree>, par: Link, up: seq<Level>)
      reads this`next, this`list, this`parent
    {
      Encodes(H(), at, par, cur, None) && Above(H(), par, up) && (at.None? ==> cur == [] && Pending(up) == [])
    }

    // Up the parents until one has a following sibling.
    method Climb(entry: Id, ghost up0: seq<Level>)
      returns (at: Link, ghost cur: seq<Tree>, ghost par: Link, ghost up: seq<Level>)
      requires Above(H(), At(parent, entry), up0)
      ensures Standing(at, cur, par, up) && Preorder(cur) + Pending(up) == Pending(up0)
    {
      up, cur, par := up0, [], None;
      at := At(parent, entry);
      while at.Some? && At(next, at.value).None?
        invariant Above(H(), at, up) && Pending(up) == Pending(up0)
        decreases |up|
      {
        at := At(parent, at.value);
        EncodesHead(H(), At(next, up[0].id), At(parent, up[0].id), up[0].after, None);
        assert Preorder([]) == [];
        up := up[1..];
      }
      if at.Some? {
        cur, par := up[0].after, At(parent, at.value);
        at := At(next, at.value);
        up := up[1..];
      }
    }

    // One step of the walk, after the entry at the head of `cur0` has been visited.
    method Advance(entry: Id, ghost cur0: seq<Tree>, ghost par0: Link, ghost up0: seq<Level>)
      returns (at: Link, ghost cur: seq<Tree>, ghost par: Link, ghost up: seq<Level>)
      requires Standing(Some(entry), cur0, par0, up0)
      ensures Standing(at, cur, par, up)
      ensures cur0 != [] && cur0[0].id == entry
        && [entry] + (Preorder(cur) + Pending(up)) == Preorder(cur0) + Pending(up0)
    {
      ghost var t, rest := cur0[0], cur0[1..];
      EncodesHead(H(), At(list, entry), Some(entry), t.kids, None);
      EncodesHead(H(), At(next, entry), par0, rest, None);
      assert Preorder(cur0) == [entry] + Preorder(t.kids) + Preorder(rest);
      Regroup([entry], Preorder(t.kids), Preorder(rest), Pending(up0));
      if At(list, entry).Some? {
        at := At(list, entry);
        cur, par, up := t.kids, Some(t.id), [Level(t.id, rest)] + up0;
        assert up[1..] == up0;
      } else if At(next, entry).Some? {
        at := At(next, entry);
        cur, par, up := rest, par0, up0;
      } else {
        at, cur, par, up := Climb(entry, up0);
      }
    }

    /** The tree walk of conf_write and conf_write_defconfig ends, and visits the entries in preorder. */
    method Walk(root: Id, ghost kids: seq<Tree>) returns (visited: seq<Id>)
      requires Encodes(H(), At(list, root), Some(root), kids, None) && At(next, root) == None
        && At(parent, root) == None
      ensures visited == Preorder(kids)
    {
      visited := [];
      var menu := At(list, root);
      ghost var cur, par, up := kids, Some(root), [Level(root, [])];
      EncodesHead(H(), menu, par, kids, None);
      assert Pending(up) == [] by {
        assert up[1..] == [];
      }
      while menu.Some?
        invariant Standing(menu, cur, par, up)
        invariant visited + (Preorder(cur) + Pending(up)) == Preorder(kids)
        decreases |Preorder(cur) + Pending(up)|
      {
        visited := visited + [menu.value];
        menu, cur, par, up := Advance(menu.value, cur, par, up);
      }
    }

    // ----- menu_finalize -----

    // The conditions of entry `e` once those of its parent are handed down.
    method PropagateEntry(e: Id, parentDep: Cond)
      modifies this`dep, this`visible
      ensures Received(info, old(C()), C(), parentDep, e) && AgreeBut(old(C()), C(), {e})
    {
      var baseDep := BaseDep(parentDep, DepAt(C(), e));
      var vis := VisAt(C(), e);
      dep := dep[e := baseDep];
      var out := [];
      for i := 0 to |vis|
        invariant out == PropDeps(baseDep, vis, TransBoolAt(info, e), i)
      {
        out := out + [PropDep(baseDep, vis[i], TransBoolAt(info, e))];
      }
      visible := visible[e := out];
    }

    // The first loop: dependency propagation to the entries below `p`.
    method Propagate(p: Id, ghost kids: seq<Tree>)
      requires Encodes(H(), At(list, p), Some(p), kids, None) && Unique(kids) && p !in Ids(kids)
      modifies this`dep, this`visible
      ensures LevelDone(info, old(C()), C(), CondOf(info, old(C()), p), kids) && AgreeBut(old(C()), C(), Tops(kids))
    {
      hide Received, SameAt, Unique, Ids, Tops, AgreeBut, LevelDone, Encodes;
      var parentDep := CondOf(info, C(), p);
      var menu := At(list, p);
      ghost var a, b := [], kids;
      assert a + b == kids;
      LevelStart(info, C(), parentDep);
      while menu.Some?
        invariant a + b == kids && Encodes(H(), menu, Some(p), b, None)
        invariant LevelDone(info, old(C()), C(), parentDep, a) && AgreeBut(old(C()), C(), Tops(a))
        decreases |b|
      {
        EncodesNext(H(), menu.value, Some(p), b);
        ghost var c, t := C(), b[0];
        PropagateEntry(menu.value, parentDep);
        LevelStep(info, old(C()), c, C(), parentDep, a, b);
        menu := At(next, menu.value);
        assert a + [t] + b[1..] == a + b;
        a, b := a + [t], b[1..];
      }
      EncodesHead(H(), menu, Some(p), b, None);
      assert a == kids;
    }

    /** menu_finalize on entry `p`, whose own tree and following siblings are the forest `f`. */
    method Finalize(p: Id, ghost par: Link, ghost f: seq<Tree>) returns (ghost g: seq<Tree>, ghost ms: seq<Move>)
      requires f != [] && f[0].id == p && Unique(f) && Encodes(H(), Some(p), par, f, None)
      modifies this
      ensures Finalized(info, old(S()), S(), par, f, g, ms, true) && Settled(info, S(), f, |f| - |g| + 1)
      decreases Size(f), 3
    {
      EncodesHead(H(), At(list, p), Some(p), f[0].kids, None);
      if At(list, p).Some? {
        g, ms := FinalizeChildren(p, par, f);
      } else if p in info.sym {
        g, ms := Absorb(p, par, f);
      } else {
        g, ms := f, [];
        NothingToDo(info, S(), par, f);
        ChildrenSettled(info, S(), f);
      }
      g, ms := FlattenChildren(p, par, f, g, ms, old(S()));
    }

    // The entries below `p` get their conditions and are finalised.
    method FinalizeChildren(p: Id, ghost par: Link, ghost f: seq<Tree>)
      returns (ghost g: seq<Tree>, ghost ms: seq<Move>)
      requires f != [] && f[0].id == p && Unique(f) && Encodes(H(), Some(p), par, f, None) && f[0].kids != []
      modifies this
      ensures Finalized(info, old(S()), S(), par, f, g, ms, false) && Settled(info, S(), f, |f| - |g| + 1)
      decreases Size(f), 2
    {
      SplitHead(H(), Some(p), par, f);
      ghost var s, kids := S(), f[0].kids;
      Propagate(p, kids);
      ghost var t := S();
      ghost var kids';
      kids', ms := FinalizeList(p, kids);
      g := [Tree(p, kids')] + f[1..];
      ChildrenDone(info, s, t, S(), par, f, kids', ms);
      ChildrenSettled(info, S(), f);
    }

    method FinalizeList(p: Id, ghost kids: seq<Tree>) returns (ghost a: seq<Tree>, ghost ms: seq<Move>)
      requires Encodes(H(), At(list, p), Some(p), kids, None) && Unique(kids) && p !in Ids(kids)
      modifies this
      ensures Encodes(H(), At(list, p), Some(p), a, None) && SameEntries(kids, a) && FlatBelow(info, a)
      ensures SameOutside(old(H()), H(), Ids(kids)) && Progress(info, old(S()), S(), kids, Ids(kids), ms)
      ensures Placed(info, C(), parent, kids)
      decreases Size(kids), 5
    {
      hide Encodes, SameEntries, FlatBelow, Progress, SameOutside, Ids, Unique, Listed, Settled, Placed;
      ghost var s := S();
      ListStart(info, s, p, kids);
      Started(info, s, kids);
      a, ms := [], [];
      ghost var b := kids;
      var menu := At(list, p);
      EncodesHead(H(), menu, Some(p), b, None);
      while menu.Some?
        invariant Listed(info, s, S(), p, kids, a, b, ms) && menu == Head(b, None) && Size(b) <= Size(kids)
        invariant Settled(info, S(), kids, |kids| - |b|)
        decreases Size(b)
      {
        a, b, ms := FinalizeNext(menu.value, p, kids, a, b, ms, s);
        menu := At(next, menu.value);
      }
      ListEnd(info, s, S(), p, kids, a, ms);
      AllSettled(info, S(), kids);
    }

    // One turn: the entry at the head of `b0` is finalised and passed.
    method FinalizeNext(
      e: Id, p: Id, ghost kids: seq<Tree>, ghost a0: seq<Tree>, ghost b0: seq<Tree>, ghost ms0: seq<Move>,
      ghost s: State)
      returns (ghost a: seq<Tree>, ghost b: seq<Tree>, ghost ms: seq<Move>)
      requires Listed(info, s, S(), p, kids, a0, b0, ms0) && b0 != [] && b0[0].id == e
      requires Unique(kids) && p !in Ids(kids) && Settled(info, S(), kids, |kids| - |b0|)
      modifies this
      ensures Listed(info, s, S(), p, kids, a, b, ms) && At(next, e) == Head(b, None) && Size(b) < Size(b0)
      ensures Settled(info, S(), kids, |kids| - |b|)
      decreases Size(b0), 4
    {
      hide Finalized, Listed, Encodes, Unique, Ids, Size, Settled;
      ghost var t := S();
      ListedTail(info, s, t, p, kids, a0, b0, ms0);
      ghost var c, ns;
      c, ns := Finalize(e, Some(p), b0);
      FinalizedHead(info, t, S(), Some(p), b0, c, ns, true);
      ListStep(info, s, t, S(), p, kids, a0, b0, c, ms0, ns);
      ListSettled(info, t, S(), Some(p), kids, |kids| - |b0|, c, ns);
      a, b, ms := a0 + [c[0]], c[1..], ms0 + ns;
    }

    // ----- automatic submenus -----

    // Following siblings of a symbol without entries below it become its submenu as long as they pass the test.
    method Absorb(p: Id, ghost par: Link, ghost f: seq<Tree>) returns (ghost g: seq<Tree>, ghost ms: seq<Move>)
      requires f != [] && f[0].id == p && Unique(f) && Encodes(H(), Some(p), par, f, None)
      requires p in info.sym && f[0].kids == []
      modifies this
      ensures Finalized(info, old(S()), S(), par, f, g, ms, false) && Settled(info, S(), f, |f| - |g| + 1)
      decreases Size(f), 2
    {
      hide SameOutside, Encodes, SameEntries, Unique, Ids, Size, Absorbing, Su.JoinsSubmenu, Finalized;
      hide Settled, Gathered;
      ghost var s := S();
      AbsorbStart(info, s, p, par, f);
      GatherStart(info, s, f);
      var promptDep := PromptOf(info, C(), p);
      var last: Link := None;
      var menu := At(next, p);
      ghost var m, b := [], f[1..];
      ms := [];
      while menu.Some? && Su.JoinsSubmenu(info.sym[p], promptDep, CondOf(info, C(), menu.value))
        invariant Absorbing(info, s, S(), p, par, f, m, b, ms) && menu == Head(b, None) && Size(b) < Size(f)
        invariant last == (if m == [] then None else Some(m[|m| - 1].id))
        invariant last.Some? ==> At(next, last.value) == Head(b, None)
        invariant promptDep == PromptOf(info, C(), p) && Gathered(info, S(), f, |f| - |b|)
        decreases Size(b)
      {
        m, b, ms := AbsorbNext(menu.value, p, par, f, m, b, ms, s);
        last := menu;
        menu := At(next, menu.value);
      }
      ghost var t := S();
      if last.Some? {
        Splice(p, last.value, par, f, m, b, ms, s);
      }
      g := [Tree(p, m)] + b;
      AbsorbEnd(info, s, t, S(), p, par, f, m, b, ms);
      AbsorbingSuffix(info, s, t, p, par, f, m, b, ms);
      GatherEnd(info, t, S(), f, |f| - |b|);
    }

    method AbsorbNext(
      e: Id, p: Id, ghost par: Link, ghost f: seq<Tree>, ghost m0: seq<Tree>, ghost b0: seq<Tree>,
      ghost ms0: seq<Move>, ghost s: State)
      returns (ghost m: seq<Tree>, ghost b: seq<Tree>, ghost ms: seq<Move>)
      requires f != [] && Unique(f) && Absorbing(info, s, S(), p, par, f, m0, b0, ms0) && b0 != [] && b0[0].id == e
      requires p in info.sym && Su.JoinsSubmenu(info.sym[p], PromptOf(info, C(), p), CondOf(info, C(), e))
      requires f[0].id == p && Gathered(info, S(), f, |f| - |b0|)
      modifies this
      ensures Absorbing(info, s, S(), p, par, f, m, b, ms) && m != [] && m[|m| - 1].id == e
      ensures At(next, e) == Head(b, None) && Size(b) < Size(b0)
        && PromptOf(info, C(), p) == PromptOf(info, old(C()), p)
      ensures Gathered(info, S(), f, |f| - |b|)
      decreases Size(b0), 4
    {
      hide Finalized, Absorbing, Encodes, Unique, Su.JoinsSubmenu, Ids, Size, PromptOf, CondOf, Settled, Gathered;
      ghost var t := S();
      AbsorbingTail(info, s, t, p, par, f, m0, b0, ms0);
      ghost var c, ns;
      c, ns := Finalize(e, par, b0);
      ghost var u := S();
      FinalizedHead(info, t, u, par, b0, c, ns, true);
      FinalizedAbove(info, t, u, par, b0, c, ns, true, p);
      AbsorbStep(info, s, t, u, p, par, f, m0, b0, c, ms0, ns);
      AbsorbingSuffix(info, s, t, p, par, f, m0, b0, ms0);
      GatherStep(info, t, u, par, f, |f| - |b0|, c, ns);
      parent := parent[e := Some(p)];
      m, b, ms := m0 + [c[0]], c[1..], ms0 + ns + [Move(e, p, Joined)];
      assert S() == State(SetParent(u.h, e, Some(p)), u.c);
    }

    // parent->list = parent->next; parent->next = last_menu->next; last_menu->next = NULL
    method Splice(
      p: Id, last: Id, ghost par: Link, ghost f: seq<Tree>, ghost m: seq<Tree>, ghost b: seq<Tree>,
      ghost ms: seq<Move>, ghost s: State)
      requires f != [] && Absorbing(info, s, S(), p, par, f, m, b, ms) && m != []
      requires m[|m| - 1].id == last && At(next, last) == Head(b, None)
      modifies this`next, this`list
      ensures Encodes(H(), At(list, p), Some(p), m, None) && At(next, p) == Head(b, None)
      ensures Encodes(H(), Head(b, None), par, b, None)
      ensures SameOutside(old(H()), H(), {p} + Ids(f[1..]))
    {
      ghost var h := H();
      SpliceAll(h, p, last, par, f[1..], m, b);
      hide Encodes, Absorbing, SameOutside;
      list := list[p := At(next, p)];
      next := next[p := At(next, last)];
      next := next[last := None];
      assert H() == SetNext(SetNext(SetList(h, p, At(h.next, p)), p, Head(b, None)), last, None);
    }

    // ----- entries without a prompt do not keep entries below them -----

    method FlattenChildren(
      p: Id, ghost par: Link, ghost f: seq<Tree>, ghost g0: seq<Tree>, ghost ms0: seq<Move>, ghost s: State)
      returns (ghost g: seq<Tree>, ghost ms: seq<Move>)
      requires f != [] && f[0].id == p && Unique(f) && Finalized(info, s, S(), par, f, g0, ms0, false)
      requires Settled(info, S(), f, |f| - |g0| + 1)
      modifies this`next, this`list, this`parent
      ensures Finalized(info, s, S(), par, f, g, ms, true) && Settled(info, S(), f, |f| - |g| + 1)
    {
      hide Finalized, Encodes, Unique, Ids, Settled, NoneLeaves, Flat, FlatBelow, SameEntries, SameOutside, Progress;
      ghost var t := S();
      FinalizedKids(info, s, t, par, f, g0, ms0);
      ghost var kids, ns;
      kids, ns := FlattenList(p, g0[0].kids);
      g, ms := [Tree(p, kids)] + g0[1..], ms0 + ns;
      FlattenDone(info, s, t, S(), par, f, g0, kids, ms0, ns);
      FlattenSettled(info, t, S(), f, |f| - |g0| + 1);
    }

    method FlattenList(p: Id, ghost kids: seq<Tree>) returns (ghost a: seq<Tree>, ghost ms: seq<Move>)
      requires Encodes(H(), At(list, p), Some(p), kids, None) && Unique(kids) && p !in Ids(kids)
      requires FlatBelow(info, kids)
      modifies this`next, this`list, this`parent
      ensures Encodes(H(), At(list, p), Some(p), a, None) && SameEntries(kids, a) && Flat(info, a)
      ensures SameOutside(old(H()), H(), Ids(kids)) && Progress(info, old(S()), S(), [], {p} + Ids(kids), ms)
      ensures NoneLeaves(info, old(parent), parent)
    {
      hide Encodes, SameEntries, FlatBelow, Flat, Progress, SameOutside, Ids, Unique, Flattening;
      ghost var s := S();
      FlattenStart(info, s, p, kids);
      a, ms := [], [];
      ghost var b := kids;
      var menu := At(list, p);
      EncodesHead(H(), menu, Some(p), b, None);
      while menu.Some?
        invariant Flattening(info, s, S(), p, kids, a, b, ms) && menu == Head(b, None)
        invariant NoneLeaves(info, s.h.parent, parent)
        decreases Size(b)
      {
        a, b, ms := FlattenNext(menu.value, p, kids, a, b, ms, s);
        menu := At(next, menu.value);
      }
      FlattenEnd(info, s, S(), p, kids, a, ms);
    }

    method FlattenNext(
      e: Id, p: Id, ghost kids: seq<Tree>, ghost a0: seq<Tree>, ghost b0: seq<Tree>, ghost ms0: seq<Move>,
      ghost s: State)
      returns (ghost a: seq<Tree>, ghost b: seq<Tree>, ghost ms: seq<Move>)
      requires Flattening(info, s, S(), p, kids, a0, b0, ms0) && b0 != [] && b0[0].id == e
      modifies this`next, this`list, this`parent
      ensures Flattening(info, s, S(), p, kids, a, b, ms) && At(next, e) == Head(b, None) && Size(b) < Size(b0)
      ensures NoneLeaves(info, old(parent), parent)
    {
      hide Flattening, Progress, Flat, FlatBelow, SameEntries, SameOutside, Ids, Unique, Encodes, Size;
      ghost var t := S();
      FlatteningTail(info, s, t, p, kids, a0, b0, ms0);
      ghost var c, ns := b0, [];
      if At(list, e).Some? && e !in info.prompt {
        c, ns := Lift(e, p, b0);
      } else {
        NotLifted(info, t, p, b0);
      }
      FlattenStep(info, s, t, S(), p, kids, a0, b0, c, ms0, ns);
      a, b, ms := a0 + [c[0]], c[1..], ms0 + ns;
    }

    // The entries below `e` become its following siblings.
    method Lift(e: Id, p: Id, ghost b: seq<Tree>) returns (ghost c: seq<Tree>, ghost ms: seq<Move>)
      requires b != [] && b[0].id == e && Encodes(H(), Some(e), Some(p), b, None) && Unique(b) && At(list, e).Some?
      requires e !in info.prompt
      modifies this`next, this`list, this`parent
      ensures c == [Tree(e, [])] + (b[0].kids + b[1..]) && SameEntries(b, c)
      ensures Encodes(H(), Some(e), Some(p), c, None) && SameOutside(old(H()), H(), Ids(b))
      ensures Progress(info, old(S()), S(), [], {p} + Ids(b), ms) && NoneLeaves(info, old(parent), parent)
    {
      ghost var s, ks, rest := S(), b[0].kids, b[1..];
      SplitHead(s.h, Some(e), Some(p), b);
      EncodesHead(s.h, At(list, e), Some(e), ks, None);
      EncodesHead(s.h, At(next, e), Some(p), rest, None);
      var last;
      last, ms := Reparent(At(list, e).value, e, p, ks);
      ghost var h := H();
      hide Encodes, Ids, Unique, SameOutside, SameEntries, Progress, Justified, Mentions, Replay, NoneLeaves;
      next := next[last := At(next, e)];
      next := next[e := At(list, e)];
      list := list[e := None];
      assert H() == Relinked(h, e, last);
      c := [Tree(e, [])] + (ks + rest);
      LiftAll(s.h, h, e, last, p, b);
      LiftProgress(info, s, S(), p, b, ms);
    }

    // last_menu->parent = parent, for every entry of the list
    method Reparent(first: Id, e: Id, p: Id, ghost ks: seq<Tree>) returns (last: Id, ghost ms: seq<Move>)
      requires ks != [] && Encodes(H(), Some(first), Some(e), ks, None) && Unique(ks) && e !in Ids(ks)
      requires e !in info.prompt && At(parent, e) == Some(p)
      modifies this`parent
      ensures Encodes(H(), Some(first), Some(p), ks, None) && last == ks[|ks| - 1].id
      ensures SameOutside(old(H()), H(), Ids(ks))
      ensures parent == Replay(old(parent), ms) && Justified(info, C(), old(parent), ms)
      ensures Mentions(ms, {p} + Ids(ks)) && NoneLeaves(info, old(parent), parent)
    {
      hide Lifting, Encodes, Unique, Ids, SameOutside, Replay, Justified, Mentions, NoneLeaves;
      last, ms := first, [];
      ghost var h, a, b := H(), [], ks;
      LiftingStart(info, C(), h, first, e, p, ks);
      while true
        invariant a + b == ks && Lifting(info, C(), h, H(), first, last, e, p, a, b, ms)
        decreases |b|
      {
        ghost var k := H();
        LiftingStep(info, C(), h, k, first, last, e, p, a, b, ms);
        parent := parent[last := Some(p)];
        assert H() == SetParent(k, last, Some(p));
        ms := ms + [Move(last, p, Lifted(e))];
        if At(next, last).None? {
          LiftingEnd(info, C(), h, H(), first, last, e, p, a, b, ms);
          break;
        }
        a, b := a + [b[0]], b[1..];
        last := At(next, last).value;
      }
    }

    /** Finalising the whole menu and then walking it visits exactly the entries there were, in their order. */
    method FinalizeAndWalk(root: Id, ghost kids: seq<Tree>)
      returns (visited: seq<Id>, ghost g: seq<Tree>, ghost ms: seq<Move>)
      requires Unique([Tree(root, kids)]) && Encodes(H(), At(list, root), Some(root), kids, None)
      requires At(next, root) == None && At(parent, root) == None
      modifies this
      ensures visited == Preorder(kids)
      ensures Finalized(info, old(S()), S(), None, [Tree(root, kids)], [Tree(root, g)], ms, true)
      ensures Dependants(info, C(), parent, kids)
    {
      ghost var f := [Tree(root, kids)];
      assert f[1..] == [];
      ghost var gs;
      gs, ms := Finalize(root, None, f);
      g := gs[0].kids;
      assert gs == [Tree(root, g)];
      assert Preorder(f) == [root] + Preorder(kids) && Preorder(gs) == [root] + Preorder(g) by {
        assert gs[1..] == [] && Preorder(gs[1..]) == [];
      }
      assert f[..1] == f;
      DependantsPlaced(info, C(), parent, kids);
      EncodesHead(H(), At(next, root), None, gs[1..], None);
      visited := Walk(root, g);
      assert Preorder(f)[1..] == Preorder(gs)[1..];
    }
  }

  // ----- the finished menu -----

  lemma FinishedTree(info: Info, s: State, t: State, root: Id, kids: seq<Tree>, g: seq<Tree>, ms: seq<Move>)
    requires Finalized(info, s, t, None, [Tree(root, kids)], [Tree(root, g)], ms, true) && root !in Ids(kids)
    ensures HandedDown(info, s.c, t.c, root, kids) && SameAt(s.c, t.c, root)
    ensures t.h.parent == Replay(s.h.parent, ms) && Justified(info, t.c, s.h.parent, ms)
    ensures Mentions(ms, {root} + Ids(kids)) && Flat(info, g)
  {
    var f := [Tree(root, kids)];
    assert f[..1] == f && f[1..] == [];
    assert Deep(f) == Ids(kids) && Ids(f) == {root} + Ids(kids);
  }

  // The conditions of a finished menu are plain again.
  lemma FinishedPlain(
    info: Info, s: State, t: State, root: Id, kids: seq<Tree>, g: seq<Tree>, ms: seq<Move>, e: Id, v: Ex.Valuation)
    requires Finalized(info, s, t, None, [Tree(root, kids)], [Tree(root, g)], ms, true) && root !in Ids(kids)
    requires Sharp(v) && PlainIn(s.c, Ids(kids), v)
    requires Fit(CondOf(info, s.c, root), v) && Fit(PromptOf(info, s.c, root), v) && e in {root} + Ids(kids)
    ensures Fit(CondOf(info, t.c, e), v) && Fit(PromptOf(info, t.c, e), v)
  {
    FinishedTree(info, s, t, root, kids, g, ms);
    hide Finalized, Fit, Sharp;
    if e != root {
      var path := PathTo(kids, e);
      ConditionMeaning(info, s.c, t.c, root, kids, path, v);
    }
  }

  /** Conditions in a finished menu: that of an entry holds exactly where the root's holds and every entry on the way
      down to it, in the menu as it was written, has its own conditions hold. */
  lemma FinishedConditions(
    info: Info, s: State, t: State, root: Id, kids: seq<Tree>, g: seq<Tree>, ms: seq<Move>, path: seq<Id>,
    v: Ex.Valuation)
    requires Finalized(info, s, t, None, [Tree(root, kids)], [Tree(root, g)], ms, true) && root !in Ids(kids)
    requires Sharp(v) && PlainIn(s.c, Ids(kids), v) && Fit(CondOf(info, s.c, root), v)
    requires IsPath(kids, path) && path != []
    ensures Holds(CondOf(info, t.c, path[|path| - 1]), v)
      <==> Holds(CondOf(info, s.c, root), v) && AllHold(info, s.c, path, v)
  {
    FinishedTree(info, s, t, root, kids, g, ms);
    hide Finalized, Fit, Sharp;
    ConditionMeaning(info, s.c, t.c, root, kids, path, v);
  }

  /** Submenus in a finished menu. An entry has the parent it had, or was lifted there out of an entry without prompt,
      or joined a symbol: then, in every valuation without m, where its condition holds the symbol is set or the
      condition of the symbol's prompt holds. */
  lemma FinishedSubmenus(
    info: Info, s: State, t: State, root: Id, kids: seq<Tree>, g: seq<Tree>, ms: seq<Move>, e: Id, v: Ex.Valuation)
    requires Finalized(info, s, t, None, [Tree(root, kids)], [Tree(root, g)], ms, true) && root !in Ids(kids)
    requires Sharp(v) && PlainIn(s.c, Ids(kids), v) && e in Ids(kids)
    requires Fit(CondOf(info, s.c, root), v) && Fit(PromptOf(info, s.c, root), v)
    ensures match LastMove(ms, e)
      case None => At(t.h.parent, e) == At(s.h.parent, e)
      case Some(Move(_, q, Lifted(out))) => At(t.h.parent, e) == Some(q) && out !in info.prompt
      case Some(Move(_, q, Joined)) =>
        && At(t.h.parent, e) == Some(q) && q in info.sym
        && ((info.sym[q].IsBoolean() || info.sym[q].IsTristate()) && Holds(CondOf(info, t.c, e), v)
            ==> Ex.TriOf(v, info.sym[q]) != Ex.NO || Holds(PromptOf(info, t.c, q), v))
  {
    FinishedTree(info, s, t, root, kids, g, ms);
    LastMoveParent(s.h.parent, ms, e);
    if LastMove(ms, e).Some? {
      var m := LastMove(ms, e).value;
      var n := LastMoveOk(info, t.c, s.h.parent, ms, e);
      if m.how.Joined? && (info.sym[m.to].IsBoolean() || info.sym[m.to].IsTristate()) {
        LastMoveMentioned(ms, e);
        FinishedPlain(info, s, t, root, kids, g, ms, e, v);
        FinishedPlain(info, s, t, root, kids, g, ms, m.to, v);
        if Holds(CondOf(info, t.c, e), v) {
          Su.SubmenuSound(info.sym[m.to], PromptOf(info, t.c, m.to), CondOf(info, t.c, e), v);
        }
      }
    }
  }
}
