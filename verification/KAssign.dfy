/** Setting a user value in kconfiglib and reading it back. */
module KAssign {
  import opened Wrappers
  import opened Expr
  import opened KExpr
  import opened KSemantics
  import opened KDependents
  import opened KCache
  import opened KValueLaws
  import L = ValueLaws

  /** What set_user_value takes: y and n for a boolean, also m for a tristate, any text for a string, numbers for the
      rest. It ignores the call otherwise, and for a special symbol. */
  lemma TakenLaw(k: KConf, u: Users, s: Name, v: string)
    ensures var taken := s !in k.fixed
        && (match SymOf(k, s).ty
            case KBool => v == "y" || v == "n"
            case KTristate => v == "y" || v == "m" || v == "n"
            case KString => true
            case KInt => k.parse(v, 10).Some?
            case KHex => k.parse(v, 16).Some?
            case KUnknown => false);
      && (!taken ==> AssignUser(k, u, s, v) == u)
      && (taken ==> s in AssignUser(k, u, s, v).sym && AssignUser(k, u, s, v).sym[s] == v)
      && forall t :: t != s ==> SameUser(u, AssignUser(k, u, s, v), t)
  {
  }

  /** Setting a symbol of a choice to y picks it and puts the choice in mode y; setting it to m drops the pick and puts
      the choice in mode m; setting it to n leaves the choice alone. No other choice changes. */
  lemma PickedLaw(k: KConf, u: Users, s: Name, v: string, c: ChoiceId)
    requires KValueLaws.MemberOf(k, c, s)
    ensures var u' := AssignUser(k, u, s, v);
      && (v == "y" ==> c in u'.pick && u'.pick[c] == s && c in u'.mode && u'.mode[c] == YES)
      && (v == "m" && SymOf(k, s).ty == KTristate ==> c !in u'.pick && c in u'.mode && u'.mode[c] == MOD)
      && (v == "n" ==> SameChoiceUser(u, u', c))
      && forall x :: x != c ==> SameChoiceUser(u, u', x)
  {
  }

  /** Unsetting takes the user's part away from a symbol and from its choice, and from nothing else. */
  lemma UnsetLaw(k: KConf, u: Users, s: Name)
    ensures var u' := UnassignUser(k, u, s);
      && s !in u'.sym && (forall t :: t != s ==> SameUser(u, u', t))
      && (forall c: ChoiceId :: SymOf(k, s).choice == Some(c) ==> c !in u'.pick && c !in u'.mode)
      && forall c: ChoiceId :: SymOf(k, s).choice != Some(c) ==> SameChoiceUser(u, u', c)
  {
  }

  lemma Undone(k: KConf, u: Users, s: Name, v: string)
    requires s !in u.sym
    requires var c := SymOf(k, s).choice; c.Some? ==> c.value !in u.pick && c.value !in u.mode
    ensures UnassignUser(k, AssignUser(k, u, s, v), s) == u
  {
    hide ValidFor;
  }

  /** As if the symbol had never been given a user value: setting and unsetting leaves every value as it was. */
  lemma SetThenUnset(
    k: KConf, rank: Name -> nat, top: nat, u: Users, s: Name, v: string, w: World, w': World, t: Name)
    requires WellFormed(k) && Acyclic(k, rank, top) && UsersOk(k, u) && s !in u.sym
    requires var c := SymOf(k, s).choice; c.Some? ==> c.value !in u.pick && c.value !in u.mode
    requires Solution(k, u, w) && Solution(k, UnassignUser(k, AssignUser(k, u, s, v), s), w')
    ensures UnassignUser(k, AssignUser(k, u, s, v), s) == u && w'.val(t) == w.val(t)
  {
    hide Solution, WellFormed, Acyclic, UsersOk, AssignUser, UnassignUser;
    Undone(k, u, s, v);
    SolutionUnique(k, u, rank, top, w, w', t);
  }

  // What a changed user value can affect lies above the symbol.
  lemma {:induction false} AffectedAbove(k: KConf, rank: Name -> nat, top: nat, s: Name, y: Name)
    requires WellFormed(k) && Acyclic(k, rank, top) && y in Affected(k, rank, top, s) && s in k.syms
    ensures y in k.syms && Height(rank, top, y) <= Height(rank, top, s)
    decreases Height(rank, top, s)
  {
    var m, direct := AffectedFrom(k, rank, top, s, y);
    if m != s {
      SiblingRank(k, rank, top, s, m);
    }
    if !direct {
      var t := IgnoringFrom(k, rank, top, m, y);
      DepOfHigher(k, rank, top, m, t);
      AffectedAbove(k, rank, top, t, y);
    }
  }

  lemma ReadsUnaffected(k: KConf, rank: Name -> nat, top: nat, s: Name, x: Name)
    requires WellFormed(k) && Acyclic(k, rank, top) && s in k.syms && x in Reads(k, s)
    ensures x !in Affected(k, rank, top, s)
  {
    ReadsLower(k, rank, top, s, x);
    assert rank(s) <= top;
    if x in Affected(k, rank, top, s) {
      AffectedAbove(k, rank, top, s, x);
    }
  }

  lemma ReadsSame(k: KConf, rank: Name -> nat, top: nat, u: Users, u': Users, w: World, w': World, s: Name)
    requires WellFormed(k) && Acyclic(k, rank, top) && UsersOk(k, u) && Solution(k, u, w) && Solution(k, u', w')
    requires UsersDifferIn(k, u, u', Affected(k, rank, top, s)) && w.mods == w'.mods && s in k.syms
    ensures Agree(Reads(k, s), w, w')
  {
    hide Affected, ClosedUnder, UsersDifferIn, Acyclic, WellFormed, UsersOk, Reads, Vis, PartsAgree;
    var a := Affected(k, rank, top, s);
    AffectedClosed(k, rank, top, s);
    forall x | x in Reads(k, s) ensures w.val(x) == w'.val(x) && w.tri(x) == w'.tri(x) {
      ReadsUnaffected(k, rank, top, s, x);
      Unaffected(k, u, u', rank, top, w, w', a, x);
      assert w.tri(x) == IsTri(k, x) == w'.tri(x);
    }
  }

  // What a symbol makes of its surroundings does not depend on its own user value.
  lemma OwnPartsSame(k: KConf, w: World, w': World, s: Name)
    requires Agree(Reads(k, s), w, w')
    ensures Vis(k, w, s) == Vis(k, w', s) && Eval2(SymOf(k, s).revDep, w) == Eval2(SymOf(k, s).revDep, w')
  {
    hide Vis, Eval2;
    VisAgree(k, w, w', s);
    Eval2Agree(SymOf(k, s).revDep, w, w');
  }

  lemma ModulesPartsSame(k: KConf, w: World, w': World)
    requires WellFormed(k)
    ensures Vis(k, w, Modules) == Vis(k, w', Modules)
    ensures Eval2(SymOf(k, Modules).revDep, w) == Eval2(SymOf(k, Modules).revDep, w') != MOD
  {
    ModulesParts(SymOf(k, Modules), w, w');
  }

  // The value lies between what is selected and what the prompt offers, and m is a value of the symbol.
  ghost predicate InRange(k: KConf, w: World, s: Name, v: string) {
    && Plain2(k, s) && (v == "n" || v == "m" || v == "y") && Vis(k, w, s) != NO
    && (v == "m" ==> w.mods && SymOf(k, s).ty == KTristate)
    && Held(Some(SymOf(k, s).revDep), w) <= LetterTri(v) <= Vis(k, w, s)
  }

  lemma PartsKept(
    k: KConf, rank: Name -> nat, top: nat, u: Users, w: World, w': World, s: Name, v: string)
    requires WellFormed(k) && Acyclic(k, rank, top) && UsersOk(k, u) && Solution(k, u, w) && s in k.syms
    requires Solution(k, AssignUser(k, u, s, v), w')
    ensures Vis(k, w, s) == Vis(k, w', s) && Eval2(SymOf(k, s).revDep, w) == Eval2(SymOf(k, s).revDep, w')
    ensures s == Modules ==> Eval2(SymOf(k, s).revDep, w) != MOD
    ensures s != Modules ==> w.mods == w'.mods
  {
    hide Solution, Acyclic, WellFormed, UsersOk, Vis, Eval2, Affected, UsersDifferIn, SameUser, AssignUser;
    var u' := AssignUser(k, u, s, v);
    AssignUserOk(k, rank, top, u, s, v);
    if s == Modules {
      ModulesPartsSame(k, w, w');
    } else {
      ModsEqual(k, u, u', w, w');
      ReadsSame(k, rank, top, u, u', w, w', s);
      OwnPartsSame(k, w, w', s);
    }
  }

  lemma AssignedValue(
    k: KConf, rank: Name -> nat, top: nat, u: Users, w: World, w': World, s: Name, v: string)
    requires WellFormed(k) && Acyclic(k, rank, top) && UsersOk(k, u) && Solution(k, u, w)
    requires Solution(k, AssignUser(k, u, s, v), w') && InRange(k, w, s, v)
    ensures w'.val(s) == v
  {
    var u' := AssignUser(k, u, s, v);
    PartsKept(k, rank, top, u, w, w', s, v);
    ValueAt1(k, u', w', s);
    hide Solution, Acyclic, WellFormed, UsersOk, Value, Vis, Affected;
    PlainUser(k, u', w', s);
  }

  /** An accepted user value takes effect: get_value after set_user_value returns it. */
  method SetThenGet(config: Configuration, s: Name, v: string) returns (val: string)
    requires config.Valid() && InRange(config.k, config.w, s, v)
    modifies config
    ensures config.Valid() && val == v
  {
    hide Solution, Acyclic, WellFormed, UsersOk, CachesOk, DepsOk, InRange, AssignUser;
    ghost var u, w := config.U(), config.w;
    config.SetUserValue(s, v);
    AssignedValue(config.k, config.rank, config.top, u, w, config.w, s, v);
    val := config.GetValue(s);
  }
}
