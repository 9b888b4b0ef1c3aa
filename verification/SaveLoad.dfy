/** Saving a minimal configuration along the menu, reading it back and resolving again. */
module SaveLoad {
  import opened Wrappers
  import opened Expr
  import opened Semantics
  import opened Resolver
  import opened Defconfig
  import opened Forest
  import opened MenuTree

  // The symbols of the entries in walking order; other entries have none.
  function SymbolsOf(sym: map<Id, Symbol>, ids: seq<Id>): (es: seq<Option<Symbol>>)
    ensures |es| == |ids|
    ensures forall i :: 0 <= i < |ids| ==> es[i] == if ids[i] in sym then Some(sym[ids[i]]) else None
  {
    seq(|ids|, i requires 0 <= i < |ids| => if ids[i] in sym then Some(sym[ids[i]]) else None)
  }

  // Every defined symbol has an entry in the menu.
  ghost predicate AllListed(k: Kconfig, sym: map<Id, Symbol>, kids: seq<Tree>) {
    forall s :: s in k.defs ==> exists e :: e in Preorder(kids) && e in sym && sym[e] == s
  }

  lemma AllInEntries(k: Kconfig, sym: map<Id, Symbol>, kids: seq<Tree>)
    requires AllListed(k, sym, kids)
    ensures forall s :: s in k.defs ==> Some(s) in SymbolsOf(sym, Preorder(kids))
  {
    var ids := Preorder(kids);
    forall s | s in k.defs ensures Some(s) in SymbolsOf(sym, ids) {
      var e :| e in ids && e in sym && sym[e] == s;
      var i :| 0 <= i < |ids| && ids[i] == e;
      assert SymbolsOf(sym, ids)[i] == Some(s);
    }
  }

  method Resolve(table: SymbolTable, s: Symbol) returns (val: SymValue)
    requires table.Valid() && table.busy == {}
    modifies table
    ensures table.Valid() && table.busy == {} && table.user == old(table.user)
    ensures val == Value(table.k, table.user, table.rank, s)
  {
    table.CalcValue(s);
    table.Memoised(s);
    val := table.fields[s].curr;
  }

  method ResolveAll(table: SymbolTable, entries: seq<Option<Symbol>>) returns (vals: seq<SymValue>)
    requires table.Valid() && table.busy == {}
    modifies table
    ensures table.Valid() && table.user == old(table.user) && |vals| == |entries|
    ensures forall i :: 0 <= i < |entries| && entries[i].Some? ==>
      vals[i] == Value(table.k, table.user, table.rank, entries[i].value)
  {
    hide Value;
    vals := [];
    for i := 0 to |entries|
      invariant table.Valid() && table.busy == {} && table.user == old(table.user) && |vals| == i
      invariant forall j :: 0 <= j < i && entries[j].Some? ==>
        vals[j] == Value(table.k, table.user, table.rank, entries[j].value)
    {
      var val := SymValue("", NO);
      if entries[i].Some? {
        val := Resolve(table, entries[i].value);
      }
      vals := vals + [val];
    }
  }

  // Every entry of the menu shows the value its symbol had.
  ghost predicate AllBack(
    k: Kconfig, u: UserValues, rank: Symbol -> nat, entries: seq<Option<Symbol>>, vals: seq<SymValue>)
    requires |vals| == |entries|
  {
    forall i :: 0 <= i < |entries| && entries[i].Some? ==> vals[i] == Value(k, u, rank, entries[i].value)
  }

  /** The walk of the menu, the minimal configuration written along it, read back into a new table and resolved: every
      entry shows the value its symbol had exactly when no symbol is stuck. */
  method SaveAndReload(menus: Menus, root: Id, ghost kids: seq<Tree>, table: SymbolTable)
    returns (entries: seq<Option<Symbol>>, vals: seq<SymValue>, reloaded: SymbolTable)
    requires Encodes(menus.H(), At(menus.list, root), Some(root), kids, None)
    requires At(menus.next, root) == None && At(menus.parent, root) == None
    requires table.Valid() && table.busy == {} && AllListed(table.k, menus.info.sym, kids)
    modifies table
    ensures entries == SymbolsOf(menus.info.sym, Preorder(kids)) && |vals| == |entries|
    ensures reloaded.Valid() && reloaded.k == table.k && reloaded.rank == table.rank
    ensures reloaded.user == Minimal(table.k, old(table.user), table.rank)
    ensures AllBack(table.k, old(table.user), table.rank, entries, vals)
      <==> forall s :: !StuckIn(table.k, old(table.user), table.rank, s)
  {
    hide Value, Minimal, Values, SavedLines, ReadLines, AllListed;
    ghost var u := table.user;
    var ids := menus.Walk(root, kids);
    entries := SymbolsOf(menus.info.sym, ids);
    var lines := WriteDefconfig(table, entries);
    AllInEntries(table.k, menus.info.sym, kids);
    ReadBackMinimal(table.k, u, table.rank, entries);
    reloaded := new SymbolTable(table.k, table.modulesSym, ReadLines(lines), table.rank);
    vals := ResolveAll(reloaded, entries);
    BackExactly(table.k, u, table.rank, entries, vals);
  }

  lemma BackExactly(
    k: Kconfig, u: UserValues, rank: Symbol -> nat, entries: seq<Option<Symbol>>, vals: seq<SymValue>)
    requires Acyclic(k, rank) && |vals| == |entries| && forall s :: s in k.defs ==> Some(s) in entries
    requires forall i :: 0 <= i < |entries| && entries[i].Some? ==>
      vals[i] == Value(k, Minimal(k, u, rank), rank, entries[i].value)
    ensures AllBack(k, u, rank, entries, vals) <==> forall s :: !StuckIn(k, u, rank, s)
  {
    hide Value, Minimal, StuckIn;
    RoundTrip(k, u, rank);
    if AllBack(k, u, rank, entries, vals) {
      forall s ensures Value(k, Minimal(k, u, rank), rank, s) == Value(k, u, rank, s) {
        if s in k.defs {
          var i :| 0 <= i < |entries| && entries[i] == Some(s);
        } else {
          UndefinedSame(k, u, Minimal(k, u, rank), rank, s);
        }
      }
    } else if forall s :: !StuckIn(k, u, rank, s) {
      var i :| 0 <= i < |entries| && entries[i].Some? && vals[i] != Value(k, u, rank, entries[i].value);
      assert Value(k, Minimal(k, u, rank), rank, entries[i].value) == Value(k, u, rank, entries[i].value);
      assert false;
    }
  }

  // A symbol that is not defined has the same value whatever the user says.
  lemma UndefinedSame(k: Kconfig, u: UserValues, w: UserValues, rank: Symbol -> nat, s: Symbol)
    requires s !in k.defs
    ensures Value(k, u, rank, s) == Value(k, w, rank, s)
  {
    assert PromptMax(NoDef.prompts, 0, Below(k, u, rank, rank(s))) == NO;
    assert PromptMax(NoDef.prompts, 0, Below(k, w, rank, rank(s))) == NO;
  }
}
