/** sym_check_deps: depth-first search for recursive dependencies, without choices. */
module CycleCheck {
  import opened Wrappers
  import opened Expr
  import opened Semantics

  datatype PropKind = PromptProp | DefaultProp | SelectProp | OtherProp

  datatype Prop = Prop(kind: PropKind, visible: Option<Expr>, expr: Option<Expr>)

  datatype Node = Node(revDep: Option<Expr>, props: seq<Prop>)

  // All symbols, constants included.
  type Graph = map<Symbol, Node>

  // The symbols explored for one property
  function PropSyms(p: Prop): set<Symbol> {
    if p.kind.SelectProp? then {}
    else SymsOpt(p.visible) + if p.kind.DefaultProp? then SymsOpt(p.expr) else {}
  }

  // What is explored for the reverse dependency and the first `n` properties.
  function Explored(node: Node, n: nat): set<Symbol>
    requires n <= |node.props|
  {
    if n == 0 then SymsOpt(node.revDep) else Explored(node, n - 1) + PropSyms(node.props[n - 1])
  }

  /** The relation the check explores: reverse dependency, conditions and default values. */
  function Succ(g: Graph, s: Symbol): set<Symbol>
    requires s in g
  {
    Explored(g[s], |g[s].props|)
  }

  ghost predicate Closed(g: Graph) {
    forall s {:trigger Succ(g, s)} :: s in g ==> Succ(g, s) <= g.Keys
  }

  function Elements(xs: seq<Symbol>): set<Symbol> {
    if xs == [] then {} else Elements(xs[..|xs| - 1]) + {xs[|xs| - 1]}
  }

  ghost predicate IsPath(g: Graph, p: seq<Symbol>) {
    p == [] ||
    var n := |p| - 1;
    IsPath(g, p[..n]) && p[n] in g && (n > 0 ==> p[n - 1] in g && p[n] in Succ(g, p[n - 1]))
  }

  ghost predicate IsCycle(g: Graph, p: seq<Symbol>) {
    p != [] && IsPath(g, p) && p[0] in Succ(g, p[|p| - 1])
  }

  // An order in which every symbol comes after the symbols it explores.
  ghost predicate Topological(g: Graph, order: seq<Symbol>) {
    order == [] ||
    var n := |order| - 1;
    Topological(g, order[..n]) && order[n] in g && Succ(g, order[n]) <= Elements(order[..n])
  }

  lemma {:induction false} ElementsAt(xs: seq<Symbol>, x: Symbol) returns (i: nat)
    requires x in Elements(xs)
    ensures i < |xs| && xs[i] == x
  {
    var n := |xs| - 1;
    if xs[n] == x {
      i := n;
    } else {
      i := ElementsAt(xs[..n], x);
    }
  }

  lemma {:induction false} ElementsHas(xs: seq<Symbol>, i: nat)
    requires i < |xs|
    ensures xs[i] in Elements(xs)
  {
    if i < |xs| - 1 {
      ElementsHas(xs[..|xs| - 1], i);
    }
  }

  // The explored symbols of an entry lie before it.
  lemma {:induction false} TopologicalAt(g: Graph, order: seq<Symbol>, i: nat, t: Symbol) returns (j: nat)
    requires Topological(g, order) && i < |order| && order[i] in g && t in Succ(g, order[i])
    ensures j < i && order[j] == t
  {
    var n := |order| - 1;
    if i == n {
      j := ElementsAt(order[..n], t);
    } else {
      j := TopologicalAt(g, order[..n], i, t);
    }
  }

  // Following a path goes down in the order.
  lemma {:induction false} PathDescends(g: Graph, order: seq<Symbol>, p: seq<Symbol>, i: nat) returns (j: nat)
    requires Topological(g, order) && IsPath(g, p) && p != [] && i < |order| && order[i] == p[0]
    ensures j <= i && order[j] == p[|p| - 1]
  {
    var n := |p| - 1;
    if n == 0 {
      j := i;
    } else {
      var m := PathDescends(g, order, p[..n], i);
      var m' := TopologicalAt(g, order, m, p[n]);
      j := m';
    }
  }

  // A cycle would go down for ever.
  lemma {:induction false} CycleInTopological(g: Graph, order: seq<Symbol>, p: seq<Symbol>, i: nat)
    requires Topological(g, order) && IsCycle(g, p) && i < |order| && order[i] == p[0]
    ensures false
    decreases i
  {
    var j := PathDescends(g, order, p, i);
    var m := TopologicalAt(g, order, j, p[0]);
    CycleInTopological(g, order, p, m);
  }

  lemma NoCycle(g: Graph, order: seq<Symbol>)
    requires Topological(g, order) && Elements(order) == g.Keys
    ensures !exists p :: IsCycle(g, p)
  {
    if p :| IsCycle(g, p) {
      PathInGraph(g, p);
      var i := ElementsAt(order, p[0]);
      CycleInTopological(g, order, p, i);
    }
  }

  lemma {:induction false} PathInGraph(g: Graph, p: seq<Symbol>)
    requires IsPath(g, p) && p != []
    ensures p[0] in g
  {
    if |p| > 1 {
      PathInGraph(g, p[..|p| - 1]);
    }
  }

  lemma {:induction false} PathSuffix(g: Graph, p: seq<Symbol>, i: nat)
    requires IsPath(g, p) && i <= |p|
    ensures IsPath(g, p[i..])
  {
    var n := |p| - 1;
    if i < n {
      PathSuffix(g, p[..n], i);
      assert p[i..][..n - i] == p[..n][i..];
    } else if i == n {
      assert p[i..][..0] == [];
    }
  }

  // ----- from a clean check to the order in which symbols can be evaluated -----

  // What the definitions use is explored. (A direct dependency is part of the conditions of the properties.)
  ghost predicate Within(k: Kconfig, g: Graph) {
    forall s {:trigger s in k.defs} :: s in k.defs ==> s in g && Uses(k.defs[s]) <= Succ(g, s)
  }

  // The properties of a definition as the check meets them.
  function PropsOf(d: SymbolDef): (ps: seq<Prop>)
    ensures |ps| == |d.prompts| + |d.defaults|
    ensures forall i :: 0 <= i < |d.prompts| ==> ps[i] == Prop(PromptProp, d.prompts[i], None)
    ensures forall i :: 0 <= i < |d.defaults| ==>
      ps[|d.prompts| + i] == Prop(DefaultProp, d.defaults[i].cond, Some(d.defaults[i].value))
  {
    seq(|d.prompts|, i requires 0 <= i < |d.prompts| => Prop(PromptProp, d.prompts[i], None))
    + seq(|d.defaults|, i requires 0 <= i < |d.defaults| =>
        Prop(DefaultProp, d.defaults[i].cond, Some(d.defaults[i].value)))
  }

  /** The graph of a configuration: every defined symbol with its properties, and the symbols they mention. */
  function GraphOf(k: Kconfig): Graph {
    map s | s in AllSyms(k) :: if s in k.defs then Node(k.defs[s].revDep, PropsOf(k.defs[s])) else Node(None, [])
  }

  function AllSyms(k: Kconfig): set<Symbol> {
    k.defs.Keys + set s, t | s in k.defs && t in Uses(k.defs[s]) :: t
  }

  lemma {:induction false} ExploredExactly(node: Node, n: nat, t: Symbol)
    requires n <= |node.props|
    ensures t in Explored(node, n) <==>
      t in SymsOpt(node.revDep) || exists i :: 0 <= i < n && t in PropSyms(node.props[i])
  {
    if n > 0 {
      ExploredExactly(node, n - 1, t);
    }
  }

  /** The check explores everything a value reads, but for what only the direct dependency mentions. */
  lemma ExploresUses(k: Kconfig, s: Symbol)
    requires s in k.defs
    ensures s in GraphOf(k) && Succ(GraphOf(k), s) <= Uses(k.defs[s]) <= Succ(GraphOf(k), s) + SymsOpt(k.defs[s].dirDep)
  {
    var d, node := k.defs[s], GraphOf(k)[s];
    forall t ensures t in Succ(GraphOf(k), s) ==> t in Uses(d)
      ensures t in Uses(d) ==> t in Succ(GraphOf(k), s) || t in SymsOpt(d.dirDep)
    {
      ExploredExactly(node, |node.props|, t);
      UsedExactly(d, node.props, t);
    }
  }

  lemma UsedExactly(d: SymbolDef, ps: seq<Prop>, t: Symbol)
    requires ps == PropsOf(d)
    ensures t in Uses(d) <==>
      || t in SymsOpt(d.dirDep) || t in SymsOpt(d.revDep) || exists i :: 0 <= i < |ps| && t in PropSyms(ps[i])
  {
    hide PropsOf;
    var n := |d.prompts|;
    if i :| 0 <= i < |ps| && t in PropSyms(ps[i]) {
      if i < n {
        assert t in SymsOpt(d.prompts[i]);
      } else {
        assert ps[n + (i - n)] == ps[i];
        assert t in Syms(d.defaults[i - n].value) + SymsOpt(d.defaults[i - n].cond);
      }
    }
    if i :| 0 <= i < n && t in SymsOpt(d.prompts[i]) {
      assert t in PropSyms(ps[i]);
    }
    if i :| 0 <= i < |d.defaults| && t in Syms(d.defaults[i].value) + SymsOpt(d.defaults[i].cond) {
      assert t in PropSyms(ps[n + i]);
    }
  }

  /** So the search covers a configuration exactly when every symbol of a direct dependency is also mentioned by a
      property or a select. */
  lemma GraphWithin(k: Kconfig)
    ensures Closed(GraphOf(k))
    ensures Within(k, GraphOf(k)) <==> forall s :: s in k.defs ==> SymsOpt(k.defs[s].dirDep) <= Succ(GraphOf(k), s)
  {
    hide Uses, Explored;
    forall s | s in k.defs
      ensures s in GraphOf(k) && Succ(GraphOf(k), s) <= Uses(k.defs[s])
      ensures Uses(k.defs[s]) <= Succ(GraphOf(k), s) <==> SymsOpt(k.defs[s].dirDep) <= Succ(GraphOf(k), s)
    {
      ExploresUses(k, s);
      DirDepUsed(k.defs[s]);
    }
    GraphClosed(k);
  }

  lemma DirDepUsed(d: SymbolDef)
    ensures SymsOpt(d.dirDep) <= Uses(d)
  {
  }

  lemma GraphClosed(k: Kconfig)
    requires forall s :: s in k.defs ==> s in GraphOf(k) && Succ(GraphOf(k), s) <= Uses(k.defs[s])
    ensures Closed(GraphOf(k))
  {
    var g := GraphOf(k);
    forall s | s in g ensures Succ(g, s) <= g.Keys {
      if s in k.defs {
        assert Uses(k.defs[s]) <= AllSyms(k);
      } else {
        assert g[s] == Node(None, []) && Succ(g, s) == {};
      }
    }
  }

  function FirstIndex(order: seq<Symbol>, s: Symbol): (i: nat)
    ensures i <= |order| && (i < |order| ==> order[i] == s)
    ensures forall j :: 0 <= j < i ==> order[j] != s
  {
    if order == [] || order[0] == s then 0 else
      var i := FirstIndex(order[1..], s);
      assert forall j :: 0 < j < i + 1 ==> order[j] == order[1..][j - 1];
      i + 1
  }

  function RankOf(order: seq<Symbol>): Symbol -> nat {
    (s: Symbol) => FirstIndex(order, s)
  }

  lemma OrderRanks(k: Kconfig, g: Graph, order: seq<Symbol>)
    requires Topological(g, order) && Elements(order) == g.Keys && Within(k, g)
    ensures Acyclic(k, RankOf(order))
  {
    forall s, t | s in k.defs && t in Uses(k.defs[s]) ensures FirstIndex(order, t) < FirstIndex(order, s) {
      var i := ElementsAt(order, s);
      var j := TopologicalAt(g, order, FirstIndex(order, s), t);
    }
  }

  /** The configurations that were checked have the ranking by which values are defined. */
  ghost predicate Ranked(g: Graph) {
    forall k: Kconfig :: Within(k, g) ==> exists rank :: Acyclic(k, rank)
  }

  lemma OrderRanked(g: Graph, order: seq<Symbol>)
    requires Topological(g, order) && Elements(order) == g.Keys
    ensures Ranked(g)
  {
    forall k: Kconfig | Within(k, g) ensures exists rank :: Acyclic(k, rank) {
      OrderRanks(k, g, order);
    }
  }

  ghost predicate AllCycles(g: Graph, reports: seq<seq<Symbol>>) {
    reports == [] || (AllCycles(g, reports[..|reports| - 1]) && IsCycle(g, reports[|reports| - 1]))
  }

  class Checker {
    const g: Graph

    var check: set<Symbol>            // SYMBOL_CHECK
    var checked: set<Symbol>          // SYMBOL_CHECKED
    var stack: seq<Symbol>            // the dep_stack entries, bottom first
    var reports: seq<seq<Symbol>>     // the symbols printed for each recursive dependency
    ghost var order: seq<Symbol>      // symbols in the order in which their check ended

    ghost predicate Valid()
      reads this
    {
      && Closed(g) && check <= checked <= g.Keys
      && IsPath(g, stack) && check == Elements(stack)
      && AllCycles(g, reports)
      && (reports == [] ==> Topological(g, order) && Elements(order) == checked - check)
    }

    // The search only moves forward, and restores the marks of the symbols under check.
    twostate predicate Forward()
      reads this
    {
      && check == old(check) && stack == old(stack) && old(checked) <= checked
      && (reports == [] ==> old(reports) == [])
    }

    constructor (g: Graph)
      requires Closed(g)
      ensures Valid() && this.g == g && check == {} && stack == [] && reports == []
    {
      this.g := g;
      check, checked, stack, reports, order := {}, {}, [], [], [];
    }

    // sym_check_print_recursive: what is printed for a symbol found under check
    method PrintRecursive(s: Symbol)
      requires Valid() && s in check && (stack != [] ==> s in Succ(g, stack[|stack| - 1]))
      modifies this`reports
      ensures Valid() && reports != []
    {
      var i := |stack| - 1;
      while i >= 0 && stack[i] != s
        invariant -1 <= i < |stack|
        invariant forall j :: i < j < |stack| ==> stack[j] != s
      {
        i := i - 1;
      }
      ghost var at := ElementsAt(stack, s);
      PathSuffix(g, stack, i);
      var report := stack[i..];
      assert report[0] == s && report[|report| - 1] == stack[|stack| - 1];
      reports := reports + [report];
      assert reports[..|reports| - 1] == old(reports);
    }

    // sym_check_expr_deps
    method CheckExpr(e: Expr) returns (r: Option<Symbol>)
      requires Valid() && stack != [] && Syms(e) <= Succ(g, stack[|stack| - 1])
      modifies this
      ensures Valid() && Forward()
      ensures reports == [] ==> r.None? && Syms(e) <= checked - check
      decreases g.Keys - checked, 1, Size(e)
    {
      match e
      case Bin(_, a, b) =>
        r := CheckExpr(a);
        if r.None? {
          r := CheckExpr(b);
        }
      case Not(x) =>
        r := CheckExpr(x);
      case Equal(l, t) =>
        r := CheckDeps(l);
        if r.None? {
          r := CheckDeps(t);
        }
      case Unequal(l, t) =>
        r := CheckDeps(l);
        if r.None? {
          r := CheckDeps(t);
        }
      case Sym(s) =>
        r := CheckDeps(s);
    }

    method CheckExprOpt(e: Option<Expr>) returns (r: Option<Symbol>)
      requires Valid() && stack != [] && SymsOpt(e) <= Succ(g, stack[|stack| - 1])
      modifies this
      ensures Valid() && Forward()
      ensures reports == [] ==> r.None? && SymsOpt(e) <= checked - check
      decreases g.Keys - checked, 2
    {
      r := None;
      if e.Some? {
        r := CheckExpr(e.value);
      }
    }

    // One property of the symbol on top of the stack.
    method CheckProp(p: Prop) returns (r: Option<Symbol>)
      requires Valid() && stack != [] && PropSyms(p) <= Succ(g, stack[|stack| - 1])
      modifies this
      ensures Valid() && Forward()
      ensures reports == [] ==> r.None? && PropSyms(p) <= checked - check
      decreases g.Keys - checked, 3
    {
      r := None;
      if p.kind.SelectProp? {
        return;
      }
      r := CheckExprOpt(p.visible);
      if r.None? && p.kind.DefaultProp? {
        r := CheckExprOpt(p.expr);
      }
    }

    // sym_check_sym_deps
    method CheckSymDeps(s: Symbol) returns (r: Option<Symbol>)
      requires Valid() && stack != [] && s in g && stack[|stack| - 1] == s
      modifies this
      ensures Valid() && Forward()
      ensures reports == [] ==> r.None? && Succ(g, s) <= checked - check
      decreases g.Keys - checked, 4
    {
      hide Closed, IsPath, AllCycles, Topological, Elements;
      ExploredGrows(g[s], 0, |g[s].props|);
      r := CheckExprOpt(g[s].revDep);
      var i := 0;
      while r.None? && i < |g[s].props|
        invariant i <= |g[s].props| && Valid() && Forward()
        invariant reports == [] ==> r.None? && Explored(g[s], i) <= checked - check
        decreases |g[s].props| - i
      {
        ExploredGrows(g[s], i + 1, |g[s].props|);
        r := CheckProp(g[s].props[i]);
        i := i + 1;
      }
    }

    // sym_check_deps
    method CheckDeps(s: Symbol) returns (r: Option<Symbol>)
      requires Valid() && s in g && (stack != [] ==> s in Succ(g, stack[|stack| - 1]))
      modifies this
      ensures Valid() && Forward()
      ensures reports == [] ==> r.None? && s in checked - check
      decreases g.Keys - checked, 1, 0
    {
      if s in check {
        PrintRecursive(s);
        return Some(s);
      }
      if s in checked {
        return None;
      }
      r := CheckFresh(s);
      if r == Some(s) {
        r := None;
      }
    }

    // A symbol met for the first time.
    method CheckFresh(s: Symbol) returns (r: Option<Symbol>)
      requires Valid() && s in g && s !in checked && (stack != [] ==> s in Succ(g, stack[|stack| - 1]))
      modifies this
      ensures Valid() && Forward()
      ensures reports == [] ==> r.None? && s in checked - check
      decreases g.Keys - checked, 0
    {
      Push(s);
      r := CheckSymDeps(s);
      Pop(s);
      assert stack == old(stack) && check == old(check);
    }

    // Marking a symbol and dep_stack_insert
    method Push(s: Symbol)
      requires Valid() && s in g && s !in checked && (stack != [] ==> s in Succ(g, stack[|stack| - 1]))
      modifies this`check, this`checked, this`stack
      ensures Valid() && check == old(check) + {s} && checked == old(checked) + {s} && stack == old(stack) + [s]
    {
      check, checked := check + {s}, checked + {s};
      stack := stack + [s];
      assert stack[..|stack| - 1] == old(stack);
    }

    // dep_stack_remove and clearing the mark
    method Pop(s: Symbol)
      requires Valid() && stack != [] && stack[|stack| - 1] == s && s !in Elements(stack[..|stack| - 1])
      requires reports == [] ==> Succ(g, s) <= checked - check
      modifies this`check, this`stack, this`order
      ensures Valid() && check == old(check) - {s} && stack == old(stack)[..|old(stack)| - 1]
    {
      stack := stack[..|stack| - 1];
      check := check - {s};
      if reports == [] {
        assert (order + [s])[..|order|] == order;
        order := order + [s];
      }
    }

    /** Checking every symbol reports a recursive dependency exactly when the relation has a cycle;
        afterwards no symbol is left under check. After a clean check the values of symbols are defined. */
    method CheckAll(syms: seq<Symbol>)
      requires Valid() && check == {} && stack == [] && reports == [] && Elements(syms) == g.Keys
      modifies this
      ensures Valid() && check == {} && stack == []
      ensures reports != [] <==> exists p :: IsCycle(g, p)
      ensures reports == [] ==> Ranked(g)
    {
      for i := 0 to |syms|
        invariant Valid() && check == {} && stack == []
        invariant reports == [] ==> Elements(syms[..i]) <= checked
      {
        ElementsHas(syms, i);
        var _ := CheckDeps(syms[i]);
        assert syms[..i + 1][..i] == syms[..i];
      }
      assert syms[..|syms|] == syms;
      if reports == [] {
        NoCycle(g, order);
        OrderRanked(g, order);
      } else {
        assert IsCycle(g, reports[|reports| - 1]);
      }
    }
  }

  lemma {:induction false} ExploredGrows(node: Node, i: nat, n: nat)
    requires i <= n <= |node.props|
    ensures Explored(node, i) <= Explored(node, n)
  {
    if i < n {
      ExploredGrows(node, i, n - 1);
    }
  }
}
