/** conf_write_defconfig: the minimal configuration, and what reading it back gives. */
module Defconfig {
  import opened Wrappers
  import opened Expr
  import opened Semantics
  import opened Resolver
  import opened Joining

  // sym_get_string_default
  function DefaultString(s: Symbol, d: SymbolDef, v: Valuation): string
    requires HasFields(s)
  {
    if TriType(s.ty) then
      TriText(Selected(s.ty, DefaultTri(d, v), d, v), YES)
    else if DefaultText(d, v).Some? then DefaultText(d, v).value
    else ""
  }

  // The symbols conf_write_defconfig writes: marked for writing, changeable, and not at their default.
  predicate Saved(s: Symbol, d: SymbolDef, v: Valuation) {
    && HasFields(s) && Written(s, d, v)
    && Visibility(s.ty, d, v) > ReverseDep(s.ty, d, v)
    && TextOf(v, s) != DefaultString(s, d, v)
  }

  // What conf_read_simple makes of a written value.
  function ReadValue(ty: SymType, text: string): SymValue {
    if TriType(ty) then SymValue("", ConstTri(text)) else SymValue(text, NO)
  }

  /** The user values left when a configuration is reduced to what the minimal file holds. */
  ghost function Minimal(k: Kconfig, u: UserValues, rank: Symbol -> nat): UserValues {
    var v := Values(k, u, rank);
    map s | s in k.defs && Saved(s, DefOf(k, s), v) :: ReadValue(s.ty, TextOf(v, s))
  }

  /** A user value that is in effect but not saved, because select leaves nothing to change, although
      the default would give another value. */
  predicate Stuck(s: Symbol, d: SymbolDef, user: Option<SymValue>, v: Valuation) {
    && HasFields(s) && user.Some?
    && if TriType(s.ty) then
         s.IsTristate() && Visibility(s.ty, d, v) == MOD && ReverseDep(s.ty, d, v) == MOD && DefaultTri(d, v) == YES
       else
         NO != Visibility(s.ty, d, v) <= ReverseDep(s.ty, d, v) && user.value.val != DefaultString(s, d, v)
  }

  lemma TriTextInjective(t: Tristate, t': Tristate)
    ensures TriText(t, YES) == TriText(t', YES) ==> t == t'
    ensures ConstTri(TriText(t, YES)) == t
  {
    YmnDistinct();
  }

  // One symbol: with the values below unchanged, the saved user value gives the same result unless stuck.
  lemma SavedSuffices(s: Symbol, d: SymbolDef, user: Option<SymValue>, v: Valuation)
    requires HasFields(s) && Calc(s, d, user, v) == SymValue(v.text(s), v.tri(s))
    ensures var saved := if Saved(s, d, v) then Some(ReadValue(s.ty, TextOf(v, s))) else None;
      Calc(s, d, saved, v) == Calc(s, d, user, v) <==> !Stuck(s, d, user, v)
  {
    CalcWellTyped(s, d, user, v);
    if TriType(s.ty) {
      SavedSufficesTri(s, d, user, v);
    }
  }

  lemma SavedSufficesTri(s: Symbol, d: SymbolDef, user: Option<SymValue>, v: Valuation)
    requires HasFields(s) && TriType(s.ty) && Calc(s, d, user, v) == SymValue(v.text(s), v.tri(s))
    ensures var saved := if Saved(s, d, v) then Some(ReadValue(s.ty, TextOf(v, s))) else None;
      Calc(s, d, saved, v) == Calc(s, d, user, v) <==> !Stuck(s, d, user, v)
  {
    CalcWellTyped(s, d, user, v);
    TriTextInjective(v.tri(s), Selected(s.ty, DefaultTri(d, v), d, v));
    assert TextOf(v, s) == TriText(v.tri(s), YES);
  }

  ghost predicate StuckIn(k: Kconfig, u: UserValues, rank: Symbol -> nat, s: Symbol) {
    Stuck(s, DefOf(k, s), UserOf(u, s), Values(k, u, rank))
  }

  // A symbol with nothing stuck below it comes back exactly when it is not stuck itself.
  lemma {:induction false} ComesBack(k: Kconfig, u: UserValues, rank: Symbol -> nat, s: Symbol)
    requires Acyclic(k, rank) && forall t :: rank(t) < rank(s) ==> !StuckIn(k, u, rank, t)
    ensures Value(k, Minimal(k, u, rank), rank, s) == Value(k, u, rank, s) <==> !StuckIn(k, u, rank, s)
    decreases rank(s)
  {
    hide Value, Values, Minimal, Calc, Stuck, Saved, Uses, Acyclic, ReadValue, Visibility, Written;
    var w := Minimal(k, u, rank);
    var d, v := DefOf(k, s), Values(k, u, rank);
    forall t | t in Uses(d) ensures Value(k, w, rank, t) == Value(k, u, rank, t) {
      UsesLower(k, rank, s, t);
      ComesBack(k, u, rank, t);
    }
    AgreeFrom(k, u, w, rank, Uses(d));
    ValueEquation(k, u, rank, s);
    ValueEquation(k, w, rank, s);
    CalcAgree(s, d, UserOf(w, s), v, Values(k, w, rank));
    if HasFields(s) {
      ValueInValues(k, u, rank, s);
      SavedSuffices(s, d, UserOf(u, s), v);
      MinimalUser(k, u, rank, s);
    } else {
      NoFieldsBack(s, d, UserOf(u, s), UserOf(w, s), v);
    }
  }

  lemma UsesLower(k: Kconfig, rank: Symbol -> nat, s: Symbol, t: Symbol)
    requires Acyclic(k, rank) && t in Uses(DefOf(k, s))
    ensures rank(t) < rank(s)
  {
  }

  lemma AgreeFrom(k: Kconfig, u: UserValues, w: UserValues, rank: Symbol -> nat, ss: set<Symbol>)
    requires forall t :: t in ss ==> Value(k, w, rank, t) == Value(k, u, rank, t)
    ensures Agree(ss, Values(k, u, rank), Values(k, w, rank))
  {
    hide Value;
  }

  lemma ValueInValues(k: Kconfig, u: UserValues, rank: Symbol -> nat, s: Symbol)
    ensures var v := Values(k, u, rank); Value(k, u, rank, s) == SymValue(v.text(s), v.tri(s))
  {
    hide Value;
  }

  // The user value of a symbol in the minimal configuration.
  lemma MinimalUser(k: Kconfig, u: UserValues, rank: Symbol -> nat, s: Symbol)
    ensures var v := Values(k, u, rank);
      UserOf(Minimal(k, u, rank), s)
      == if Saved(s, DefOf(k, s), v) then Some(ReadValue(s.ty, TextOf(v, s))) else None
  {
    if s !in k.defs {
      NoDefUnsaved(s, Values(k, u, rank));
    }
    hide Values, Saved;
  }

  lemma NoFieldsBack(s: Symbol, d: SymbolDef, user: Option<SymValue>, other: Option<SymValue>, v: Valuation)
    requires !HasFields(s)
    ensures Calc(s, d, user, v) == Calc(s, d, other, v) && !Stuck(s, d, user, v)
  {
  }

  // A symbol without properties is never saved.
  lemma NoDefUnsaved(s: Symbol, v: Valuation)
    ensures !Saved(s, NoDef, v)
  {
  }

  lemma {:induction false} LowestStuck(k: Kconfig, u: UserValues, rank: Symbol -> nat, s: Symbol) returns (t: Symbol)
    requires StuckIn(k, u, rank, s)
    ensures StuckIn(k, u, rank, t) && forall x :: rank(x) < rank(t) ==> !StuckIn(k, u, rank, x)
    decreases rank(s)
  {
    if x :| rank(x) < rank(s) && StuckIn(k, u, rank, x) {
      t := LowestStuck(k, u, rank, x);
    } else {
      t := s;
    }
  }

  /** Minimal-configuration round trip: resolving with only the saved user values gives every symbol the
      value it had, if and only if no symbol is stuck. */
  lemma RoundTrip(k: Kconfig, u: UserValues, rank: Symbol -> nat)
    requires Acyclic(k, rank)
    ensures (forall s :: Value(k, Minimal(k, u, rank), rank, s) == Value(k, u, rank, s))
      <==> (forall s :: !StuckIn(k, u, rank, s))
  {
    if s :| StuckIn(k, u, rank, s) {
      var t := LowestStuck(k, u, rank, s);
      ComesBack(k, u, rank, t);
    } else {
      forall s ensures Value(k, Minimal(k, u, rank), rank, s) == Value(k, u, rank, s) {
        ComesBack(k, u, rank, s);
      }
    }
  }

  lemma BooleanNotStuck(k: Kconfig, u: UserValues, rank: Symbol -> nat, t: Symbol)
    requires forall x :: x in k.defs ==> x.IsBoolean()
    ensures !StuckIn(k, u, rank, t)
  {
    if t !in k.defs {
      assert PromptMax(NoDef.prompts, 0, Values(k, u, rank)) == NO;
    }
  }

  /** In particular it holds for every configuration of boolean symbols. */
  lemma BooleanRoundTrip(k: Kconfig, u: UserValues, rank: Symbol -> nat, s: Symbol)
    requires Acyclic(k, rank) && forall t :: t in k.defs ==> t.IsBoolean()
    ensures Value(k, Minimal(k, u, rank), rank, s) == Value(k, u, rank, s)
  {
    forall t ensures !StuckIn(k, u, rank, t) {
      BooleanNotStuck(k, u, rank, t);
    }
    RoundTrip(k, u, rank);
  }

  // ----- every saved value is needed -----

  // Values below rank `n` depend on user values below it only.
  lemma {:induction false} SameBelow(
    k: Kconfig, u: UserValues, w: UserValues, rank: Symbol -> nat, n: nat, t: Symbol)
    requires Acyclic(k, rank) && rank(t) < n && forall x :: rank(x) < n ==> UserOf(u, x) == UserOf(w, x)
    ensures Value(k, w, rank, t) == Value(k, u, rank, t)
    decreases rank(t)
  {
    hide Value, Values, Calc, Uses, Acyclic;
    var d := DefOf(k, t);
    forall x | x in Uses(d) ensures Value(k, w, rank, x) == Value(k, u, rank, x) {
      UsesLower(k, rank, t, x);
      SameBelow(k, u, w, rank, n, x);
    }
    AgreeFrom(k, u, w, rank, Uses(d));
    ValueEquation(k, u, rank, t);
    ValueEquation(k, w, rank, t);
    CalcAgree(t, d, UserOf(u, t), Values(k, u, rank), Values(k, w, rank));
  }

  // With nothing stuck below, leaving out the symbol itself changes no value below it.
  lemma BelowLeftOut(k: Kconfig, u: UserValues, rank: Symbol -> nat, s: Symbol, t: Symbol)
    requires Acyclic(k, rank) && rank(t) < rank(s) && forall x :: rank(x) < rank(s) ==> !StuckIn(k, u, rank, x)
    ensures Value(k, Minimal(k, u, rank) - {s}, rank, t) == Value(k, u, rank, t)
  {
    hide Value, Minimal, StuckIn, Acyclic;
    var w := Minimal(k, u, rank);
    SameBelow(k, w, w - {s}, rank, rank(s), t);
    ComesBack(k, u, rank, t);
  }

  lemma LeftOutValue(k: Kconfig, u: UserValues, rank: Symbol -> nat, s: Symbol)
    requires Acyclic(k, rank) && forall t :: rank(t) < rank(s) ==> !StuckIn(k, u, rank, t)
    ensures Value(k, Minimal(k, u, rank) - {s}, rank, s) == Calc(s, DefOf(k, s), None, Values(k, u, rank))
  {
    hide Value, Values, Minimal, Calc, Uses, Acyclic, StuckIn;
    var w, d := Minimal(k, u, rank) - {s}, DefOf(k, s);
    forall t | t in Uses(d) ensures Value(k, w, rank, t) == Value(k, u, rank, t) {
      UsesLower(k, rank, s, t);
      BelowLeftOut(k, u, rank, s, t);
    }
    AgreeFrom(k, u, w, rank, Uses(d));
    ValueEquation(k, w, rank, s);
    CalcAgree(s, d, UserOf(w, s), Values(k, u, rank), Values(k, w, rank));
  }

  lemma SavedDiffers(s: Symbol, d: SymbolDef, user: Option<SymValue>, v: Valuation)
    requires HasFields(s) && Calc(s, d, user, v) == SymValue(v.text(s), v.tri(s))
    ensures TextOf(v, s) == DefaultString(s, d, v) <==> Calc(s, d, None, v) == Calc(s, d, user, v)
  {
    CalcWellTyped(s, d, user, v);
    if TriType(s.ty) {
      TriTextInjective(v.tri(s), Selected(s.ty, DefaultTri(d, v), d, v));
      assert TextOf(v, s) == TriText(v.tri(s), YES);
    }
  }

  /** What is saved: with nothing stuck below it, a symbol is in the minimal configuration exactly when the user can
      change it and, left out, it would come back with another value. */
  lemma SavedExactly(k: Kconfig, u: UserValues, rank: Symbol -> nat, s: Symbol)
    requires Acyclic(k, rank) && forall t :: rank(t) < rank(s) ==> !StuckIn(k, u, rank, t)
    ensures var d, v := DefOf(k, s), Values(k, u, rank);
      s in Minimal(k, u, rank)
      <==> HasFields(s) && Visibility(s.ty, d, v) > ReverseDep(s.ty, d, v)
           && Value(k, Minimal(k, u, rank) - {s}, rank, s) != Value(k, u, rank, s)
  {
    var d, v, user := DefOf(k, s), Values(k, u, rank), UserOf(u, s);
    LeftOutValue(k, u, rank, s);
    ValueEquation(k, u, rank, s);
    ValueInValues(k, u, rank, s);
    MinimalUser(k, u, rank, s);
    hide Value, Values, Minimal, Calc, Acyclic, StuckIn;
    if HasFields(s) {
      SavedDiffers(s, d, user, v);
    }
  }

  /** The minimal configuration of boolean symbols is minimal: it loses every value it is left without. */
  lemma BooleanMinimal(k: Kconfig, u: UserValues, rank: Symbol -> nat, s: Symbol)
    requires Acyclic(k, rank) && (forall t :: t in k.defs ==> t.IsBoolean()) && s in Minimal(k, u, rank)
    ensures Value(k, Minimal(k, u, rank) - {s}, rank, s) != Value(k, u, rank, s)
  {
    hide Value, Values, Minimal, StuckIn, Acyclic, Visibility, ReverseDep;
    forall t ensures !StuckIn(k, u, rank, t) {
      BooleanNotStuck(k, u, rank, t);
    }
    SavedExactly(k, u, rank, s);
  }

  /** It does fail: a tristate symbol offered and selected at m only, set to m by the user, with default y,
      is not saved and comes back as y. */
  lemma TristateCounterexample(s: Symbol, user: SymValue)
    requires s.IsTristate() && user.tri == MOD
    ensures var d := SymbolDef([Some(Sym(SymMod))], [Default(Sym(SymYes), None)], None, Some(Sym(SymMod)));
      var k, u, rank := Kconfig(map[s := d], YES), map[s := user], (t: Symbol) => if t == s then 1 else 0;
      && Acyclic(k, rank)
      && Value(k, u, rank, s).tri == MOD
      && Value(k, Minimal(k, u, rank), rank, s).tri == YES
  {
    YmnDistinct();
    var d := SymbolDef([Some(Sym(SymMod))], [Default(Sym(SymYes), None)], None, Some(Sym(SymMod)));
    var k, u, rank := Kconfig(map[s := d], YES), map[s := user], (t: Symbol) => if t == s then 1 else 0;
    assert Uses(d) == {SymMod, SymYes} by {
      assert d.prompts[0] == Some(Sym(SymMod)) && d.defaults[0].value == Sym(SymYes);
      UsesPrompt(d, 0);
      UsesDefault(d, 0);
    }
    var v := Values(k, u, rank);
    assert PromptMax(d.prompts, 1, v) == MOD && ActiveDefault(d.defaults, v) == 0;
    assert Visibility(s.ty, d, v) == MOD && ReverseDep(s.ty, d, v) == MOD && DefaultTri(d, v) == YES;
    ValueEquation(k, u, rank, s);
    var w := Minimal(k, u, rank);
    var v' := Values(k, w, rank);
    assert PromptMax(d.prompts, 1, v') == MOD && ActiveDefault(d.defaults, v') == 0;
    assert ReverseDep(s.ty, d, v') == MOD && DefaultTri(d, v') == YES;
    ValueEquation(k, w, rank, s);
  }

  // ----- the writer -----

  datatype Line = Line(s: Symbol, text: string)

  // The lines for the first `n` menu entries; a symbol with several entries is written at the first.
  function SavedLines(k: Kconfig, v: Valuation, entries: seq<Option<Symbol>>, n: nat): seq<Line>
    requires n <= |entries|
  {
    if n == 0 then []
    else
      var e := entries[n - 1];
      var lines := SavedLines(k, v, entries, n - 1);
      if e.Some? && e !in entries[..n - 1] && Saved(e.value, DefOf(k, e.value), v) then
        lines + [Line(e.value, TextOf(v, e.value))]
      else lines
  }

  function ReadLines(lines: seq<Line>): UserValues {
    if lines == [] then map[]
    else
      var l := lines[|lines| - 1];
      ReadLines(lines[..|lines| - 1])[l.s := ReadValue(if l.s.Config? then l.s.ty else UnknownType, l.text)]
  }

  lemma {:induction false} ReadSavedAt(k: Kconfig, v: Valuation, entries: seq<Option<Symbol>>, n: nat, s: Symbol)
    requires n <= |entries|
    ensures var m := ReadLines(SavedLines(k, v, entries, n));
      && (s in m <==> Some(s) in entries[..n] && Saved(s, DefOf(k, s), v))
      && (s in m ==> m[s] == ReadValue(s.ty, TextOf(v, s)))
  {
    hide Saved, ReadValue, TextOf;
    if n > 0 {
      ReadSavedAt(k, v, entries, n - 1, s);
      var e := entries[n - 1];
      assert entries[..n] == entries[..n - 1] + [e];
      if e.Some? && e !in entries[..n - 1] && Saved(e.value, DefOf(k, e.value), v) {
        SavedConfig(e.value, DefOf(k, e.value), v);
        ReadAppend(SavedLines(k, v, entries, n - 1), Line(e.value, TextOf(v, e.value)));
      }
    }
  }

  lemma SavedConfig(s: Symbol, d: SymbolDef, v: Valuation)
    requires Saved(s, d, v)
    ensures s.Config?
  {
  }

  lemma ReadAppend(lines: seq<Line>, l: Line)
    requires l.s.Config?
    ensures ReadLines(lines + [l]) == ReadLines(lines)[l.s := ReadValue(l.s.ty, l.text)]
  {
    assert (lines + [l])[..|lines|] == lines;
  }

  /** Reading what was written gives the minimal user values, provided every symbol has a menu entry. */
  lemma ReadBackMinimal(k: Kconfig, u: UserValues, rank: Symbol -> nat, entries: seq<Option<Symbol>>)
    requires forall s :: s in k.defs ==> Some(s) in entries
    ensures ReadLines(SavedLines(k, Values(k, u, rank), entries, |entries|)) == Minimal(k, u, rank)
  {
    var v := Values(k, u, rank);
    var m := ReadLines(SavedLines(k, v, entries, |entries|));
    hide Saved, ReadValue, TextOf, Values, SavedLines, ReadLines;
    assert entries[..|entries|] == entries;
    forall s
      ensures s in m <==> s in Minimal(k, u, rank)
      ensures s in m ==> m[s] == Minimal(k, u, rank)[s]
    {
      ReadSavedAt(k, v, entries, |entries|, s);
      if s !in k.defs {
        NoDefUnsaved(s, v);
      }
    }
  }

  // ----- no line is redundant -----

  function Without(lines: seq<Line>, i: nat): seq<Line>
    requires i < |lines|
  {
    lines[..i] + lines[i + 1..]
  }

  ghost predicate OncePerSymbol(lines: seq<Line>) {
    && (forall i :: 0 <= i < |lines| ==> lines[i].s.Config?)
    && (forall i, j :: 0 <= i < j < |lines| ==> lines[i].s != lines[j].s)
  }

  lemma {:induction false} LinesOnce(k: Kconfig, v: Valuation, entries: seq<Option<Symbol>>, n: nat)
    requires n <= |entries|
    ensures var lines := SavedLines(k, v, entries, n);
      OncePerSymbol(lines) && forall i :: 0 <= i < |lines| ==> Some(lines[i].s) in entries[..n]
  {
    hide Saved, TextOf;
    if n > 0 {
      LinesOnce(k, v, entries, n - 1);
      var e := entries[n - 1];
      assert entries[..n] == entries[..n - 1] + [e];
      if e.Some? && Saved(e.value, DefOf(k, e.value), v) {
        SavedConfig(e.value, DefOf(k, e.value), v);
      }
    }
  }

  lemma UpdateRemove<K, V>(m: map<K, V>, x: K, y: K, v: V)
    ensures x != y ==> m[y := v] - {x} == (m - {x})[y := v]
    ensures x !in m ==> m[x := v] - {x} == m
  {
  }

  // Reading without one line gives everything but its symbol.
  lemma {:induction false} ReadWithout(lines: seq<Line>, i: nat)
    requires i < |lines| && OncePerSymbol(lines)
    ensures ReadLines(Without(lines, i)) == ReadLines(lines) - {lines[i].s} && lines[i].s in ReadLines(lines)
  {
    hide ReadValue, ReadLines;
    var n := |lines| - 1;
    var init, l := lines[..n], lines[n];
    assert lines == init + [l];
    ReadAppend(init, l);
    UpdateRemove(ReadLines(init), lines[i].s, l.s, ReadValue(l.s.ty, l.text));
    if i == n {
      assert Without(lines, i) == init;
      ReadAbsent(init, l.s);
    } else {
      ReadWithout(init, i);
      assert Without(lines, i) == Without(init, i) + [l];
      ReadAppend(Without(init, i), l);
    }
  }

  lemma {:induction false} ReadAbsent(lines: seq<Line>, s: Symbol)
    requires forall i :: 0 <= i < |lines| ==> lines[i].s != s
    ensures s !in ReadLines(lines)
  {
    hide ReadValue;
    if lines != [] {
      ReadAbsent(lines[..|lines| - 1], s);
    }
  }

  /** Left out of the file, any line changes the value of its symbol. */
  ghost predicate NoneRedundant(k: Kconfig, u: UserValues, rank: Symbol -> nat, lines: seq<Line>) {
    forall i :: 0 <= i < |lines| && (forall t :: rank(t) < rank(lines[i].s) ==> !StuckIn(k, u, rank, t)) ==>
      Value(k, ReadLines(Without(lines, i)), rank, lines[i].s) != Value(k, u, rank, lines[i].s)
  }

  lemma LinesNeeded(k: Kconfig, u: UserValues, rank: Symbol -> nat, entries: seq<Option<Symbol>>)
    requires Acyclic(k, rank) && forall s :: s in k.defs ==> Some(s) in entries
    ensures NoneRedundant(k, u, rank, SavedLines(k, Values(k, u, rank), entries, |entries|))
  {
    hide Value, Values, Minimal, SavedLines, ReadLines, StuckIn, Acyclic, Visibility, ReverseDep;
    var lines := SavedLines(k, Values(k, u, rank), entries, |entries|);
    LinesOnce(k, Values(k, u, rank), entries, |entries|);
    ReadBackMinimal(k, u, rank, entries);
    forall i | 0 <= i < |lines| && forall t :: rank(t) < rank(lines[i].s) ==> !StuckIn(k, u, rank, t)
      ensures Value(k, ReadLines(Without(lines, i)), rank, lines[i].s) != Value(k, u, rank, lines[i].s)
    {
      ReadWithout(lines, i);
      SavedExactly(k, u, rank, lines[i].s);
    }
  }

  // sym_get_string_default
  method StringDefault(table: SymbolTable, s: Symbol) returns (text: string)
    requires table.Valid() && table.busy == {} && s in table.valid && HasFields(s)
    modifies table
    ensures table.Valid() && table.ExtendsBut({s}) && (s in table.write <==> s in old(table.write))
    ensures text == DefaultString(s, DefOf(table.k, s), table.truth)
  {
    table.CalcVisibility(s);
    if TriType(s.ty) {
      var tri, _ := table.CalcDefault(s);
      text := TriText(Promoted(s.ty, Apply(OrOp, tri, table.fields[s].revTri), table.k.modules), YES);
    } else {
      var val, _ := table.CalcDefaultText(s);
      text := val;
    }
  }

  // The entries up to `i` are done: their symbols are valid and no longer marked for writing.
  ghost predicate Progress(table: SymbolTable, entries: seq<Option<Symbol>>, i: nat)
    requires i <= |entries|
    reads table
  {
    && table.Valid() && table.busy == {}
    && (forall s :: Some(s) in entries[..i] ==> s in table.valid)
    && (forall s {:trigger s in table.write} :: s in table.valid ==>
          (s in table.write <==> Written(s, DefOf(table.k, s), table.truth) && Some(s) !in entries[..i]))
  }

  // One menu entry with symbol `s`.
  method WriteEntry(table: SymbolTable, entries: seq<Option<Symbol>>, i: nat, s: Symbol) returns (out: seq<Line>)
    requires i < |entries| && entries[i] == Some(s) && Progress(table, entries, i)
    modifies table
    ensures Progress(table, entries, i + 1) && table.user == old(table.user) && table.truth == old(table.truth)
    ensures SavedLines(table.k, table.truth, entries, i) + out == SavedLines(table.k, table.truth, entries, i + 1)
  {
    out := [];
    assert entries[..i + 1] == entries[..i] + [Some(s)];
    table.CalcValue(s);
    if s !in table.write {
      return;
    }
    table.write := table.write - {s};
    if !(table.fields[s].visible > table.fields[s].revTri) {
      return;
    }
    var value := table.StringValue(s);
    var default := StringDefault(table, s);
    if value == default {
      return;
    }
    out := [Line(s, value)];
  }

  /** conf_write_defconfig over the menu entries in walking order. */
  method WriteDefconfig(table: SymbolTable, entries: seq<Option<Symbol>>) returns (out: seq<Line>)
    requires table.Valid() && table.busy == {}
    modifies table
    ensures table.Valid() && table.user == old(table.user)
    ensures out == SavedLines(table.k, Values(table.k, table.user, table.rank), entries, |entries|)
    ensures (forall s :: s in table.k.defs ==> Some(s) in entries)
      ==> NoneRedundant(table.k, table.user, table.rank, out)
  {
    hide NoneRedundant;
    table.ClearAllValid();
    out := [];
    for i := 0 to |entries|
      invariant Progress(table, entries, i) && table.user == old(table.user)
      invariant table.truth == Values(table.k, table.user, table.rank)
      invariant out == SavedLines(table.k, table.truth, entries, i)
    {
      if entries[i].Some? {
        var line := WriteEntry(table, entries, i, entries[i].value);
        out := out + line;
      } else {
        assert entries[..i + 1] == entries[..i] + [entries[i]];
      }
    }
    if forall s :: s in table.k.defs ==> Some(s) in entries {
      LinesNeeded(table.k, table.user, table.rank, entries);
    }
  }
}
