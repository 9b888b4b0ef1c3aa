/** The language of kconfiglib's expressions as a grammar of its own, and that the parser decides it. */
module KGrammar {
  import opened Wrappers
  import opened Expr
  import opened KExpr
  import opened KSemantics
  import opened KParser

  // ----- syntax trees -----

  datatype Primary =
    | Single(a: Atom)
    | Compared(equal: bool, l: Atom, r: Atom)
    | Negated(p: Primary)
    | Group(d: Disjunction)

  datatype Conjunction = Last(p: Primary) | And(p: Primary, rest: Conjunction)

  datatype Disjunction = Only(c: Conjunction) | Or(c: Conjunction, rest: Disjunction)

  function PrimaryTokens(p: Primary): (ts: seq<Token>)
    ensures ts != []
  {
    match p
    case Single(a) => [TAtom(a)]
    case Compared(equal, l, r) => [TAtom(l), if equal then TEqual else TUnequal, TAtom(r)]
    case Negated(q) => [TNot] + PrimaryTokens(q)
    case Group(d) => [TOpen] + DisjunctionTokens(d) + [TClose]
  }

  function ConjunctionTokens(c: Conjunction): (ts: seq<Token>)
    ensures ts != []
  {
    match c
    case Last(p) => PrimaryTokens(p)
    case And(p, rest) => PrimaryTokens(p) + [TAnd] + ConjunctionTokens(rest)
  }

  function DisjunctionTokens(d: Disjunction): (ts: seq<Token>)
    ensures ts != []
  {
    match d
    case Only(c) => ConjunctionTokens(c)
    case Or(c, rest) => ConjunctionTokens(c) + [TOr] + DisjunctionTokens(rest)
  }

  // ----- what they mean -----

  function PrimaryValue(p: Primary, transformM: bool, w: World): Tristate {
    match p
    case Single(a) => WrittenValue(KAtom(a), transformM, w)
    case Compared(equal, l, r) => WrittenValue(KCompare(equal, l, r), transformM, w)
    case Negated(q) => 2 - PrimaryValue(q, transformM, w)
    case Group(d) => DisjunctionValue(d, transformM, w)
  }

  function ConjunctionValue(c: Conjunction, transformM: bool, w: World): Tristate {
    match c
    case Last(p) => PrimaryValue(p, transformM, w)
    case And(p, rest) =>
      var x, y := PrimaryValue(p, transformM, w), ConjunctionValue(rest, transformM, w);
      if x < y then x else y
  }

  function DisjunctionValue(d: Disjunction, transformM: bool, w: World): Tristate {
    match d
    case Only(c) => ConjunctionValue(c, transformM, w)
    case Or(c, rest) =>
      var x, y := ConjunctionValue(c, transformM, w), DisjunctionValue(rest, transformM, w);
      if x > y then x else y
  }

  // ----- the expression the parser builds -----

  function PrimaryExpr(p: Primary, transformM: bool): KExpr {
    match p
    case Single(a) => Leaf(a, transformM)
    case Compared(equal, l, r) => KCompare(equal, PlainM(l), PlainM(r))
    case Negated(q) => KNot(PrimaryExpr(q, transformM))
    case Group(d) => Collapse(OrOp, TermExprs(d, transformM))
  }

  function FactorExprs(c: Conjunction, transformM: bool): seq<KExpr> {
    match c
    case Last(p) => [PrimaryExpr(p, transformM)]
    case And(p, rest) => [PrimaryExpr(p, transformM)] + FactorExprs(rest, transformM)
  }

  function TermExprs(d: Disjunction, transformM: bool): seq<KExpr> {
    match d
    case Only(c) => [Collapse(AndOp, FactorExprs(c, transformM))]
    case Or(c, rest) => [Collapse(AndOp, FactorExprs(c, transformM))] + TermExprs(rest, transformM)
  }

  lemma {:induction false} PrimaryMeaning(p: Primary, transformM: bool, w: World)
    ensures Eval2(PrimaryExpr(p, transformM), w) == PrimaryValue(p, transformM, w)
  {
    match p
    case Single(a) => GuardedMeaning(KAtom(a), transformM, w);
    case Compared(equal, l, r) => GuardedMeaning(KCompare(equal, l, r), transformM, w);
    case Negated(q) => PrimaryMeaning(q, transformM, w);
    case Group(d) =>
      DisjunctionMeaning(d, transformM, w);
      EvalCollapse(OrOp, TermExprs(d, transformM), w);
  }

  lemma {:induction false} ConjunctionMeaning(c: Conjunction, transformM: bool, w: World)
    ensures Eval2(KOp(AndOp, FactorExprs(c, transformM)), w) == ConjunctionValue(c, transformM, w)
  {
    var x := PrimaryExpr(c.p, transformM);
    PrimaryMeaning(c.p, transformM, w);
    EvalAppend(AndOp, [], x, w);
    assert [] + [x] == [x];
    if c.And? {
      ConjunctionMeaning(c.rest, transformM, w);
      EvalConcat(AndOp, [x], FactorExprs(c.rest, transformM), w);
    }
  }

  lemma {:induction false} DisjunctionMeaning(d: Disjunction, transformM: bool, w: World)
    ensures Eval2(KOp(OrOp, TermExprs(d, transformM)), w) == DisjunctionValue(d, transformM, w)
  {
    var x := Collapse(AndOp, FactorExprs(d.c, transformM));
    ConjunctionMeaning(d.c, transformM, w);
    EvalCollapse(AndOp, FactorExprs(d.c, transformM), w);
    EvalAppend(OrOp, [], x, w);
    assert [] + [x] == [x];
    if d.Or? {
      DisjunctionMeaning(d.rest, transformM, w);
      EvalConcat(OrOp, [x], TermExprs(d.rest, transformM), w);
    }
  }

  // ----- the parser accepts every sentence -----

  lemma AcceptsAtom(p: Primary, a: Atom, post: seq<Token>, transformM: bool)
    requires !Starts(post, TEqual) && !Starts(post, TUnequal)
    requires p == Single(a) || (p.Compared? && p.l == a)
    ensures var ts := PrimaryTokens(p) + post;
      ts[0] == TAtom(a) && AfterAtom(a, ts[1..], transformM) == Parsed(PrimaryExpr(p, transformM), post, true)
  {
    hide Leaf, PlainM;
    var ts := PrimaryTokens(p) + post;
    if p.Single? {
      assert ts[1..] == post;
    } else {
      assert ts[1..] == [if p.equal then TEqual else TUnequal, TAtom(p.r)] + post;
      assert ts[1..][2..] == post;
    }
  }

  lemma {:induction false} AcceptsPrimary(p: Primary, post: seq<Token>, transformM: bool)
    requires !Starts(post, TEqual) && !Starts(post, TUnequal)
    ensures Factor(PrimaryTokens(p) + post, transformM) == Parsed(PrimaryExpr(p, transformM), post, true)
    decreases p, 0
  {
    hide OrTerms, AndTerms, AfterAtom, DisjunctionTokens, TermExprs, Collapse;
    var ts := PrimaryTokens(p) + post;
    match p
    case Single(a) => AcceptsAtom(p, a, post, transformM);
    case Compared(_, l, _) => AcceptsAtom(p, l, post, transformM);
    case Negated(q) =>
      assert ts[1..] == PrimaryTokens(q) + post;
      AcceptsPrimary(q, post, transformM);
    case Group(d) =>
      assert ts[1..] == DisjunctionTokens(d) + ([TClose] + post);
      AcceptsDisjunction(d, [], true, [TClose] + post, transformM);
      assert [] + TermExprs(d, transformM) == TermExprs(d, transformM);
      assert ([TClose] + post)[1..] == post;
  }

  lemma {:induction false} AcceptsConjunction(
    c: Conjunction, found: seq<KExpr>, ok: bool, post: seq<Token>, transformM: bool)
    requires EndsTerm(post)
    ensures AndTerms(ConjunctionTokens(c) + post, found, ok, transformM)
      == Parsed(Collapse(AndOp, found + FactorExprs(c, transformM)), post, ok)
    decreases c, 1
  {
    hide Factor, OrTerms, PrimaryTokens, PrimaryExpr, Collapse;
    var x := PrimaryExpr(c.p, transformM);
    if c.And? {
      var more := [TAnd] + ConjunctionTokens(c.rest) + post;
      assert ConjunctionTokens(c) + post == PrimaryTokens(c.p) + more;
      assert more[1..] == ConjunctionTokens(c.rest) + post;
      AcceptsPrimary(c.p, more, transformM);
      AcceptsConjunction(c.rest, found + [x], ok, post, transformM);
      assert found + [x] + FactorExprs(c.rest, transformM) == found + FactorExprs(c, transformM);
    } else {
      AcceptsPrimary(c.p, post, transformM);
    }
  }

  lemma {:induction false} AcceptsDisjunction(
    d: Disjunction, found: seq<KExpr>, ok: bool, post: seq<Token>, transformM: bool)
    requires EndsExpr(post)
    ensures OrTerms(DisjunctionTokens(d) + post, found, ok, transformM)
      == Parsed(Collapse(OrOp, found + TermExprs(d, transformM)), post, ok)
    decreases d, 2
  {
    hide AndTerms, ConjunctionTokens, FactorExprs, Collapse;
    var x := Collapse(AndOp, FactorExprs(d.c, transformM));
    assert [] + FactorExprs(d.c, transformM) == FactorExprs(d.c, transformM);
    if d.Or? {
      var more := [TOr] + DisjunctionTokens(d.rest) + post;
      assert DisjunctionTokens(d) + post == ConjunctionTokens(d.c) + more;
      assert more[1..] == DisjunctionTokens(d.rest) + post;
      AcceptsConjunction(d.c, [], true, more, transformM);
      AcceptsDisjunction(d.rest, found + [x], ok, post, transformM);
      assert found + [x] + TermExprs(d.rest, transformM) == found + TermExprs(d, transformM);
    } else {
      AcceptsConjunction(d.c, [], true, post, transformM);
    }
  }

  // ----- and nothing else -----

  lemma DerivesAtom(ts: seq<Token>, a: Atom, transformM: bool) returns (p: Primary)
    requires ts != [] && ts[0] == TAtom(a) && AfterAtom(a, ts[1..], transformM).usable
    ensures var r := AfterAtom(a, ts[1..], transformM);
      ts == PrimaryTokens(p) + r.rest && r.e == PrimaryExpr(p, transformM)
  {
    hide Leaf, PlainM;
    if Starts(ts[1..], TEqual) || Starts(ts[1..], TUnequal) {
      p := Compared(ts[1].TEqual?, a, ts[2].a);
      assert ts == ts[..3] + ts[3..] && ts[1..][2..] == ts[3..];
    } else {
      p := Single(a);
      assert ts == [ts[0]] + ts[1..];
    }
  }

  lemma {:induction false} DerivesPrimary(ts: seq<Token>, transformM: bool) returns (p: Primary)
    requires var r := Factor(ts, transformM); r.Parsed? && r.usable
    ensures var r := Factor(ts, transformM); ts == PrimaryTokens(p) + r.rest && r.e == PrimaryExpr(p, transformM)
    decreases |ts|, 0
  {
    hide OrTerms, AndTerms, AfterAtom, DisjunctionTokens, TermExprs, Collapse;
    var r := Factor(ts, transformM);
    match ts[0]
    case TOpen =>
      var d := DerivesDisjunction(ts[1..], [], true, transformM);
      assert [] + TermExprs(d, transformM) == TermExprs(d, transformM);
      p := Group(d);
      assert ts == [TOpen] + ts[1..];
    case TNot =>
      var q := DerivesPrimary(ts[1..], transformM);
      p := Negated(q);
      assert ts == [TNot] + ts[1..];
    case TAtom(a) => p := DerivesAtom(ts, a, transformM);
  }

  lemma {:induction false} DerivesConjunction(ts: seq<Token>, found: seq<KExpr>, ok: bool, transformM: bool)
    returns (c: Conjunction)
    requires var r := AndTerms(ts, found, ok, transformM); r.Parsed? && r.usable
    ensures var r := AndTerms(ts, found, ok, transformM);
      && ok && ts == ConjunctionTokens(c) + r.rest && !Starts(r.rest, TAnd)
      && r.e == Collapse(AndOp, found + FactorExprs(c, transformM))
    decreases |ts|, 1
  {
    hide Factor, OrTerms, PrimaryTokens, PrimaryExpr, Collapse;
    var x := Factor(ts, transformM);
    if Starts(x.rest, TAnd) {
      var rest := DerivesConjunction(x.rest[1..], found + [x.e], ok && x.usable, transformM);
      var p := DerivesPrimary(ts, transformM);
      c := And(p, rest);
      assert found + [x.e] + FactorExprs(rest, transformM) == found + FactorExprs(c, transformM);
      assert x.rest == [TAnd] + x.rest[1..];
    } else {
      var p := DerivesPrimary(ts, transformM);
      c := Last(p);
    }
  }

  lemma {:induction false} DerivesDisjunction(ts: seq<Token>, found: seq<KExpr>, ok: bool, transformM: bool)
    returns (d: Disjunction)
    requires var r := OrTerms(ts, found, ok, transformM); r.Parsed? && r.usable
    ensures var r := OrTerms(ts, found, ok, transformM);
      && ok && ts == DisjunctionTokens(d) + r.rest && !Starts(r.rest, TAnd) && !Starts(r.rest, TOr)
      && r.e == Collapse(OrOp, found + TermExprs(d, transformM))
    decreases |ts|, 2
  {
    hide AndTerms, ConjunctionTokens, FactorExprs, Collapse;
    var x := AndTerms(ts, [], true, transformM);
    if Starts(x.rest, TOr) {
      var rest := DerivesDisjunction(x.rest[1..], found + [x.e], ok && x.usable, transformM);
      var c := DerivesConjunction(ts, [], true, transformM);
      d := Or(c, rest);
      assert [] + FactorExprs(c, transformM) == FactorExprs(c, transformM);
      assert found + [x.e] + TermExprs(rest, transformM) == found + TermExprs(d, transformM);
      assert x.rest == [TOr] + x.rest[1..];
    } else {
      var c := DerivesConjunction(ts, [], true, transformM);
      assert [] + FactorExprs(c, transformM) == FactorExprs(c, transformM);
      d := Only(c);
    }
  }

  // ----- together -----

  /** A sentence, followed by nothing that would continue it, is consumed whole and gets the value the grammar gives
      it: && before ||, ! before both. */
  lemma SentenceValue(d: Disjunction, post: seq<Token>, transformM: bool, w: World)
    requires EndsExpr(post)
    ensures var r := OrTerms(DisjunctionTokens(d) + post, [], true, transformM);
      r.Parsed? && r.usable && r.rest == post && Eval2(r.e, w) == DisjunctionValue(d, transformM, w)
  {
    AcceptsDisjunction(d, [], true, post, transformM);
    assert [] + TermExprs(d, transformM) == TermExprs(d, transformM);
    DisjunctionMeaning(d, transformM, w);
    EvalCollapse(OrOp, TermExprs(d, transformM), w);
  }

  /** The parser takes all of the tokens and yields a usable expression exactly when they are a sentence. */
  lemma ParserExact(ts: seq<Token>, transformM: bool)
    ensures var r := OrTerms(ts, [], true, transformM);
      (r.Parsed? && r.usable && r.rest == []) <==> exists d :: DisjunctionTokens(d) == ts
  {
    var r := OrTerms(ts, [], true, transformM);
    if r.Parsed? && r.usable && r.rest == [] {
      var d := DerivesDisjunction(ts, [], true, transformM);
      assert DisjunctionTokens(d) == ts;
    }
    if d :| DisjunctionTokens(d) == ts {
      AcceptsDisjunction(d, [], true, [], transformM);
      assert ts + [] == ts;
    }
  }

  /** The grammar is unambiguous as to values. */
  lemma Unambiguous(d: Disjunction, d': Disjunction, transformM: bool, w: World)
    requires DisjunctionTokens(d) == DisjunctionTokens(d')
    ensures DisjunctionValue(d, transformM, w) == DisjunctionValue(d', transformM, w)
  {
    SentenceValue(d, [], transformM, w);
    SentenceValue(d', [], transformM, w);
  }
}
