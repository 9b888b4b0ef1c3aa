/** kconfiglib's expression parser and printer, at the level of tokens. */
module KParser {
  import opened Wrappers
  import opened Expr
  import opened KExpr
  import opened KSemantics

  // Keywords never occur in an expression; they are all one token here.
  datatype Token = TAnd | TOr | TNot | TOpen | TClose | TEqual | TUnequal | TAtom(a: Atom) | TKeyword

  datatype ParseError = Malformed | MissingParenthesis

  /** What is parsed from the front of a token list, and what is left of the list. A comparison may lack its right side:
      the parser then goes on, but the expression is not usable, and "" stands for what cannot be evaluated. */
  datatype Parse = Parsed(e: KExpr, rest: seq<Token>, usable: bool) | Failed(error: ParseError)

  // ----- the grammar -----

  predicate Starts(ts: seq<Token>, t: Token) {
    ts != [] && ts[0] == t
  }

  // The symbol m, or the string "m".
  predicate IsM(a: Atom) {
    a == ASym("m") || a == AStr("m")
  }

  // In a comparison the symbol m is replaced by the string.
  function PlainM(a: Atom): Atom {
    if a == ASym("m") then AStr("m") else a
  }

  const MAndModules := KOp(AndOp, [KAtom(AStr("m")), KAtom(ASym(Modules))])

  function Leaf(a: Atom, transformM: bool): KExpr {
    if transformM && IsM(a) then MAndModules else KAtom(a)
  }

  function Collapse(op: Op, es: seq<KExpr>): KExpr {
    if |es| == 1 then es[0] else KOp(op, es)
  }

  function AfterAtom(a: Atom, ts: seq<Token>, transformM: bool): (r: Parse)
    ensures r.Parsed? && |r.rest| <= |ts|
  {
    if Starts(ts, TEqual) || Starts(ts, TUnequal) then
      var usable := |ts| > 1 && ts[1].TAtom?;
      var right := if usable then PlainM(ts[1].a) else AStr("");
      Parsed(KCompare(ts[0].TEqual?, PlainM(a), right), if |ts| > 1 then ts[2..] else [], usable)
    else Parsed(Leaf(a, transformM), ts, true)
  }

  function Factor(ts: seq<Token>, transformM: bool): (r: Parse)
    ensures r.Parsed? ==> |r.rest| < |ts|
    decreases |ts|, 0
  {
    if ts == [] then Failed(Malformed)
    else match ts[0]
      case TOpen =>
        var r := OrTerms(ts[1..], [], true, transformM);
        if r.Failed? then r
        else if Starts(r.rest, TClose) then r.(rest := r.rest[1..])
        else Failed(MissingParenthesis)
      case TNot =>
        var r := Factor(ts[1..], transformM);
        if r.Failed? then r else r.(e := KNot(r.e))
      case TAtom(a) => AfterAtom(a, ts[1..], transformM)
      case _ => Failed(Malformed)
  }

  // Factors joined by &&, added to those already found.
  function AndTerms(ts: seq<Token>, found: seq<KExpr>, ok: bool, transformM: bool): (r: Parse)
    ensures r.Parsed? ==> |r.rest| < |ts|
    decreases |ts|, 1
  {
    var r := Factor(ts, transformM);
    if r.Failed? then r else MoreFactors(r.rest, found + [r.e], ok && r.usable, transformM)
  }

  function MoreFactors(ts: seq<Token>, found: seq<KExpr>, ok: bool, transformM: bool): (r: Parse)
    ensures r.Parsed? ==> |r.rest| <= |ts|
    decreases |ts|, 0
  {
    if Starts(ts, TAnd) then AndTerms(ts[1..], found, ok, transformM) else Parsed(Collapse(AndOp, found), ts, ok)
  }

  // Conjunctions joined by ||, added to those already found.
  function OrTerms(ts: seq<Token>, found: seq<KExpr>, ok: bool, transformM: bool): (r: Parse)
    ensures r.Parsed? ==> |r.rest| < |ts|
    decreases |ts|, 2
  {
    var r := AndTerms(ts, [], true, transformM);
    if r.Failed? then r else MoreTerms(r.rest, found + [r.e], ok && r.usable, transformM)
  }

  function MoreTerms(ts: seq<Token>, found: seq<KExpr>, ok: bool, transformM: bool): (r: Parse)
    ensures r.Parsed? ==> |r.rest| <= |ts|
    decreases |ts|, 0
  {
    if Starts(ts, TOr) then OrTerms(ts[1..], found, ok, transformM) else Parsed(Collapse(OrOp, found), ts, ok)
  }

  // ----- the parser -----

  class Feed {
    const items: seq<Token>
    var i: nat

    predicate Valid()
      reads this
    {
      i <= |items|
    }

    function Rest(): seq<Token>
      requires Valid()
      reads this
    {
      items[i..]
    }

    constructor (items: seq<Token>)
      ensures Valid() && Rest() == items
    {
      this.items, i := items, 0;
    }

    method GetNext() returns (t: Option<Token>)
      requires Valid()
      modifies this
      ensures Valid() && if old(Rest()) == [] then t == None && Rest() == []
        else t == Some(old(Rest())[0]) && Rest() == old(Rest())[1..]
    {
      if i >= |items| {
        return None;
      }
      t, i := Some(items[i]), i + 1;
    }

    method PeekNext() returns (t: Option<Token>)
      requires Valid()
      ensures t == if Rest() == [] then None else Some(Rest()[0])
    {
      t := if i >= |items| then None else Some(items[i]);
    }

    method Check(token: Token) returns (b: bool)
      requires Valid()
      modifies this
      ensures Valid() && b == Starts(old(Rest()), token) && Rest() == if b then old(Rest())[1..] else old(Rest())
    {
      b := i < |items| && items[i] == token;
      if b {
        i := i + 1;
      }
    }
  }

  // An exception leaves the position of the feed open.
  datatype Outcome = Returned(e: KExpr, usable: bool) | Raised(error: ParseError)

  ghost predicate Matches(p: Parse, r: Outcome, rest: seq<Token>) {
    match p
    case Parsed(e, left, usable) => r == Returned(e, usable) && rest == left
    case Failed(error) => r == Raised(error)
  }

  class Parser {
    var transformM: bool   // parse_expr_transform_m

    // _parse_expr
    method ParseExpr(feed: Feed, transformM: bool) returns (r: Outcome)
      requires feed.Valid()
      modifies this, feed
      ensures feed.Valid() && Matches(OrTerms(old(feed.Rest()), [], true, transformM), r, feed.Rest())
    {
      this.transformM := transformM;
      r := ParseExpr2(feed);
    }

    // _parse_expr_2
    method ParseExpr2(feed: Feed) returns (r: Outcome)
      requires feed.Valid()
      modifies feed
      ensures feed.Valid() && Matches(OrTerms(old(feed.Rest()), [], true, transformM), r, feed.Rest())
      decreases |feed.Rest()|, 2
    {
      r := ParseOrTerm(feed);
      if r.Raised? {
        return;
      }
      var terms, usable := [r.e], r.usable;
      assert [] + terms == terms;
      ghost var all := OrTerms(old(feed.Rest()), [], true, transformM);
      while true
        invariant feed.Valid() && |feed.Rest()| < |old(feed.Rest())| && |terms| >= 1
        invariant all == MoreTerms(feed.Rest(), terms, usable, transformM)
        decreases |feed.Rest()|
      {
        var more := feed.Check(TOr);
        if !more {
          break;
        }
        r := ParseOrTerm(feed);
        if r.Raised? {
          return;
        }
        terms, usable := terms + [r.e], usable && r.usable;
      }
      r := Returned(if |terms| == 1 then terms[0] else KOp(OrOp, terms), usable);
    }

    // _parse_or_term
    method ParseOrTerm(feed: Feed) returns (r: Outcome)
      requires feed.Valid()
      modifies feed
      ensures feed.Valid() && Matches(AndTerms(old(feed.Rest()), [], true, transformM), r, feed.Rest())
      decreases |feed.Rest()|, 1
    {
      r := ParseFactor(feed);
      if r.Raised? {
        return;
      }
      var terms, usable := [r.e], r.usable;
      assert [] + terms == terms;
      ghost var all := AndTerms(old(feed.Rest()), [], true, transformM);
      while true
        invariant feed.Valid() && |feed.Rest()| < |old(feed.Rest())| && |terms| >= 1
        invariant all == MoreFactors(feed.Rest(), terms, usable, transformM)
        decreases |feed.Rest()|
      {
        var more := feed.Check(TAnd);
        if !more {
          break;
        }
        r := ParseFactor(feed);
        if r.Raised? {
          return;
        }
        terms, usable := terms + [r.e], usable && r.usable;
      }
      r := Returned(if |terms| == 1 then terms[0] else KOp(AndOp, terms), usable);
    }

    // _parse_factor
    method ParseFactor(feed: Feed) returns (r: Outcome)
      requires feed.Valid()
      modifies feed
      ensures feed.Valid() && Matches(Factor(old(feed.Rest()), transformM), r, feed.Rest())
      decreases |feed.Rest()|, 0
    {
      var open := feed.Check(TOpen);
      if open {
        r := ParseExpr2(feed);
        if r.Returned? {
          var closed := feed.Check(TClose);
          if !closed {
            r := Raised(MissingParenthesis);
          }
        }
        return;
      }
      var negated := feed.Check(TNot);
      if negated {
        r := ParseFactor(feed);
        if r.Returned? {
          r := Returned(KNot(r.e), r.usable);
        }
        return;
      }
      var t := feed.GetNext();
      if t.None? || !t.value.TAtom? {
        return Raised(Malformed);
      }
      r := ParseAfterAtom(feed, t.value.a);
    }

    // The rest of _parse_factor, after a symbol or string.
    method ParseAfterAtom(feed: Feed, a: Atom) returns (r: Outcome)
      requires feed.Valid()
      modifies feed
      ensures feed.Valid() && Matches(AfterAtom(a, old(feed.Rest()), transformM), r, feed.Rest())
    {
      var next := feed.PeekNext();
      if next != Some(TEqual) && next != Some(TUnequal) {
        if transformM && (a == ASym("m") || a == AStr("m")) {
          return Returned(KOp(AndOp, [KAtom(AStr("m")), KAtom(ASym(Modules))]), true);
        }
        return Returned(KAtom(a), true);
      }
      var relation := feed.GetNext();
      var t := feed.GetNext();
      var usable := t.Some? && t.value.TAtom?;
      var right := if usable then PlainM(t.value.a) else AStr("");
      r := Returned(KCompare(relation.value.TEqual?, PlainM(a), right), usable);
    }
  }

  // ----- the printer -----

  function OpToken(op: Op): Token {
    if op.AndOp? then TAnd else TOr
  }

  function Precedence(op: Op): nat {
    if op.AndOp? then 1 else 0
  }

  // The operand of `op` is printed without parentheses.
  predicate Bare(op: Op, e: KExpr) {
    match e
    case KAtom(_) => true
    case KCompare(_, _, _) => true
    case KNot(_) => Precedence(op) <= 2
    case KOp(op', _) => Precedence(op) <= Precedence(op')
  }

  // _expr_to_str_rec
  function Print(e: KExpr): seq<Token>
    decreases e, 1
  {
    match e
    case KAtom(a) => [TAtom(a)]
    case KCompare(equal, l, r) => [TAtom(l), if equal then TEqual else TUnequal, TAtom(r)]
    case KNot(x) => if x.KAtom? then [TNot] + Print(x) else [TNot, TOpen] + Print(x) + [TClose]
    case KOp(_, _) => Intersperse(e, 0)
  }

  // _intersperse, from operand `i` on
  function Intersperse(e: KExpr, i: nat): seq<Token>
    requires e.KOp? && i <= |e.es|
    decreases e, 0, |e.es| - i
  {
    if i == |e.es| then []
    else (if i == 0 then [] else [OpToken(e.op)]) + Operand(e, i) + Intersperse(e, i + 1)
  }

  function Operand(e: KExpr, i: nat): seq<Token>
    requires e.KOp? && i < |e.es|
    decreases e, 0, 0
  {
    if Bare(e.op, e.es[i]) then Print(e.es[i]) else [TOpen] + Print(e.es[i]) + [TClose]
  }

  // ----- what parsing the printed tokens gives -----

  // The factors a printed operand of && is read as.
  function Factors(e: KExpr, transformM: bool): seq<KExpr>
    decreases e, 2
  {
    match e
    case KAtom(a) => [Leaf(a, transformM)]
    case KCompare(equal, l, r) => [KCompare(equal, PlainM(l), PlainM(r))]
    case KNot(x) => [KNot(Reparsed(x, transformM))]
    case KOp(AndOp, es) => FactorsUpTo(e, |es|, transformM)
    case KOp(OrOp, es) => [Collapse(OrOp, TermsUpTo(e, |es|, transformM))]
  }

  function FactorsUpTo(e: KExpr, n: nat, transformM: bool): seq<KExpr>
    requires e.KOp? && n <= |e.es|
    decreases e, 0, n
  {
    if n == 0 then [] else FactorsUpTo(e, n - 1, transformM) + Factors(e.es[n - 1], transformM)
  }

  // The terms a printed operand of || is read as.
  function Terms(e: KExpr, transformM: bool): seq<KExpr>
    decreases e, 3
  {
    if e.KOp? && e.op.OrOp? then TermsUpTo(e, |e.es|, transformM) else [Collapse(AndOp, Factors(e, transformM))]
  }

  function TermsUpTo(e: KExpr, n: nat, transformM: bool): seq<KExpr>
    requires e.KOp? && n <= |e.es|
    decreases e, 0, n
  {
    if n == 0 then [] else TermsUpTo(e, n - 1, transformM) + Terms(e.es[n - 1], transformM)
  }

  function Reparsed(e: KExpr, transformM: bool): KExpr
    decreases e, 4
  {
    Collapse(OrOp, Terms(e, transformM))
  }

  // Every operand list has at least `least` operands.
  predicate Operands(e: KExpr, least: nat)
    decreases e, 1
  {
    match e
    case KNot(x) => Operands(x, least)
    case KOp(_, es) => least <= |es| && OperandsUpTo(e, |es|, least)
    case _ => true
  }

  predicate OperandsUpTo(e: KExpr, n: nat, least: nat)
    requires e.KOp? && n <= |e.es|
    decreases e, 0, n
  {
    n == 0 || (OperandsUpTo(e, n - 1, least) && Operands(e.es[n - 1], least))
  }

  lemma {:induction false} OperandsAt(e: KExpr, n: nat, i: nat, least: nat)
    requires e.KOp? && i < n <= |e.es| && OperandsUpTo(e, n, least)
    ensures Operands(e.es[i], least)
    decreases n
  {
    if i < n - 1 {
      OperandsAt(e, n - 1, i, least);
    }
  }

  // What may follow an operand of &&, and a whole expression.
  predicate EndsFactor(post: seq<Token>) {
    !Starts(post, TEqual) && !Starts(post, TUnequal)
  }

  predicate EndsTerm(post: seq<Token>) {
    EndsFactor(post) && !Starts(post, TAnd)
  }

  predicate EndsExpr(post: seq<Token>) {
    EndsTerm(post) && !Starts(post, TOr)
  }

  function Parenthesised(e: KExpr): seq<Token> {
    [TOpen] + Print(e) + [TClose]
  }

  // The tokens of an operand of &&.
  function AndOperand(e: KExpr): seq<Token> {
    if Bare(AndOp, e) then Print(e) else Parenthesised(e)
  }

  lemma FirstOperand(e: KExpr, post: seq<Token>)
    requires e.KOp? && |e.es| > 0
    ensures Print(e) + post == Operand(e, 0) + Intersperse(e, 1) + post
  {
    assert Intersperse(e, 0) == Operand(e, 0) + Intersperse(e, 1);
  }

  lemma FollowingOperand(e: KExpr, i: nat, post: seq<Token>)
    requires e.KOp? && i < |e.es|
    ensures Operand(e, i) + Intersperse(e, i + 1) + post == Operand(e, i) + (Intersperse(e, i + 1) + post)
    ensures var rest := Intersperse(e, i + 1) + post;
      if i + 1 == |e.es| then rest == post
      else Starts(rest, OpToken(e.op)) && rest[1..] == Operand(e, i + 1) + Intersperse(e, i + 2) + post
  {
    if i + 1 < |e.es| {
      assert Intersperse(e, i + 1) == [OpToken(e.op)] + (Operand(e, i + 1) + Intersperse(e, i + 2));
    }
  }

  lemma {:induction false} ReadFactors(e: KExpr, found: seq<KExpr>, ok: bool, post: seq<Token>, transformM: bool)
    requires Operands(e, 1) && EndsFactor(post)
    ensures AndTerms(AndOperand(e) + post, found, ok, transformM)
      == MoreFactors(post, found + Factors(e, transformM), ok, transformM)
    decreases e, if e.KOp? && e.op.OrOp? then 7 else 3
  {
    match e
    case KNot(x) =>
      hide Print, Factor, MoreFactors;
      ReadNot(x, post, transformM);
    case KOp(AndOp, es) =>
      hide Print, Factor, MoreFactors;
      assert found + FactorsUpTo(e, 0, transformM) == found;
      FirstOperand(e, post);
      ReadFactorList(e, 0, found, ok, post, transformM);
    case KOp(OrOp, es) =>
      hide Print, Factor, MoreFactors;
      ReadParenthesised(e, post, transformM);
    case _ =>
      ReadLeaf(e, post, transformM);
      hide Factor, MoreFactors;
  }

  lemma ReadLeaf(e: KExpr, post: seq<Token>, transformM: bool)
    requires (e.KAtom? || e.KCompare?) && EndsFactor(post)
    ensures |Factors(e, transformM)| == 1
    ensures Factor(Print(e) + post, transformM) == Parsed(Factors(e, transformM)[0], post, true)
  {
    var ts := Print(e) + post;
    if e.KAtom? {
      assert ts[1..] == post;
    } else {
      assert ts[1..][1] == TAtom(e.r) && ts[1..][2..] == post;
    }
  }

  lemma {:induction false} ReadNot(x: KExpr, post: seq<Token>, transformM: bool)
    requires Operands(x, 1) && EndsFactor(post)
    ensures Factor(Print(KNot(x)) + post, transformM) == Parsed(KNot(Reparsed(x, transformM)), post, true)
    decreases x, 6
  {
    var ts := Print(KNot(x)) + post;
    if x.KAtom? {
      assert ts[1..] == [TAtom(x.a)] + post;
      assert ts[1..][1..] == post;
      assert Factor(ts[1..], transformM) == Parsed(Leaf(x.a, transformM), post, true);
      assert Factors(x, transformM) == [Leaf(x.a, transformM)];
    } else {
      ReadParenthesised(x, post, transformM);
      assert ts[1..] == Parenthesised(x) + post;
    }
  }

  lemma {:induction false} ReadParenthesised(x: KExpr, post: seq<Token>, transformM: bool)
    requires Operands(x, 1)
    ensures Factor(Parenthesised(x) + post, transformM) == Parsed(Reparsed(x, transformM), post, true)
    decreases x, 5
  {
    var inner := [TClose] + post;
    ReadTerms(x, [], true, inner, transformM);
    assert (Parenthesised(x) + post)[1..] == Print(x) + inner;
    assert inner[1..] == post && [] + Terms(x, transformM) == Terms(x, transformM);
  }

  lemma {:induction false} ReadFactorList(
    e: KExpr, i: nat, found: seq<KExpr>, ok: bool, post: seq<Token>, transformM: bool)
    requires e.KOp? && e.op.AndOp? && Operands(e, 1) && i < |e.es| && EndsFactor(post)
    ensures var ts := Operand(e, i) + Intersperse(e, i + 1) + post;
      AndTerms(ts, found + FactorsUpTo(e, i, transformM), ok, transformM)
        == MoreFactors(post, found + Factors(e, transformM), ok, transformM)
    decreases e, 2, |e.es| - i
  {
    hide Intersperse, AndTerms;
    var x, rest := e.es[i], Intersperse(e, i + 1) + post;
    FollowingOperand(e, i, post);
    assert Operand(e, i) == AndOperand(x);
    OperandsAt(e, |e.es|, i, 1);
    var sofar := found + FactorsUpTo(e, i, transformM);
    ReadFactors(x, sofar, ok, rest, transformM);
    assert sofar + Factors(x, transformM) == found + FactorsUpTo(e, i + 1, transformM);
    if i + 1 < |e.es| {
      ReadFactorList(e, i + 1, found, ok, post, transformM);
    }
  }

  lemma {:induction false} ReadTerms(e: KExpr, found: seq<KExpr>, ok: bool, post: seq<Token>, transformM: bool)
    requires Operands(e, 1) && EndsTerm(post)
    ensures OrTerms(Print(e) + post, found, ok, transformM)
      == MoreTerms(post, found + Terms(e, transformM), ok, transformM)
    decreases e, 4
  {
    if e.KOp? && e.op.OrOp? {
      assert found + TermsUpTo(e, 0, transformM) == found;
      FirstOperand(e, post);
      ReadTermList(e, 0, found, ok, post, transformM);
    } else {
      ReadFactors(e, [], true, post, transformM);
      assert [] + Factors(e, transformM) == Factors(e, transformM);
    }
  }

  lemma {:induction false} ReadTermList(
    e: KExpr, i: nat, found: seq<KExpr>, ok: bool, post: seq<Token>, transformM: bool)
    requires e.KOp? && e.op.OrOp? && Operands(e, 1) && i < |e.es| && EndsTerm(post)
    ensures var ts := Operand(e, i) + Intersperse(e, i + 1) + post;
      OrTerms(ts, found + TermsUpTo(e, i, transformM), ok, transformM)
        == MoreTerms(post, found + Terms(e, transformM), ok, transformM)
    decreases e, 2, |e.es| - i
  {
    hide Intersperse, OrTerms;
    var x, rest := e.es[i], Intersperse(e, i + 1) + post;
    FollowingOperand(e, i, post);
    assert Operand(e, i) == Print(x);
    OperandsAt(e, |e.es|, i, 1);
    var sofar := found + TermsUpTo(e, i, transformM);
    ReadTerms(x, sofar, ok, rest, transformM);
    assert sofar + Terms(x, transformM) == found + TermsUpTo(e, i + 1, transformM);
    if i + 1 < |e.es| {
      ReadTermList(e, i + 1, found, ok, post, transformM);
    }
  }

  /** Parsing what was printed takes exactly the printed tokens and yields the expression regrouped. */
  lemma ParsePrinted(e: KExpr, post: seq<Token>, transformM: bool)
    requires Operands(e, 1) && EndsExpr(post)
    ensures OrTerms(Print(e) + post, [], true, transformM) == Parsed(Reparsed(e, transformM), post, true)
  {
    ReadTerms(e, [], true, post, transformM);
    assert [] + Terms(e, transformM) == Terms(e, transformM);
  }

  // ----- the regrouped expression means the same -----

  // What the parser makes of m, with everything else in place.
  function Guarded(e: KExpr, transformM: bool): KExpr
    decreases e, 1
  {
    match e
    case KAtom(a) => Leaf(a, transformM)
    case KCompare(equal, l, r) => KCompare(equal, PlainM(l), PlainM(r))
    case KNot(x) => KNot(Guarded(x, transformM))
    case KOp(op, es) => KOp(op, GuardedUpTo(e, |es|, transformM))
  }

  function GuardedUpTo(e: KExpr, n: nat, transformM: bool): (es: seq<KExpr>)
    requires e.KOp? && n <= |e.es|
    ensures |es| == n
    decreases e, 0, n
  {
    if n == 0 then [] else GuardedUpTo(e, n - 1, transformM) + [Guarded(e.es[n - 1], transformM)]
  }

  lemma {:induction false} EvalPrefix(op: Op, es: seq<KExpr>, more: seq<KExpr>, n: nat, w: World)
    requires n <= |es|
    ensures EvalList(KOp(op, es + more), n, w) == EvalList(KOp(op, es), n, w)
  {
    if n > 0 {
      EvalPrefix(op, es, more, n - 1, w);
      assert (es + more)[n - 1] == es[n - 1];
    }
  }

  lemma EvalAppend(op: Op, es: seq<KExpr>, x: KExpr, w: World)
    ensures Eval2(KOp(op, es + [x]), w) == Apply(op, Eval2(KOp(op, es), w), Eval2(x, w))
  {
    EvalPrefix(op, es, [x], |es|, w);
    assert (es + [x])[|es|] == x;
  }

  lemma {:induction false} EvalConcat(op: Op, es: seq<KExpr>, fs: seq<KExpr>, w: World)
    ensures Eval2(KOp(op, es + fs), w) == Apply(op, Eval2(KOp(op, es), w), Eval2(KOp(op, fs), w))
    decreases |fs|
  {
    if fs == [] {
      assert es + fs == es;
    } else {
      var init, x := fs[..|fs| - 1], fs[|fs| - 1];
      EvalConcat(op, es, init, w);
      EvalAppend(op, es + init, x, w);
      EvalAppend(op, init, x, w);
      assert es + fs == (es + init) + [x] && fs == init + [x];
    }
  }

  lemma EvalCollapse(op: Op, es: seq<KExpr>, w: World)
    ensures Eval2(Collapse(op, es), w) == Eval2(KOp(op, es), w)
  {
    if |es| == 1 {
      EvalAppend(op, [], es[0], w);
      assert [] + [es[0]] == es;
    }
  }

  lemma {:induction false} FactorsMeaning(e: KExpr, transformM: bool, w: World)
    ensures Eval2(KOp(AndOp, Factors(e, transformM)), w) == Eval2(Guarded(e, transformM), w)
    decreases e, 2
  {
    var fs := Factors(e, transformM);
    if e.KOp? && e.op.AndOp? {
      FactorListMeaning(e, |e.es|, transformM, w);
    } else {
      EvalCollapse(AndOp, fs, w);
      if e.KNot? {
        ReparsedMeaning(e.e, transformM, w);
      } else if e.KOp? {
        TermListMeaning(e, |e.es|, transformM, w);
        EvalCollapse(OrOp, TermsUpTo(e, |e.es|, transformM), w);
      }
    }
  }

  lemma {:induction false} FactorListMeaning(e: KExpr, n: nat, transformM: bool, w: World)
    requires e.KOp? && n <= |e.es|
    ensures Eval2(KOp(AndOp, FactorsUpTo(e, n, transformM)), w) == Eval2(KOp(AndOp, GuardedUpTo(e, n, transformM)), w)
    decreases e, 0, n
  {
    if n > 0 {
      FactorListMeaning(e, n - 1, transformM, w);
      FactorsMeaning(e.es[n - 1], transformM, w);
      EvalConcat(AndOp, FactorsUpTo(e, n - 1, transformM), Factors(e.es[n - 1], transformM), w);
      EvalAppend(AndOp, GuardedUpTo(e, n - 1, transformM), Guarded(e.es[n - 1], transformM), w);
    }
  }

  lemma {:induction false} TermsMeaning(e: KExpr, transformM: bool, w: World)
    ensures Eval2(KOp(OrOp, Terms(e, transformM)), w) == Eval2(Guarded(e, transformM), w)
    decreases e, 3
  {
    if e.KOp? && e.op.OrOp? {
      TermListMeaning(e, |e.es|, transformM, w);
    } else {
      FactorsMeaning(e, transformM, w);
      EvalCollapse(AndOp, Factors(e, transformM), w);
      EvalCollapse(OrOp, Terms(e, transformM), w);
    }
  }

  lemma {:induction false} TermListMeaning(e: KExpr, n: nat, transformM: bool, w: World)
    requires e.KOp? && n <= |e.es|
    ensures Eval2(KOp(OrOp, TermsUpTo(e, n, transformM)), w) == Eval2(KOp(OrOp, GuardedUpTo(e, n, transformM)), w)
    decreases e, 0, n
  {
    if n > 0 {
      TermListMeaning(e, n - 1, transformM, w);
      TermsMeaning(e.es[n - 1], transformM, w);
      EvalConcat(OrOp, TermsUpTo(e, n - 1, transformM), Terms(e.es[n - 1], transformM), w);
      EvalAppend(OrOp, GuardedUpTo(e, n - 1, transformM), Guarded(e.es[n - 1], transformM), w);
    }
  }

  lemma {:induction false} ReparsedMeaning(e: KExpr, transformM: bool, w: World)
    ensures Eval2(Reparsed(e, transformM), w) == Eval2(Guarded(e, transformM), w)
    decreases e, 4
  {
    TermsMeaning(e, transformM, w);
    EvalCollapse(OrOp, Terms(e, transformM), w);
  }

  // No m that the parser would rewrite.
  predicate NoM(e: KExpr, transformM: bool)
    decreases e, 1
  {
    match e
    case KAtom(a) => transformM ==> !IsM(a)
    case KCompare(_, l, r) => l != ASym("m") && r != ASym("m")
    case KNot(x) => NoM(x, transformM)
    case KOp(_, es) => NoMUpTo(e, |es|, transformM)
  }

  predicate NoMUpTo(e: KExpr, n: nat, transformM: bool)
    requires e.KOp? && n <= |e.es|
    decreases e, 0, n
  {
    n == 0 || (NoMUpTo(e, n - 1, transformM) && NoM(e.es[n - 1], transformM))
  }

  lemma {:induction false} GuardedPlain(e: KExpr, transformM: bool)
    requires NoM(e, transformM)
    ensures Guarded(e, transformM) == e
    decreases e, 1
  {
    match e
    case KNot(x) => GuardedPlain(x, transformM);
    case KOp(op, es) =>
      GuardedPlainUpTo(e, |es|, transformM);
      assert es[..|es|] == es;
    case _ =>
  }

  lemma {:induction false} GuardedPlainUpTo(e: KExpr, n: nat, transformM: bool)
    requires e.KOp? && n <= |e.es| && NoMUpTo(e, n, transformM)
    ensures GuardedUpTo(e, n, transformM) == e.es[..n]
    decreases e, 0, n
  {
    if n > 0 {
      GuardedPlainUpTo(e, n - 1, transformM);
      GuardedPlain(e.es[n - 1], transformM);
    }
  }

  /** The round trip: printing and parsing an expression keeps its value everywhere. */
  lemma RoundTripMeaning(e: KExpr, post: seq<Token>, transformM: bool, w: World)
    requires Operands(e, 1) && EndsExpr(post) && NoM(e, transformM)
    ensures var r := OrTerms(Print(e) + post, [], true, transformM);
      r.Parsed? && r.rest == post && r.usable && Eval2(r.e, w) == Eval2(e, w)
  {
    ParsePrinted(e, post, transformM);
    ReparsedMeaning(e, transformM, w);
    GuardedPlain(e, transformM);
  }

  // ----- m -----

  // The value of a bare m: m where MODULES is set, n elsewhere.
  function BareM(w: World): Tristate {
    if w.tri(Modules) && (w.val(Modules) == "y" || w.val(Modules) == "m") then MOD else NO
  }

  function TextWithM(a: Atom, w: World): string {
    if a == ASym("m") then "m" else AtomText(a, w)
  }

  /** The value of an expression as written, a bare m counting as m only as far as MODULES is set. */
  function WrittenValue(e: KExpr, transformM: bool, w: World): Tristate
    decreases e, 1
  {
    match e
    case KAtom(a) => if transformM && IsM(a) then BareM(w) else Eval2(e, w)
    case KCompare(equal, l, r) => if equal == (TextWithM(l, w) == TextWithM(r, w)) then YES else NO
    case KNot(x) => 2 - WrittenValue(x, transformM, w)
    case KOp(_, es) => WrittenValues(e, |es|, transformM, w)
  }

  function WrittenValues(e: KExpr, n: nat, transformM: bool, w: World): Tristate
    requires e.KOp? && n <= |e.es|
    decreases e, 0, n
  {
    if n == 0 then (if e.op.AndOp? then YES else NO)
    else
      var x, y := WrittenValues(e, n - 1, transformM, w), WrittenValue(e.es[n - 1], transformM, w);
      if e.op.AndOp? == (x < y) then x else y
  }

  lemma BareMGuarded(w: World)
    ensures Eval2(MAndModules, w) == BareM(w)
  {
    var m, mods := KAtom(AStr("m")), KAtom(ASym(Modules));
    EvalAppend(AndOp, [], m, w);
    EvalAppend(AndOp, [m], mods, w);
    assert [] + [m] == [m] && [m] + [mods] == [m, mods];
    assert "m"[0] != "y"[0];
  }

  lemma {:induction false} GuardedMeaning(e: KExpr, transformM: bool, w: World)
    ensures Eval2(Guarded(e, transformM), w) == WrittenValue(e, transformM, w)
    decreases e, 1
  {
    match e
    case KAtom(a) => BareMGuarded(w);
    case KCompare(_, _, _) =>
    case KNot(x) => GuardedMeaning(x, transformM, w);
    case KOp(_, es) => GuardedListMeaning(e, |es|, transformM, w);
  }

  lemma {:induction false} GuardedListMeaning(e: KExpr, n: nat, transformM: bool, w: World)
    requires e.KOp? && n <= |e.es|
    ensures Eval2(KOp(e.op, GuardedUpTo(e, n, transformM)), w) == WrittenValues(e, n, transformM, w)
    decreases e, 0, n
  {
    if n > 0 {
      GuardedListMeaning(e, n - 1, transformM, w);
      GuardedMeaning(e.es[n - 1], transformM, w);
      EvalAppend(e.op, GuardedUpTo(e, n - 1, transformM), Guarded(e.es[n - 1], transformM), w);
    }
  }

  /** What parsing makes of any printed expression: its value as written, with every bare m limited by MODULES. */
  lemma ParsedMeaning(e: KExpr, post: seq<Token>, transformM: bool, w: World)
    requires Operands(e, 1) && EndsExpr(post)
    ensures var r := OrTerms(Print(e) + post, [], true, transformM);
      r.Parsed? && r.rest == post && r.usable && Eval2(r.e, w) == WrittenValue(e, transformM, w)
  {
    ParsePrinted(e, post, transformM);
    ReparsedMeaning(e, transformM, w);
    GuardedMeaning(e, transformM, w);
  }

  // ----- the regrouped expression is the flattened one -----

  function Spliced(op: Op, e: KExpr): seq<KExpr> {
    if e.KOp? && e.op == op then e.es else [e]
  }

  /** The expression with the lists of nested equal operators joined. */
  function Flat(e: KExpr): KExpr
    decreases e, 1
  {
    match e
    case KNot(x) => KNot(Flat(x))
    case KOp(op, es) => KOp(op, FlatUpTo(e, |es|))
    case _ => e
  }

  function FlatUpTo(e: KExpr, n: nat): seq<KExpr>
    requires e.KOp? && n <= |e.es|
    decreases e, 0, n
  {
    if n == 0 then [] else FlatUpTo(e, n - 1) + Spliced(e.op, Flat(e.es[n - 1]))
  }

  lemma {:induction false} FlatLength(e: KExpr, n: nat)
    requires e.KOp? && n <= |e.es| && OperandsUpTo(e, n, 2)
    ensures |FlatUpTo(e, n)| >= n
    decreases e, 0, n
  {
    if n > 0 {
      FlatLength(e, n - 1);
      var x := e.es[n - 1];
      if x.KOp? {
        FlatLength(x, |x.es|);
      }
    }
  }

  lemma {:induction false} FactorsFlat(e: KExpr, transformM: bool)
    requires Operands(e, 2) && NoM(e, transformM)
    ensures Factors(e, transformM) == Spliced(AndOp, Flat(e))
    decreases e, 2
  {
    match e
    case KNot(x) => ReparsedFlat(x, transformM);
    case KOp(AndOp, es) => FactorListFlat(e, |es|, transformM);
    case KOp(OrOp, es) =>
      TermListFlat(e, |es|, transformM);
      FlatLength(e, |es|);
    case _ =>
  }

  lemma {:induction false} FactorListFlat(e: KExpr, n: nat, transformM: bool)
    requires e.KOp? && e.op.AndOp? && n <= |e.es| && OperandsUpTo(e, n, 2) && NoMUpTo(e, n, transformM)
    ensures FactorsUpTo(e, n, transformM) == FlatUpTo(e, n)
    decreases e, 0, n
  {
    if n > 0 {
      FactorListFlat(e, n - 1, transformM);
      FactorsFlat(e.es[n - 1], transformM);
    }
  }

  lemma {:induction false} TermsFlat(e: KExpr, transformM: bool)
    requires Operands(e, 2) && NoM(e, transformM)
    ensures Terms(e, transformM) == Spliced(OrOp, Flat(e))
    decreases e, 3
  {
    if e.KOp? && e.op.OrOp? {
      TermListFlat(e, |e.es|, transformM);
    } else {
      FactorsFlat(e, transformM);
      if e.KOp? {
        FlatLength(e, |e.es|);
      }
    }
  }

  lemma {:induction false} TermListFlat(e: KExpr, n: nat, transformM: bool)
    requires e.KOp? && e.op.OrOp? && n <= |e.es| && OperandsUpTo(e, n, 2) && NoMUpTo(e, n, transformM)
    ensures TermsUpTo(e, n, transformM) == FlatUpTo(e, n)
    decreases e, 0, n
  {
    if n > 0 {
      TermListFlat(e, n - 1, transformM);
      TermsFlat(e.es[n - 1], transformM);
    }
  }

  lemma {:induction false} ReparsedFlat(e: KExpr, transformM: bool)
    requires Operands(e, 2) && NoM(e, transformM)
    ensures Reparsed(e, transformM) == Flat(e)
    decreases e, 4
  {
    TermsFlat(e, transformM);
    if e.KOp? {
      FlatLength(e, |e.es|);
    }
  }

  /** The round trip, as an expression: equal operators nested in each other come back as one list. */
  lemma RoundTripFlattens(e: KExpr, post: seq<Token>, transformM: bool)
    requires Operands(e, 2) && EndsExpr(post) && NoM(e, transformM)
    ensures OrTerms(Print(e) + post, [], true, transformM) == Parsed(Flat(e), post, true)
  {
    WeakerOperands(e);
    ParsePrinted(e, post, transformM);
    ReparsedFlat(e, transformM);
  }

  lemma {:induction false} WeakerOperands(e: KExpr)
    requires Operands(e, 2)
    ensures Operands(e, 1)
    decreases e, 1
  {
    match e
    case KNot(x) => WeakerOperands(x);
    case KOp(_, es) => WeakerOperandsUpTo(e, |es|);
    case _ =>
  }

  lemma {:induction false} WeakerOperandsUpTo(e: KExpr, n: nat)
    requires e.KOp? && n <= |e.es| && OperandsUpTo(e, n, 2)
    ensures OperandsUpTo(e, n, 1)
    decreases e, 0, n
  {
    if n > 0 {
      WeakerOperandsUpTo(e, n - 1);
      WeakerOperands(e.es[n - 1]);
    }
  }

  /** With a list of one operand the nested lists are not always joined: a && (b && c) stays as it is. */
  lemma SingletonKeepsNesting(a: Atom, b: Atom, c: Atom)
    ensures var inner := KOp(AndOp, [KAtom(b), KAtom(c)]);
      var e := KOp(AndOp, [KAtom(a), KOp(OrOp, [inner])]);
      OrTerms(Print(e), [], true, false) == Parsed(KOp(AndOp, [KAtom(a), inner]), [], true)
  {
    var inner := KOp(AndOp, [KAtom(b), KAtom(c)]);
    var single := KOp(OrOp, [inner]);
    var e := KOp(AndOp, [KAtom(a), single]);
    TwoFactors(KAtom(b), KAtom(c));
    TwoFactors(KAtom(a), single);
    assert OperandsUpTo(single, 0, 1) && single.es[0] == inner;
    assert OperandsUpTo(single, 1, 1);
    ParsePrinted(e, [], false);
    assert Print(e) + [] == Print(e);
    var bs, cs := [KAtom(b)], [KAtom(c)];
    assert Factors(KAtom(b), false) == bs && Factors(KAtom(c), false) == cs && bs + cs == inner.es;
    assert Terms(inner, false) == [Collapse(AndOp, inner.es)] == [inner];
    assert TermsUpTo(single, 0, false) == [];
    assert TermsUpTo(single, 1, false) == [inner];
    assert Factors(single, false) == [inner] && Factors(KAtom(a), false) == [KAtom(a)];
    assert Factors(e, false) == [KAtom(a), inner];
  }

  lemma TwoFactors(x: KExpr, y: KExpr)
    ensures var e := KOp(AndOp, [x, y]);
      (Operands(e, 1) <==> Operands(x, 1) && Operands(y, 1))
        && Factors(e, false) == Factors(x, false) + Factors(y, false)
  {
    var e := KOp(AndOp, [x, y]);
    assert OperandsUpTo(e, 0, 1) && e.es[0] == x && e.es[1] == y;
    assert OperandsUpTo(e, 1, 1) <==> Operands(x, 1);
    assert FactorsUpTo(e, 0, false) == [];
    assert FactorsUpTo(e, 1, false) == Factors(x, false);
  }

  // ----- parsed expressions -----

  // Lists have at least two operands, and m is not compared as a symbol.
  predicate Tidy(e: KExpr) {
    Operands(e, 2) && NoM(e, false)
  }

  predicate AllTidy(es: seq<KExpr>) {
    forall i :: 0 <= i < |es| ==> Tidy(es[i])
  }

  lemma {:induction false} AllTidyUpTo(e: KExpr, n: nat)
    requires e.KOp? && n <= |e.es| && AllTidy(e.es)
    ensures OperandsUpTo(e, n, 2) && NoMUpTo(e, n, false)
  {
    if n > 0 {
      AllTidyUpTo(e, n - 1);
      assert Tidy(e.es[n - 1]);
    }
  }

  lemma CollapseTidy(op: Op, es: seq<KExpr>)
    requires AllTidy(es) && es != []
    ensures Tidy(Collapse(op, es))
  {
    if |es| > 1 {
      AllTidyUpTo(KOp(op, es), |es|);
    }
  }

  lemma {:induction false} FactorTidy(ts: seq<Token>, transformM: bool)
    ensures var r := Factor(ts, transformM); r.Parsed? ==> Tidy(r.e)
    decreases |ts|, 0
  {
    if ts != [] {
      match ts[0]
      case TOpen => OrTermsTidy(ts[1..], [], true, transformM);
      case TNot => FactorTidy(ts[1..], transformM);
      case TAtom(a) =>
        CollapseTidy(AndOp, MAndModules.es);
      case _ =>
    }
  }

  lemma {:induction false} AndTermsTidy(ts: seq<Token>, found: seq<KExpr>, ok: bool, transformM: bool)
    requires AllTidy(found)
    ensures var r := AndTerms(ts, found, ok, transformM); r.Parsed? ==> Tidy(r.e)
    decreases |ts|, 1
  {
    FactorTidy(ts, transformM);
    var r := Factor(ts, transformM);
    if r.Parsed? {
      var all := found + [r.e];
      CollapseTidy(AndOp, all);
      if Starts(r.rest, TAnd) {
        AndTermsTidy(r.rest[1..], all, ok && r.usable, transformM);
      }
    }
  }

  /** No parse yields a list of fewer than two operands, nor a comparison with the symbol m. */
  lemma {:induction false} OrTermsTidy(ts: seq<Token>, found: seq<KExpr>, ok: bool, transformM: bool)
    requires AllTidy(found)
    ensures var r := OrTerms(ts, found, ok, transformM); r.Parsed? ==> Tidy(r.e)
    decreases |ts|, 2
  {
    AndTermsTidy(ts, [], true, transformM);
    var r := AndTerms(ts, [], true, transformM);
    if r.Parsed? {
      var all := found + [r.e];
      CollapseTidy(OrOp, all);
      if Starts(r.rest, TOr) {
        OrTermsTidy(r.rest[1..], all, ok && r.usable, transformM);
      }
    }
  }

  /** Whatever usable was parsed, from any tokens, can be printed and parsed again, with m left alone then, and keeps
      its value. */
  lemma ParsedRoundTrip(ts: seq<Token>, transformM: bool, w: World)
    requires OrTerms(ts, [], true, transformM).Parsed? && OrTerms(ts, [], true, transformM).usable
    ensures var e := OrTerms(ts, [], true, transformM).e; var r := OrTerms(Print(e), [], true, false);
      r == Parsed(Flat(e), [], true) && Eval2(r.e, w) == Eval2(e, w)
  {
    OrTermsTidy(ts, [], true, transformM);
    var e := OrTerms(ts, [], true, transformM).e;
    RoundTripFlattens(e, [], false);
    WeakerOperands(e);
    RoundTripMeaning(e, [], false, w);
    assert Print(e) + [] == Print(e);
  }
}
