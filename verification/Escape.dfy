/** Quoted string values in .config files: writing them and reading them back, in C and in Python. */
module Escape {
  import opened Wrappers

  const Quote := '"'
  const Backslash := '\\'
  const Nul := '\0'

  predicate Special(c: char) {
    c == Quote || c == Backslash
  }

  ghost predicate NoNul(s: string) {
    forall i :: 0 <= i < |s| ==> s[i] != Nul
  }

  // ----- what is written -----

  function Body(s: string): string {
    if s == [] then [] else (if Special(s[0]) then [Backslash, s[0]] else [s[0]]) + Body(s[1..])
  }

  function Escaped(s: string): string {
    [Quote] + Body(s) + [Quote]
  }

  function Specials(s: string): nat {
    if s == [] then 0 else (if Special(s[0]) then 1 else 0) + Specials(s[1..])
  }

  lemma {:induction false} BodyLength(s: string)
    ensures |Body(s)| == |s| + Specials(s)
  {
    if s != [] {
      BodyLength(s[1..]);
    }
  }

  lemma {:induction false} BodyConcat(s: string, t: string)
    ensures Body(s + t) == Body(s) + Body(t) && Specials(s + t) == Specials(s) + Specials(t)
  {
    if s == [] {
      assert s + t == t;
    } else {
      assert (s + t)[1..] == s[1..] + t;
      BodyConcat(s[1..], t);
    }
  }

  lemma {:induction false} BodyPlain(s: string)
    requires forall i :: 0 <= i < |s| ==> !Special(s[i])
    ensures Body(s) == s && Specials(s) == 0
  {
    if s != [] {
      BodyPlain(s[1..]);
    }
  }

  lemma {:induction false} BodyNoNul(s: string)
    requires NoNul(s)
    ensures NoNul(Body(s))
  {
    if s != [] {
      BodyNoNul(s[1..]);
    }
  }

  // strcspn(p, "\"\\")
  method Span(s: string, p: nat) returns (l: nat)
    requires p <= |s|
    ensures p + l <= |s| && (p + l < |s| ==> Special(s[p + l])) && forall i :: p <= i < p + l ==> !Special(s[i])
  {
    l := 0;
    while p + l < |s| && !Special(s[p + l])
      invariant p + l <= |s| && forall i :: p <= i < p + l ==> !Special(s[i])
    {
      l := l + 1;
    }
  }

  // The buffer holds the C string `s`.
  ghost predicate Holds(buf: array<char>, s: string)
    reads buf
  {
    |s| < buf.Length && buf[..|s|] == s && buf[|s|] == Nul && NoNul(s)
  }

  // strcat and strncat; the caller has to leave room for the terminator.
  method Append(res: array<char>, ghost s: string, add: string)
    requires Holds(res, s) && NoNul(add) && |s| + |add| < res.Length
    modifies res
    ensures Holds(res, s + add)
  {
    var end := 0;
    assert forall i :: 0 <= i < |s| ==> res[i] == res[..|s|][i];
    while res[end] != Nul
      invariant end <= |s| && forall i :: 0 <= i < |s| ==> res[i] == s[i]
      decreases |s| - end
    {
      end := end + 1;
    }
    var i := 0;
    while i < |add|
      invariant i <= |add| && res[..|s| + i] == s + add[..i]
    {
      res[end + i] := add[i];
      i := i + 1;
    }
    res[end + |add|] := Nul;
    assert res[..|s| + |add|] == s + add;
  }

  method BufferLength(s: string) returns (reslen: nat)
    ensures reslen == |Escaped(s)| + 1
  {
    reslen := |s| + 2 + 1;
    var p := 0;
    while true
      invariant p <= |s| && reslen == |s| + 3 + Specials(s[..p])
      decreases |s| - p
    {
      var l := Span(s, p);
      StepOver(s, p, l);
      p := p + l;
      if p == |s| {
        break;
      }
      reslen := reslen + 1;
      p := p + 1;
    }
    assert s[..|s|] == s;
    BodyLength(s);
  }

  // Going over ordinary characters, then over a special one.
  lemma StepOver(s: string, p: nat, l: nat)
    requires p + l <= |s| && forall i :: p <= i < p + l ==> !Special(s[i])
    ensures Body(s[..p + l]) == Body(s[..p]) + s[p..p + l] && Specials(s[..p + l]) == Specials(s[..p])
    ensures p + l < |s| && Special(s[p + l]) ==>
      && Body(s[..p + l + 1]) == Body(s[..p + l]) + [Backslash, s[p + l]]
          && Specials(s[..p + l + 1]) == Specials(s[..p]) + 1
  {
    var plain := s[p..p + l];
    assert s[..p + l] == s[..p] + plain;
    BodyConcat(s[..p], plain);
    BodyPlain(plain);
    if p + l < |s| && Special(s[p + l]) {
      var one := [s[p + l]];
      assert s[..p + l + 1] == s[..p + l] + one;
      BodyConcat(s[..p + l], one);
      assert Body(one[1..]) == [] && Specials(one[1..]) == 0;
    }
  }

  /** sym_escape_string_value: the buffer measured beforehand is exactly filled by the result and its terminator. */
  method EscapeString(s: string) returns (res: array<char>)
    requires NoNul(s)
    ensures fresh(res) && Holds(res, Escaped(s)) && res.Length == |Escaped(s)| + 1
  {
    hide Body;
    var reslen := BufferLength(s);
    res := new char[reslen];
    res[0] := Nul;
    Append(res, [], [Quote]);
    assert s[..0] == [] && Body([]) == [] by {
      BodyPlain([]);
    }
    assert [] + [Quote] == [Quote] + Body(s[..0]);
    var p := 0;
    while true
      invariant p <= |s| && Holds(res, [Quote] + Body(s[..p]))
      invariant reslen == res.Length && fresh(res)
      decreases |s| - p
    {
      var l := Span(s, p);
      AppendPlain(res, s, p, l);
      p := p + l;
      if p == |s| {
        break;
      }
      AppendSpecial(res, s, p);
      p := p + 1;
    }
    assert s[..|s|] == s;
    Append(res, [Quote] + Body(s), [Quote]);
  }

  method AppendPlain(res: array<char>, s: string, p: nat, l: nat)
    requires NoNul(s) && p + l <= |s| && Holds(res, [Quote] + Body(s[..p])) && |Body(s)| + 3 == res.Length
    requires forall i :: p <= i < p + l ==> !Special(s[i])
    modifies res
    ensures Holds(res, [Quote] + Body(s[..p + l]))
  {
    hide Body;
    StepOver(s, p, l);
    RoomFor(s, p + l);
    Append(res, [Quote] + Body(s[..p]), s[p..p + l]);
    assert [Quote] + Body(s[..p]) + s[p..p + l] == [Quote] + Body(s[..p + l]);
  }

  method AppendSpecial(res: array<char>, s: string, p: nat)
    requires NoNul(s) && p < |s| && Special(s[p]) && Holds(res, [Quote] + Body(s[..p])) && |Body(s)| + 3 == res.Length
    modifies res
    ensures Holds(res, [Quote] + Body(s[..p + 1]))
  {
    hide Body;
    StepOver(s, p, 0);
    RoomFor(s, p + 1);
    ghost var out := [Quote] + Body(s[..p]);
    Append(res, out, [Backslash]);
    Append(res, out + [Backslash], [s[p]]);
    assert out + [Backslash] + [s[p]] == [Quote] + Body(s[..p + 1]);
  }

  lemma RoomFor(s: string, p: nat)
    requires p <= |s|
    ensures |Body(s[..p])| <= |Body(s)|
  {
    BodyConcat(s[..p], s[p..]);
    assert s == s[..p] + s[p..];
  }

  // ----- what is read back in C -----

  /** The value of the text after the opening quote: up to the closing one, without the backslashes that escape. */
  function Unescaped(t: string): Option<string> {
    if t == [] then None
    else if t[0] == Quote then Some([])
    else if t[0] == Backslash then (if |t| == 1 then None else Put(t[1], Unescaped(t[2..])))
    else Put(t[0], Unescaped(t[1..]))
  }

  function Put(c: char, r: Option<string>): Option<string> {
    if r.Some? then Some([c] + r.value) else None
  }

  ghost function PutAll(s: string, r: Option<string>): Option<string> {
    if r.Some? then Some(s + r.value) else None
  }

  /** Reading inverts writing, whatever follows the closing quote. */
  lemma {:induction false} UnescapeEscaped(s: string, rest: string)
    ensures Unescaped(Body(s) + [Quote] + rest) == Some(s)
  {
    var t := Body(s) + [Quote] + rest;
    if s != [] {
      UnescapeEscaped(s[1..], rest);
      var tail := Body(s[1..]) + [Quote] + rest;
      if Special(s[0]) {
        assert t == [Backslash, s[0]] + tail;
        assert t[2..] == tail;
      } else {
        assert t == [s[0]] + tail;
        assert t[1..] == tail;
      }
      assert [s[0]] + s[1..] == s;
    }
  }

  lemma {:induction false} UnescapePlain(s: string, t: string)
    requires forall i :: 0 <= i < |s| ==> !Special(s[i])
    ensures Unescaped(s + t) == PutAll(s, Unescaped(t))
  {
    var r := Unescaped(t);
    if s == [] {
      assert s + t == t;
      assert r.Some? ==> s + r.value == r.value;
    } else {
      assert (s + t)[1..] == s[1..] + t;
      UnescapePlain(s[1..], t);
      assert r.Some? ==> [s[0]] + (s[1..] + r.value) == s + r.value;
    }
  }

  // The C string that starts at `q` in the buffer contents `c` ends at `e`.
  ghost predicate Ends(c: seq<char>, q: nat, e: nat) {
    q <= e < |c| && c[e] == Nul && forall i :: q <= i < e ==> c[i] != Nul
  }

  // strpbrk(p2, "\"\\")
  method FindSpecial(buf: array<char>, q: nat, ghost e: nat) returns (r: Option<nat>)
    requires Ends(buf[..], q, e)
    ensures r.None? ==> forall i :: q <= i < e ==> !Special(buf[i])
    ensures r.Some? ==> q <= r.value < e && Special(buf[r.value]) && forall i :: q <= i < r.value ==> !Special(buf[i])
  {
    ghost var c := buf[..];
    var i := q;
    while buf[i] != Nul
      invariant q <= i <= e && forall j :: q <= j < i ==> !Special(buf[j])
      decreases e - i
    {
      assert c[i] == buf[i];
      if Special(buf[i]) {
        return Some(i);
      }
      i := i + 1;
    }
    assert c[i] == buf[i];
    return None;
  }

  // memmove(p2, p2 + 1, strlen(p2))
  method Shift(buf: array<char>, q: nat, ghost e: nat)
    requires Ends(buf[..], q, e) && q < e
    modifies buf
    ensures Shifted(old(buf[..]), buf[..], q, e)
  {
    ghost var c := buf[..];
    var i := q;
    while buf[i] != Nul
      invariant q <= i <= e && forall j :: 0 <= j < buf.Length ==> buf[j] == c[if q <= j < i then j + 1 else j]
      decreases e - i
    {
      buf[i] := buf[i + 1];
      i := i + 1;
    }
  }

  ghost predicate Shifted(c: seq<char>, d: seq<char>, q: nat, e: nat)
    requires e < |c|
  {
    |d| == |c| && forall i :: 0 <= i < |c| ==> d[i] == c[if q <= i < e then i + 1 else i]
  }

  // The loop has read up to `q`; the value is what lies between `p` and `q`, followed by the value of the rest.
  ghost predicate Progress(t: string, c: seq<char>, p: nat, q: nat, e: nat) {
    && p <= q && Ends(c, q, e) && Unescaped(t) == PutAll(c[p..q], Unescaped(c[q..e]))
    && (NoNul(c[p..q]) || q == e)
  }

  lemma Begun(t: string, c: seq<char>, p: nat)
    requires p + |t| < |c| && c[p..p + |t|] == t && c[p + |t|] == Nul && NoNul(t)
    ensures Progress(t, c, p, p, p + |t|)
  {
    assert c[p..p] == [];
    var r := Unescaped(t);
    assert r.Some? ==> [] + r.value == r.value;
    assert forall i :: p <= i < p + |t| ==> c[i] == t[i - p];
  }

  // Skipping ordinary characters.
  lemma Skipped(t: string, c: seq<char>, p: nat, q: nat, q': nat, e: nat)
    requires Progress(t, c, p, q, e) && q <= q' <= e && forall i :: q <= i < q' ==> !Special(c[i])
    ensures Progress(t, c, p, q', e)
  {
    hide Unescaped;
    var s, rest := c[q..q'], c[q'..e];
    assert c[q..e] == s + rest;
    UnescapePlain(s, rest);
    assert c[p..q'] == c[p..q] + s;
    var r := Unescaped(rest);
    assert r.Some? ==> c[p..q] + (s + r.value) == c[p..q'] + r.value;
  }

  // A backslash at `q` is overwritten by what follows it, and the character after it is kept.
  lemma BackslashDropped(t: string, c: seq<char>, d: seq<char>, p: nat, q: nat, e: nat)
    requires Progress(t, c, p, q, e) && q < e && c[q] == Backslash && Shifted(c, d, q, e)
    ensures Progress(t, d, p, q + 1, if q + 1 == e then e else e - 1)
  {
    assert d[p..q] == c[p..q];
    if q + 1 < e {
      var rest := c[q..e];
      assert d[p..q + 1] == c[p..q] + [c[q + 1]];
      assert d[q + 1..e - 1] == c[q + 2..e] == rest[2..];
      EscapedStep(c[p..q], rest);
    } else {
      assert d[q + 1..e] == [];
    }
  }

  lemma EscapedStep(kept: string, text: string)
    requires |text| > 1 && text[0] == Backslash
    ensures PutAll(kept, Unescaped(text)) == PutAll(kept + [text[1]], Unescaped(text[2..]))
  {
    var r := Unescaped(text[2..]);
    assert r.Some? ==> kept + ([text[1]] + r.value) == kept + [text[1]] + r.value;
  }

  lemma Unclosed(t: string, c: seq<char>, p: nat, e: nat)
    requires Progress(t, c, p, e, e)
    ensures Unescaped(t).None?
  {
    assert c[e..e] == [];
  }

  lemma Closed(t: string, c: seq<char>, p: nat, q: nat, e: nat)
    requires Progress(t, c, p, q, e) && q < e && c[q] == Quote
    ensures Unescaped(t) == Some(c[p..q]) && Ends(c[q := Nul], p, q)
  {
    assert c[q..e][0] == Quote;
    assert c[p..q] + [] == c[p..q];
    assert forall i :: p <= i < q ==> c[i] == c[p..q][i - p];
  }

  // Nothing outside lo..hi has changed.
  ghost predicate SameAround(c: seq<char>, d: seq<char>, lo: nat, hi: nat) {
    |c| == |d| && forall i :: 0 <= i < |c| && !(lo <= i < hi) ==> d[i] == c[i]
  }

  lemma AroundSelf(c: seq<char>, lo: nat, hi: nat)
    ensures SameAround(c, c, lo, hi)
  {
  }

  lemma AroundSet(c: seq<char>, d: seq<char>, lo: nat, hi: nat, q: nat)
    requires SameAround(c, d, lo, hi) && lo <= q < hi && q < |d|
    ensures SameAround(c, d[q := Nul], lo, hi)
  {
  }

  lemma AroundShift(c: seq<char>, d: seq<char>, d': seq<char>, lo: nat, hi: nat, q: nat, e: nat)
    requires SameAround(c, d, lo, hi) && e < |d| && Shifted(d, d', q, e) && lo <= q < e <= hi
    ensures SameAround(c, d', lo, hi)
  {
  }

  /** The in-place loop of conf_set_sym_val on the text `t` after the opening quote: it succeeds exactly when there
      is a closing quote that is not escaped, and then leaves the value as the C string at `p`. */
  method UnescapeInPlace(buf: array<char>, p: nat, ghost t: string) returns (ok: bool)
    requires p + |t| < buf.Length && buf[p..p + |t|] == t && buf[p + |t|] == Nul && NoNul(t)
    modifies buf
    ensures ok <==> Unescaped(t).Some?
    ensures ok ==> var v := Unescaped(t).value; |v| <= |t| && buf[p..p + |v|] == v && Ends(buf[..], p, p + |v|)
    ensures SameAround(old(buf[..]), buf[..], p, p + |t|)
  {
    hide Unescaped, SameAround;
    ghost var before := buf[..];
    AroundSelf(before, p, p + |t|);
    ghost var e: nat := p + |t|;
    var q := p;
    Begun(t, buf[..], p);
    while true
      invariant p <= q <= e <= p + |t| && Progress(t, buf[..], p, q, e)
      invariant SameAround(before, buf[..], p, p + |t|)
      decreases p + |t| + 1 - q
    {
      ghost var c := buf[..];
      var found := FindSpecial(buf, q, e);
      Skipped(t, c, p, q, if found.None? then e else found.value, e);
      if found.None? {
        Unclosed(t, c, p, e);
        return false;
      }
      q := found.value;
      if buf[q] == Quote {
        Closed(t, c, p, q, e);
        buf[q] := Nul;
        assert buf[..] == c[q := Nul] && buf[p..q] == c[p..q];
        AroundSet(before, c, p, p + |t|, q);
        return true;
      }
      Shift(buf, q, e);
      BackslashDropped(t, c, buf[..], p, q, e);
      AroundShift(before, c, buf[..], p, p + |t|, q, e);
      e := if q + 1 == e then e else e - 1;
      q := q + 1;
    }
  }

  // ----- the same in Python -----

  // str.replace of a pair of characters by one
  function ReplacePair(s: string, a: char, b: char, c: char): string {
    if s == [] then []
    else if |s| > 1 && s[0] == a && s[1] == b then [c] + ReplacePair(s[2..], a, b, c)
    else [s[0]] + ReplacePair(s[1..], a, b, c)
  }

  // str.replace of a character by itself with a backslash in front
  function ReplaceChar(s: string, a: char): string {
    if s == [] then [] else (if s[0] == a then [Backslash, a] else [s[0]]) + ReplaceChar(s[1..], a)
  }

  function PythonEscape(s: string): string {
    ReplaceChar(ReplaceChar(s, Backslash), Quote)
  }

  function PythonUnescape(s: string): string {
    ReplacePair(ReplacePair(s, Backslash, Quote, Quote), Backslash, Backslash, Backslash)
  }

  // A value in a .config line: quoted strings are unescaped, a lone or unmatched quote is an error.
  function PythonValue(val: string): Option<string> {
    if val != [] && (val[0] == Quote || val[0] == '\'') then
      if |val| < 2 || val[|val| - 1] != val[0] then None else Some(PythonUnescape(val[1..|val| - 1]))
    else Some(val)
  }

  lemma {:induction false} ReplaceCharConcat(s: string, t: string, a: char)
    ensures ReplaceChar(s + t, a) == ReplaceChar(s, a) + ReplaceChar(t, a)
  {
    if s == [] {
      assert s + t == t;
    } else {
      assert (s + t)[1..] == s[1..] + t;
      ReplaceCharConcat(s[1..], t, a);
    }
  }

  /** kconfiglib writes what the C code writes. */
  lemma {:induction false} PythonEscapesAlike(s: string)
    ensures [Quote] + PythonEscape(s) + [Quote] == Escaped(s)
  {
    PythonEscapeBody(s);
  }

  lemma {:induction false} PythonEscapeBody(s: string)
    ensures PythonEscape(s) == Body(s)
  {
    if s != [] {
      PythonEscapeBody(s[1..]);
      var first := if s[0] == Backslash then [Backslash, Backslash] else [s[0]];
      ReplaceCharConcat(first, ReplaceChar(s[1..], Backslash), Quote);
      assert first[1..] == if s[0] == Backslash then [Backslash] else [];
      assert ReplaceChar(first[1..], Quote) == first[1..] by {
        assert |first[1..]| == 1 ==> first[1..][1..] == [];
      }
    }
  }

  // The first pass removes exactly the backslashes before quotes.
  lemma {:induction false} FirstPass(s: string)
    ensures ReplacePair(Body(s), Backslash, Quote, Quote) == ReplaceChar(s, Backslash)
  {
    if s != [] {
      var tail := Body(s[1..]);
      assert Body(s) == (if Special(s[0]) then [Backslash, s[0]] else [s[0]]) + tail;
      var done := ReplaceChar(s[1..], Backslash);
      assert ReplaceChar(s, Backslash) == (if s[0] == Backslash then [Backslash, Backslash] else [s[0]]) + done;
      hide ReplacePair, ReplaceChar, Body;
      FirstPass(s[1..]);
      BodyStart(s[1..]);
      if s[0] == Backslash {
        PairMissed(Backslash, tail, Backslash, Quote, Quote);
        PairMissed(Backslash, [Backslash] + tail, Backslash, Quote, Quote);
        assert [Backslash] + ([Backslash] + tail) == Body(s);
        assert [Backslash] + ([Backslash] + done) == ReplaceChar(s, Backslash);
      } else if s[0] == Quote {
        PairFound(tail, Backslash, Quote, Quote);
      } else {
        PairMissed(s[0], tail, Backslash, Quote, Quote);
      }
    }
  }

  lemma PairMissed(x: char, s: string, a: char, b: char, c: char)
    requires !(x == a && s != [] && s[0] == b)
    ensures ReplacePair([x] + s, a, b, c) == [x] + ReplacePair(s, a, b, c)
  {
    assert ([x] + s)[1..] == s;
  }

  lemma PairFound(s: string, a: char, b: char, c: char)
    ensures ReplacePair([a, b] + s, a, b, c) == [c] + ReplacePair(s, a, b, c)
  {
    assert ([a, b] + s)[2..] == s;
  }

  lemma BodyStart(s: string)
    ensures Body(s) != [] ==> Body(s)[0] != Quote
  {
  }

  lemma {:induction false} SecondPass(s: string)
    ensures ReplacePair(ReplaceChar(s, Backslash), Backslash, Backslash, Backslash) == s
  {
    if s != [] {
      SecondPass(s[1..]);
      if s[0] == Backslash {
        PairFound(ReplaceChar(s[1..], Backslash), Backslash, Backslash, Backslash);
      } else {
        PairMissed(s[0], ReplaceChar(s[1..], Backslash), Backslash, Backslash, Backslash);
      }
      assert [s[0]] + s[1..] == s;
    }
  }

  /** Each reader inverts each writer. */
  lemma ReadersAgree(s: string)
    ensures PythonValue(Escaped(s)) == Some(s) == Unescaped(Escaped(s)[1..])
  {
    FirstPass(s);
    SecondPass(s);
    var t := Escaped(s);
    assert t[1..|t| - 1] == Body(s);
    assert t[1..] == Body(s) + [Quote] + [];
    UnescapeEscaped(s, []);
  }

  /** On text no writer produces they differ: a backslash before an ordinary character is dropped in C and kept in
      Python. */
  lemma ReadersDiffer(c: char)
    requires !Special(c)
    ensures Unescaped([Backslash, c, Quote]) == Some([c])
    ensures PythonValue([Quote, Backslash, c, Quote]) == Some([Backslash, c])
  {
    var t := [Backslash, c, Quote];
    assert t[2..] == [Quote];
    var s := [Backslash, c];
    assert [Quote, Backslash, c, Quote][1..3] == s;
    assert s == [Backslash] + [c] && [c] == [c] + [];
    PairMissed(c, [], Backslash, Quote, Quote);
    PairMissed(c, [], Backslash, Backslash, Backslash);
    PairMissed(Backslash, [c], Backslash, Quote, Quote);
    PairMissed(Backslash, [c], Backslash, Backslash, Backslash);
  }
}
