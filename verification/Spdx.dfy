/** SPDX licence expressions. */
module Spdx {
  // The tokenizer and the recursive-descent parser that
  // scripts/generate_supply_chain_evidence.py:261-317 and
  // scripts/finalize_release_evidence.py:762-814 both contain.

  import opened Text

  const KEYWORDS: set<string> := {"AND", "OR", "WITH", "(", ")"}

  // ----- tokens

  predicate IsTokenChar(c: char) { IsAlnum(c) || c == '.' || c == '+' || c == '-' }

  /** Length of the longest prefix of token characters. */
  function RunLength(s: string): (n: nat)
    ensures n <= |s|
    ensures forall i :: 0 <= i < n ==> IsTokenChar(s[i])
    ensures n < |s| ==> !IsTokenChar(s[n])
  {
    if s != [] && IsTokenChar(s[0]) then 1 + RunLength(s[1..]) else 0
  }

  /** Length of the token that starts the string, 0 if none does. */
  function TokenLength(s: string): (n: nat)
    ensures n <= |s|
  {
    if s == [] then 0
    else if IsAlnum(s[0]) then RunLength(s)
    else if s[0] == '(' || s[0] == ')' then 1
    else 0
  }

  function Prepend(token: string, rest: Option<seq<string>>): Option<seq<string>> {
    if rest.None? then None else Some([token] + rest.value)
  }

  /** The tokens of an expression, None if some character starts no token. */
  function Tokens(s: string): Option<seq<string>>
    decreases |s|
  {
    if s == [] then Some([])
    else if IsSpace(s[0]) then Tokens(s[1..])
    else if TokenLength(s) == 0 then None
    else Prepend(s[..TokenLength(s)], Tokens(s[TokenLength(s)..]))
  }

  function Concat(tokens: seq<string>, rest: Option<seq<string>>): Option<seq<string>> {
    if rest.None? then None else Some(tokens + rest.value)
  }

  lemma ConcatEmpty(rest: Option<seq<string>>)
    ensures Concat([], rest) == rest
  {
    if rest.Some? {
      assert [] + rest.value == rest.value;
    }
  }

  lemma ConcatPrepend(tokens: seq<string>, token: string, rest: Option<seq<string>>)
    ensures Concat(tokens, Prepend(token, rest)) == Concat(tokens + [token], rest)
  {
    if rest.Some? {
      assert tokens + ([token] + rest.value) == tokens + [token] + rest.value;
    }
  }

  /** `_tokenize_spdx_expression`. */
  method Tokenize(expression: string) returns (r: Option<seq<string>>)
    ensures r == if Tokens(expression) == Some([]) then None else Tokens(expression)
  {
    var tokens: seq<string> := [];
    var position := 0;
    assert expression[0..] == expression;
    ConcatEmpty(Tokens(expression));
    while position < |expression|
      invariant 0 <= position <= |expression|
      invariant Tokens(expression) == Concat(tokens, Tokens(expression[position..]))
    {
      var suffix := expression[position..];
      if IsSpace(expression[position]) {
        position := position + 1;
        assert suffix[1..] == expression[position..];
        continue;
      }
      var n := TokenLength(suffix);
      if n == 0 {
        return None;
      }
      ConcatPrepend(tokens, suffix[..n], Tokens(suffix[n..]));
      tokens := tokens + [suffix[..n]];
      position := position + n;
      assert suffix[n..] == expression[position..];
    }
    assert expression[position..] == [];
    assert tokens + [] == tokens;
    return if tokens == [] then None else Some(tokens);
  }

  /** A string that is lexically one token. */
  predicate IsWord(t: string) {
    t != [] && IsAlnum(t[0]) && forall i :: 0 <= i < |t| ==> IsTokenChar(t[i])
  }

  predicate IsLexical(t: string) { IsWord(t) || t == "(" || t == ")" }

  /** Writes tokens with single spaces between them. */
  function Spell(tokens: seq<string>): string {
    if tokens == [] then []
    else if |tokens| == 1 then tokens[0]
    else tokens[0] + [' '] + Spell(tokens[1..])
  }

  lemma {:induction false} RunLengthOfWord(w: string, rest: string)
    requires forall i :: 0 <= i < |w| ==> IsTokenChar(w[i])
    requires rest == [] || !IsTokenChar(rest[0])
    ensures RunLength(w + rest) == |w|
  {
    if w == [] {
      assert w + rest == rest;
    } else {
      assert (w + rest)[1..] == w[1..] + rest;
      RunLengthOfWord(w[1..], rest);
    }
  }

  lemma TokensOfFirst(t: string, rest: string)
    requires IsLexical(t)
    requires rest == [] || rest[0] == ' '
    ensures Tokens(t + rest) == Prepend(t, Tokens(rest))
  {
    var s := t + rest;
    assert s[0] == t[0] && !IsSpace(t[0]);
    if IsWord(t) {
      RunLengthOfWord(t, rest);
    }
    assert TokenLength(s) == |t|;
    assert s[..|t|] == t && s[|t|..] == rest;
  }

  /** The tokenizer inverts spelling. */
  lemma {:induction false} TokensOfSpelling(tokens: seq<string>)
    requires forall i :: 0 <= i < |tokens| ==> IsLexical(tokens[i])
    ensures Tokens(Spell(tokens)) == Some(tokens)
  {
    if |tokens| == 1 {
      assert tokens[0] + [] == tokens[0] && [tokens[0]] + [] == tokens;
      TokensOfFirst(tokens[0], []);
    } else if |tokens| > 1 {
      var rest := [' '] + Spell(tokens[1..]);
      TokensOfSpelling(tokens[1..]);
      TokensOfFirst(tokens[0], rest);
      assert rest[1..] == Spell(tokens[1..]);
      assert tokens[0] + [' '] + Spell(tokens[1..]) == tokens[0] + rest;
      assert [tokens[0]] + tokens[1..] == tokens;
    }
  }

  // ----- the grammar the parser follows: OR of ANDs of factors

  datatype Factor = Identifier(name: string) | Group(inner: Disjunction)
  datatype Conjunction = Conjunction(first: Factor, tail: AndTail)
  datatype AndTail = AndEnd | AndMore(factor: Factor, rest: AndTail)
  datatype Disjunction = Disjunction(first: Conjunction, tail: OrTail)
  datatype OrTail = OrEnd | OrMore(conjunction: Conjunction, rest: OrTail)

  function FactorTokens(f: Factor): seq<string> {
    match f
    case Identifier(name) => [name]
    case Group(inner) => ["("] + DisjunctionTokens(inner) + [")"]
  }

  function ConjunctionTokens(c: Conjunction): seq<string> {
    FactorTokens(c.first) + AndTailTokens(c.tail)
  }

  function AndTailTokens(t: AndTail): seq<string> {
    match t
    case AndEnd => []
    case AndMore(factor, rest) => ["AND"] + FactorTokens(factor) + AndTailTokens(rest)
  }

  /** The printer: the tokens of an expression tree. */
  function DisjunctionTokens(d: Disjunction): seq<string> {
    ConjunctionTokens(d.first) + OrTailTokens(d.tail)
  }

  function OrTailTokens(t: OrTail): seq<string> {
    match t
    case OrEnd => []
    case OrMore(conjunction, rest) => ["OR"] + ConjunctionTokens(conjunction) + OrTailTokens(rest)
  }

  /** The identifier tokens: everything that is not an operator or a parenthesis. */
  function Names(tokens: seq<string>): set<string> { set t | t in tokens && t !in KEYWORDS }

  predicate FactorValid(f: Factor) {
    match f
    case Identifier(name) => name !in KEYWORDS
    case Group(inner) => DisjunctionValid(inner)
  }

  predicate ConjunctionValid(c: Conjunction) { FactorValid(c.first) && AndTailValid(c.tail) }

  predicate AndTailValid(t: AndTail) {
    match t
    case AndEnd => true
    case AndMore(factor, rest) => FactorValid(factor) && AndTailValid(rest)
  }

  predicate DisjunctionValid(d: Disjunction) { ConjunctionValid(d.first) && OrTailValid(d.tail) }

  predicate OrTailValid(t: OrTail) {
    match t
    case OrEnd => true
    case OrMore(conjunction, rest) => ConjunctionValid(conjunction) && OrTailValid(rest)
  }

  // ----- the parser as a function from a position to a tree and the next position

  predicate TokenIs(ts: seq<string>, pos: nat, token: string) { pos < |ts| && ts[pos] == token }

  function FactorAt(ts: seq<string>, pos: nat): (r: Option<(Factor, nat)>)
    requires pos <= |ts|
    ensures r.Some? ==> pos < r.value.1 <= |ts|
    decreases |ts| - pos, 0
  {
    if pos == |ts| then None
    else if ts[pos] == "(" then
      var inner := DisjunctionAt(ts, pos + 1);
      if inner.Some? && TokenIs(ts, inner.value.1, ")") then Some((Group(inner.value.0), inner.value.1 + 1)) else None
    else if ts[pos] in KEYWORDS then None
    else Some((Identifier(ts[pos]), pos + 1))
  }

  function AndTailAt(ts: seq<string>, pos: nat): (r: Option<(AndTail, nat)>)
    requires pos <= |ts|
    ensures r.Some? ==> pos <= r.value.1 <= |ts|
    decreases |ts| - pos, 1
  {
    if !TokenIs(ts, pos, "AND") then Some((AndEnd, pos))
    else
      var factor := FactorAt(ts, pos + 1);
      if factor.None? then None
      else
        var rest := AndTailAt(ts, factor.value.1);
        if rest.None? then None else Some((AndMore(factor.value.0, rest.value.0), rest.value.1))
  }

  function ConjunctionAt(ts: seq<string>, pos: nat): (r: Option<(Conjunction, nat)>)
    requires pos <= |ts|
    ensures r.Some? ==> pos < r.value.1 <= |ts|
    decreases |ts| - pos, 2
  {
    var first := FactorAt(ts, pos);
    if first.None? then None
    else
      var tail := AndTailAt(ts, first.value.1);
      if tail.None? then None else Some((Conjunction(first.value.0, tail.value.0), tail.value.1))
  }

  function OrTailAt(ts: seq<string>, pos: nat): (r: Option<(OrTail, nat)>)
    requires pos <= |ts|
    ensures r.Some? ==> pos <= r.value.1 <= |ts|
    decreases |ts| - pos, 3
  {
    if !TokenIs(ts, pos, "OR") then Some((OrEnd, pos))
    else
      var conjunction := ConjunctionAt(ts, pos + 1);
      if conjunction.None? then None
      else
        var rest := OrTailAt(ts, conjunction.value.1);
        if rest.None? then None else Some((OrMore(conjunction.value.0, rest.value.0), rest.value.1))
  }

  function DisjunctionAt(ts: seq<string>, pos: nat): (r: Option<(Disjunction, nat)>)
    requires pos <= |ts|
    ensures r.Some? ==> pos < r.value.1 <= |ts|
    decreases |ts| - pos, 4
  {
    var first := ConjunctionAt(ts, pos);
    if first.None? then None
    else
      var tail := OrTailAt(ts, first.value.1);
      if tail.None? then None else Some((Disjunction(first.value.0, tail.value.0), tail.value.1))
  }

  /** The tree of a whole token list. */
  function Parse(ts: seq<string>): Option<Disjunction> {
    var d := DisjunctionAt(ts, 0);
    if d.Some? && d.value.1 == |ts| then Some(d.value.0) else None
  }

  // ----- what is parsed is what was printed

  lemma {:induction false} FactorSound(ts: seq<string>, pos: nat)
    requires pos <= |ts|
    ensures var r := FactorAt(ts, pos);
      r.Some? ==> FactorValid(r.value.0) && ts[pos..r.value.1] == FactorTokens(r.value.0)
    decreases |ts| - pos, 0
  {
    if TokenIs(ts, pos, "(") {
      DisjunctionSound(ts, pos + 1);
      var inner := DisjunctionAt(ts, pos + 1);
      if inner.Some? && TokenIs(ts, inner.value.1, ")") {
        assert ts[pos..inner.value.1 + 1] == [ts[pos]] + ts[pos + 1..inner.value.1] + [ts[inner.value.1]];
      }
    }
  }

  lemma {:induction false} AndTailSound(ts: seq<string>, pos: nat)
    requires pos <= |ts|
    ensures var r := AndTailAt(ts, pos);
      r.Some? ==> AndTailValid(r.value.0) && ts[pos..r.value.1] == AndTailTokens(r.value.0)
    decreases |ts| - pos, 1
  {
    if TokenIs(ts, pos, "AND") && AndTailAt(ts, pos).Some? {
      FactorSound(ts, pos + 1);
      var m := FactorAt(ts, pos + 1).value.1;
      AndTailSound(ts, m);
      var e := AndTailAt(ts, m).value.1;
      assert ts[pos..e] == [ts[pos]] + ts[pos + 1..m] + ts[m..e];
    }
  }

  lemma {:induction false} ConjunctionSound(ts: seq<string>, pos: nat)
    requires pos <= |ts|
    ensures var r := ConjunctionAt(ts, pos);
      r.Some? ==> ConjunctionValid(r.value.0) && ts[pos..r.value.1] == ConjunctionTokens(r.value.0)
    decreases |ts| - pos, 2
  {
    if ConjunctionAt(ts, pos).Some? {
      FactorSound(ts, pos);
      var m := FactorAt(ts, pos).value.1;
      AndTailSound(ts, m);
      var e := AndTailAt(ts, m).value.1;
      assert ts[pos..e] == ts[pos..m] + ts[m..e];
    }
  }

  lemma {:induction false} OrTailSound(ts: seq<string>, pos: nat)
    requires pos <= |ts|
    ensures var r := OrTailAt(ts, pos);
      r.Some? ==> OrTailValid(r.value.0) && ts[pos..r.value.1] == OrTailTokens(r.value.0)
    decreases |ts| - pos, 3
  {
    if TokenIs(ts, pos, "OR") && OrTailAt(ts, pos).Some? {
      ConjunctionSound(ts, pos + 1);
      var m := ConjunctionAt(ts, pos + 1).value.1;
      OrTailSound(ts, m);
      var e := OrTailAt(ts, m).value.1;
      assert ts[pos..e] == [ts[pos]] + ts[pos + 1..m] + ts[m..e];
    }
  }

  lemma {:induction false} DisjunctionSound(ts: seq<string>, pos: nat)
    requires pos <= |ts|
    ensures var r := DisjunctionAt(ts, pos);
      r.Some? ==> DisjunctionValid(r.value.0) && ts[pos..r.value.1] == DisjunctionTokens(r.value.0)
    decreases |ts| - pos, 4
  {
    if DisjunctionAt(ts, pos).Some? {
      ConjunctionSound(ts, pos);
      var m := ConjunctionAt(ts, pos).value.1;
      OrTailSound(ts, m);
      var e := OrTailAt(ts, m).value.1;
      assert ts[pos..e] == ts[pos..m] + ts[m..e];
    }
  }

  // ----- what is printed is parsed back

  ghost predicate Occurs(ts: seq<string>, pos: nat, part: seq<string>) {
    pos + |part| <= |ts| && ts[pos..pos + |part|] == part
  }

  lemma OccursSplit(ts: seq<string>, pos: nat, a: seq<string>, b: seq<string>)
    requires Occurs(ts, pos, a + b)
    ensures Occurs(ts, pos, a) && Occurs(ts, pos + |a|, b)
  {
    var whole := ts[pos..pos + |a + b|];
    assert whole[..|a|] == a && whole[|a|..] == b;
    assert ts[pos..pos + |a|] == whole[..|a|];
    assert ts[pos + |a|..pos + |a| + |b|] == whole[|a|..];
  }

  lemma {:induction false} FactorComplete(ts: seq<string>, pos: nat, f: Factor)
    requires FactorValid(f) && Occurs(ts, pos, FactorTokens(f))
    ensures FactorAt(ts, pos) == Some((f, pos + |FactorTokens(f)|))
    decreases f
  {
    match f
    case Identifier(name) =>
      assert ts[pos] == ts[pos..pos + 1][0];
    case Group(inner) =>
      var body := DisjunctionTokens(inner);
      assert FactorTokens(f) == ["("] + (body + [")"]);
      OccursSplit(ts, pos, ["("], body + [")"]);
      OccursSplit(ts, pos + 1, body, [")"]);
      assert ts[pos] == ts[pos..pos + 1][0];
      var close := pos + 1 + |body|;
      assert ts[close] == ts[close..close + 1][0];
      DisjunctionComplete(ts, pos + 1, inner);
  }

  lemma {:induction false} AndTailComplete(ts: seq<string>, pos: nat, t: AndTail)
    requires AndTailValid(t) && Occurs(ts, pos, AndTailTokens(t))
    requires !TokenIs(ts, pos + |AndTailTokens(t)|, "AND")
    ensures AndTailAt(ts, pos) == Some((t, pos + |AndTailTokens(t)|))
    decreases t
  {
    if t.AndMore? {
      var a, b := FactorTokens(t.factor), AndTailTokens(t.rest);
      assert AndTailTokens(t) == ["AND"] + (a + b);
      OccursSplit(ts, pos, ["AND"], a + b);
      OccursSplit(ts, pos + 1, a, b);
      assert ts[pos] == ts[pos..pos + 1][0];
      FactorComplete(ts, pos + 1, t.factor);
      AndTailComplete(ts, pos + 1 + |a|, t.rest);
    }
  }

  lemma {:induction false} ConjunctionComplete(ts: seq<string>, pos: nat, c: Conjunction)
    requires ConjunctionValid(c) && Occurs(ts, pos, ConjunctionTokens(c))
    requires !TokenIs(ts, pos + |ConjunctionTokens(c)|, "AND")
    ensures ConjunctionAt(ts, pos) == Some((c, pos + |ConjunctionTokens(c)|))
    decreases c
  {
    OccursSplit(ts, pos, FactorTokens(c.first), AndTailTokens(c.tail));
    FactorComplete(ts, pos, c.first);
    AndTailComplete(ts, pos + |FactorTokens(c.first)|, c.tail);
  }

  lemma OrTailStart(t: OrTail)
    ensures OrTailTokens(t) == [] || OrTailTokens(t)[0] == "OR"
  {
  }

  lemma {:induction false} OrTailComplete(ts: seq<string>, pos: nat, t: OrTail)
    requires OrTailValid(t) && Occurs(ts, pos, OrTailTokens(t))
    requires !TokenIs(ts, pos + |OrTailTokens(t)|, "AND") && !TokenIs(ts, pos + |OrTailTokens(t)|, "OR")
    ensures OrTailAt(ts, pos) == Some((t, pos + |OrTailTokens(t)|))
    decreases t
  {
    if t.OrMore? {
      var middle := pos + 1 + |ConjunctionTokens(t.conjunction)|;
      OrMoreParts(ts, pos, t);
      ConjunctionComplete(ts, pos + 1, t.conjunction);
      OrTailComplete(ts, middle, t.rest);
      OrMoreAt(ts, pos, t, middle, pos + |OrTailTokens(t)|);
    }
  }

  /** Where the parts of a disjunction's tail stand. */
  lemma OrMoreParts(ts: seq<string>, pos: nat, t: OrTail)
    requires t.OrMore? && OrTailValid(t) && Occurs(ts, pos, OrTailTokens(t))
    requires !TokenIs(ts, pos + |OrTailTokens(t)|, "AND")
    ensures var (a, b) := (ConjunctionTokens(t.conjunction), OrTailTokens(t.rest));
      && |OrTailTokens(t)| == 1 + |a| + |b| && pos + |OrTailTokens(t)| <= |ts|
      && TokenIs(ts, pos, "OR") && Occurs(ts, pos + 1, a) && Occurs(ts, pos + 1 + |a|, b)
      && !TokenIs(ts, pos + 1 + |a|, "AND")
  {
    OrTailStart(t.rest);
    OrPieces(ts, pos, ConjunctionTokens(t.conjunction), OrTailTokens(t.rest));
  }

  lemma OrPieces(ts: seq<string>, pos: nat, a: seq<string>, b: seq<string>)
    requires Occurs(ts, pos, ["OR"] + (a + b)) && (b == [] || b[0] == "OR")
    requires !TokenIs(ts, pos + 1 + |a| + |b|, "AND")
    ensures TokenIs(ts, pos, "OR") && Occurs(ts, pos + 1, a) && Occurs(ts, pos + 1 + |a|, b)
    ensures pos + 1 + |a| + |b| <= |ts| && !TokenIs(ts, pos + 1 + |a|, "AND")
  {
    OccursSplit(ts, pos, ["OR"], a + b);
    OccursSplit(ts, pos + 1, a, b);
    assert ts[pos] == ts[pos..pos + 1][0];
    if b != [] {
      assert ts[pos + 1 + |a|] == ts[pos + 1 + |a|..pos + 1 + |a| + |b|][0] == "OR";
    }
  }

  lemma OrMoreAt(ts: seq<string>, pos: nat, t: OrTail, middle: nat, end: nat)
    requires t.OrMore? && TokenIs(ts, pos, "OR") && middle <= |ts|
    requires ConjunctionAt(ts, pos + 1) == Some((t.conjunction, middle))
    requires OrTailAt(ts, middle) == Some((t.rest, end))
    ensures OrTailAt(ts, pos) == Some((t, end))
  {
  }

  lemma NotAndAfter(ts: seq<string>, pos: nat, t: OrTail)
    requires Occurs(ts, pos, OrTailTokens(t))
    requires !TokenIs(ts, pos + |OrTailTokens(t)|, "AND")
    ensures !TokenIs(ts, pos, "AND")
  {
    OrTailStart(t);
    if OrTailTokens(t) != [] {
      assert ts[pos] == ts[pos..pos + |OrTailTokens(t)|][0];
    }
  }

  lemma {:induction false} DisjunctionComplete(ts: seq<string>, pos: nat, d: Disjunction)
    requires DisjunctionValid(d) && Occurs(ts, pos, DisjunctionTokens(d))
    requires !TokenIs(ts, pos + |DisjunctionTokens(d)|, "AND") && !TokenIs(ts, pos + |DisjunctionTokens(d)|, "OR")
    ensures DisjunctionAt(ts, pos) == Some((d, pos + |DisjunctionTokens(d)|))
    decreases d
  {
    OccursSplit(ts, pos, ConjunctionTokens(d.first), OrTailTokens(d.tail));
    NotAndAfter(ts, pos + |ConjunctionTokens(d.first)|, d.tail);
    ConjunctionComplete(ts, pos, d.first);
    OrTailComplete(ts, pos + |ConjunctionTokens(d.first)|, d.tail);
  }

  /** The parser is the inverse of the printer: it returns a tree exactly for the
      token lists that print a valid tree, and then that tree. So no token list
      has two trees. */
  lemma ParseInvertsPrinter(ts: seq<string>, d: Disjunction)
    ensures Parse(ts) == Some(d) <==> DisjunctionValid(d) && DisjunctionTokens(d) == ts
  {
    DisjunctionSound(ts, 0);
    if Parse(ts).Some? {
      assert ts[0..|ts|] == ts;
    }
    if DisjunctionValid(d) && DisjunctionTokens(d) == ts {
      assert ts[0..0 + |ts|] == ts;
      DisjunctionComplete(ts, 0, d);
    }
  }

  // ----- the AND/OR/parenthesis fragment of Annex D, an ambiguous grammar

  datatype Annex =
    | SimpleExpression(name: string)
    | Both(left: Annex, right: Annex)
    | Either(left: Annex, right: Annex)
    | Parenthesised(inner: Annex)

  function Yield(a: Annex): seq<string> {
    match a
    case SimpleExpression(name) => [name]
    case Both(l, r) => Yield(l) + ["AND"] + Yield(r)
    case Either(l, r) => Yield(l) + ["OR"] + Yield(r)
    case Parenthesised(inner) => ["("] + Yield(inner) + [")"]
  }

  predicate AnnexValid(a: Annex) {
    match a
    case SimpleExpression(name) => name !in KEYWORDS
    case Both(l, r) => AnnexValid(l) && AnnexValid(r)
    case Either(l, r) => AnnexValid(l) && AnnexValid(r)
    case Parenthesised(inner) => AnnexValid(inner)
  }

  function FactorAnnex(f: Factor): Annex {
    match f
    case Identifier(name) => SimpleExpression(name)
    case Group(inner) => Parenthesised(ToAnnex(inner))
  }

  function ConjunctionAnnex(c: Conjunction): Annex { AndTailAnnex(FactorAnnex(c.first), c.tail) }

  function AndTailAnnex(left: Annex, t: AndTail): Annex
    decreases t
  {
    match t
    case AndEnd => left
    case AndMore(factor, rest) => AndTailAnnex(Both(left, FactorAnnex(factor)), rest)
  }

  /** The parser's tree as a left-associative tree of the Annex D grammar. */
  function ToAnnex(d: Disjunction): Annex { OrTailAnnex(ConjunctionAnnex(d.first), d.tail) }

  function OrTailAnnex(left: Annex, t: OrTail): Annex
    decreases t
  {
    match t
    case OrEnd => left
    case OrMore(conjunction, rest) => OrTailAnnex(Either(left, ConjunctionAnnex(conjunction)), rest)
  }

  lemma {:induction false} FactorAnnexYield(f: Factor)
    requires FactorValid(f)
    ensures AnnexValid(FactorAnnex(f)) && Yield(FactorAnnex(f)) == FactorTokens(f)
    decreases f
  {
    if f.Group? {
      ToAnnexYield(f.inner);
    }
  }

  lemma {:induction false} AndTailAnnexYield(left: Annex, t: AndTail)
    requires AnnexValid(left) && AndTailValid(t)
    ensures AnnexValid(AndTailAnnex(left, t)) && Yield(AndTailAnnex(left, t)) == Yield(left) + AndTailTokens(t)
    decreases t
  {
    if t.AndMore? {
      FactorAnnexYield(t.factor);
      AndTailAnnexYield(Both(left, FactorAnnex(t.factor)), t.rest);
    }
  }

  lemma {:induction false} ConjunctionAnnexYield(c: Conjunction)
    requires ConjunctionValid(c)
    ensures AnnexValid(ConjunctionAnnex(c)) && Yield(ConjunctionAnnex(c)) == ConjunctionTokens(c)
    decreases c
  {
    FactorAnnexYield(c.first);
    AndTailAnnexYield(FactorAnnex(c.first), c.tail);
  }

  lemma {:induction false} OrTailAnnexYield(left: Annex, t: OrTail)
    requires AnnexValid(left) && OrTailValid(t)
    ensures AnnexValid(OrTailAnnex(left, t)) && Yield(OrTailAnnex(left, t)) == Yield(left) + OrTailTokens(t)
    decreases t
  {
    if t.OrMore? {
      ConjunctionAnnexYield(t.conjunction);
      OrTailAnnexYield(Either(left, ConjunctionAnnex(t.conjunction)), t.rest);
    }
  }

  lemma {:induction false} ToAnnexYield(d: Disjunction)
    requires DisjunctionValid(d)
    ensures AnnexValid(ToAnnex(d)) && Yield(ToAnnex(d)) == DisjunctionTokens(d)
    decreases d
  {
    ConjunctionAnnexYield(d.first);
    OrTailAnnexYield(ConjunctionAnnex(d.first), d.tail);
  }

  function AppendAnd(t: AndTail, u: AndTail): AndTail {
    match t
    case AndEnd => u
    case AndMore(factor, rest) => AndMore(factor, AppendAnd(rest, u))
  }

  function AppendOr(t: OrTail, u: OrTail): OrTail {
    match t
    case OrEnd => u
    case OrMore(conjunction, rest) => OrMore(conjunction, AppendOr(rest, u))
  }

  /** Re-reads `d OR e` as one disjunction. */
  function JoinOr(d: Disjunction, e: Disjunction): Disjunction {
    Disjunction(d.first, AppendOr(d.tail, OrMore(e.first, e.tail)))
  }

  /** Re-reads `d AND e`: the AND binds the last conjunction of d to the first of e. */
  function JoinAnd(first: Conjunction, tail: OrTail, e: Disjunction): Disjunction
    decreases tail
  {
    match tail
    case OrEnd =>
      Disjunction(Conjunction(first.first, AppendAnd(first.tail, AndMore(e.first.first, e.first.tail))), e.tail)
    case OrMore(conjunction, rest) =>
      var joined := JoinAnd(conjunction, rest, e);
      Disjunction(first, OrMore(joined.first, joined.tail))
  }

  function FromAnnex(a: Annex): Disjunction {
    match a
    case SimpleExpression(name) => Disjunction(Conjunction(Identifier(name), AndEnd), OrEnd)
    case Both(l, r) => var d := FromAnnex(l); JoinAnd(d.first, d.tail, FromAnnex(r))
    case Either(l, r) => JoinOr(FromAnnex(l), FromAnnex(r))
    case Parenthesised(inner) => Disjunction(Conjunction(Group(FromAnnex(inner)), AndEnd), OrEnd)
  }

  lemma {:induction false} AppendAndTokens(t: AndTail, u: AndTail)
    requires AndTailValid(t) && AndTailValid(u)
    ensures AndTailValid(AppendAnd(t, u)) && AndTailTokens(AppendAnd(t, u)) == AndTailTokens(t) + AndTailTokens(u)
  {
    if t.AndMore? {
      AppendAndTokens(t.rest, u);
    }
  }

  lemma {:induction false} AppendOrTokens(t: OrTail, u: OrTail)
    requires OrTailValid(t) && OrTailValid(u)
    ensures OrTailValid(AppendOr(t, u)) && OrTailTokens(AppendOr(t, u)) == OrTailTokens(t) + OrTailTokens(u)
  {
    if t.OrMore? {
      AppendOrTokens(t.rest, u);
    }
  }

  lemma {:induction false} JoinAndTokens(first: Conjunction, tail: OrTail, e: Disjunction)
    requires ConjunctionValid(first) && OrTailValid(tail) && DisjunctionValid(e)
    ensures DisjunctionValid(JoinAnd(first, tail, e))
    ensures DisjunctionTokens(JoinAnd(first, tail, e)) ==
            DisjunctionTokens(Disjunction(first, tail)) + ["AND"] + DisjunctionTokens(e)
    decreases tail
  {
    match tail
    case OrEnd =>
      var more := AndMore(e.first.first, e.first.tail);
      AppendAndTokens(first.tail, more);
      var f, t, g, u, o := FactorTokens(first.first), AndTailTokens(first.tail),
        FactorTokens(e.first.first), AndTailTokens(e.first.tail), OrTailTokens(e.tail);
      assert DisjunctionTokens(Disjunction(first, OrEnd)) == f + t;
      assert AndTailTokens(more) == ["AND"] + g + u;
      assert f + (t + (["AND"] + g + u)) + o == f + t + ["AND"] + (g + u + o);
    case OrMore(conjunction, rest) =>
      JoinAndTokens(conjunction, rest, e);
      var joined := JoinAnd(conjunction, rest, e);
      var c, d, r := ConjunctionTokens(first), ConjunctionTokens(conjunction), OrTailTokens(rest);
      assert OrTailTokens(OrMore(joined.first, joined.tail)) == ["OR"] + DisjunctionTokens(joined);
      assert DisjunctionTokens(Disjunction(conjunction, rest)) == d + r;
      assert OrTailTokens(tail) == ["OR"] + d + r;
      assert c + (["OR"] + (d + r + ["AND"] + DisjunctionTokens(e))) ==
             c + (["OR"] + d + r) + ["AND"] + DisjunctionTokens(e);
  }

  lemma {:induction false} FromAnnexTokens(a: Annex)
    requires AnnexValid(a)
    ensures DisjunctionValid(FromAnnex(a)) && DisjunctionTokens(FromAnnex(a)) == Yield(a)
  {
    match a
    case SimpleExpression(name) =>
      var c := Conjunction(Identifier(name), AndEnd);
      assert AndTailTokens(AndEnd) == [] && OrTailTokens(OrEnd) == [];
      assert ConjunctionTokens(c) == FactorTokens(c.first) == [name];
      assert DisjunctionTokens(FromAnnex(a)) == ConjunctionTokens(c);
    case Both(l, r) =>
      FromAnnexTokens(l);
      FromAnnexTokens(r);
      JoinAndTokens(FromAnnex(l).first, FromAnnex(l).tail, FromAnnex(r));
    case Either(l, r) =>
      FromAnnexTokens(l);
      FromAnnexTokens(r);
      var d, e := FromAnnex(l), FromAnnex(r);
      AppendOrTokens(d.tail, OrMore(e.first, e.tail));
      assert OrTailTokens(OrMore(e.first, e.tail)) == ["OR"] + DisjunctionTokens(e);
      assert DisjunctionTokens(FromAnnex(a)) ==
             ConjunctionTokens(d.first) + (OrTailTokens(d.tail) + (["OR"] + DisjunctionTokens(e)));
      assert DisjunctionTokens(FromAnnex(a)) == DisjunctionTokens(d) + ["OR"] + DisjunctionTokens(e);
    case Parenthesised(inner) =>
      FromAnnexTokens(inner);
      assert FactorTokens(Group(FromAnnex(inner))) == Yield(a);
      assert AndTailTokens(AndEnd) == [] && OrTailTokens(OrEnd) == [];
  }

  /** The tokens an Annex D expression can consist of. */
  ghost predicate InAnnexD(ts: seq<string>) { exists a :: AnnexValid(a) && Yield(a) == ts }

  /** The parser accepts exactly the AND/OR/parenthesis fragment of Annex D. */
  lemma AcceptsExactlyAnnexD(ts: seq<string>)
    ensures Parse(ts).Some? <==> InAnnexD(ts)
  {
    if Parse(ts).Some? {
      var d := Parse(ts).value;
      ParseInvertsPrinter(ts, d);
      ToAnnexYield(d);
      assert AnnexValid(ToAnnex(d)) && Yield(ToAnnex(d)) == ts;
    }
    if InAnnexD(ts) {
      var a :| AnnexValid(a) && Yield(a) == ts;
      FromAnnexTokens(a);
      ParseInvertsPrinter(ts, FromAnnex(a));
    }
  }

  /** No accepted expression contains WITH, and each has an identifier. */
  lemma {:induction false} AnnexTokens(a: Annex)
    requires AnnexValid(a)
    ensures "WITH" !in Yield(a) && Names(Yield(a)) != {}
  {
    match a
    case SimpleExpression(name) =>
      assert name in Names(Yield(a));
    case Both(l, r) =>
      AnnexTokens(l);
      AnnexTokens(r);
      var x :| x in Names(Yield(l));
      assert x in Names(Yield(a));
    case Either(l, r) =>
      AnnexTokens(l);
      AnnexTokens(r);
      var x :| x in Names(Yield(l));
      assert x in Names(Yield(a));
    case Parenthesised(inner) =>
      AnnexTokens(inner);
      var x :| x in Names(Yield(inner));
      assert x in Names(Yield(a));
  }

  // ----- the parser as the source runs it

  lemma NamesAppend(a: seq<string>, b: seq<string>)
    ensures Names(a + b) == Names(a) + Names(b)
  {
  }

  lemma NamesAround(tokens: seq<string>, start: nat, here: nat, end: nat)
    requires start <= here < end <= |tokens| && tokens[here] in KEYWORDS
    ensures Names(tokens[start..end]) == Names(tokens[start..here]) + Names(tokens[here + 1..end])
  {
    assert tokens[start..end] == tokens[start..here] + [tokens[here]] + tokens[here + 1..end];
    NamesAppend(tokens[start..here], [tokens[here]]);
    NamesAppend(tokens[start..here] + [tokens[here]], tokens[here + 1..end]);
  }

  lemma NamesInside(tokens: seq<string>, start: nat, end: nat)
    requires start + 1 < end <= |tokens| && tokens[start] in KEYWORDS && tokens[end - 1] in KEYWORDS
    ensures Names(tokens[start..end]) == Names(tokens[start + 1..end - 1])
  {
    var open, close := [tokens[start]], [tokens[end - 1]];
    assert tokens[start..end] == open + tokens[start + 1..end - 1] + close;
    NamesAppend(open, tokens[start + 1..end - 1]);
    NamesAppend(open + tokens[start + 1..end - 1], close);
  }

  lemma NamesOfOne(tokens: seq<string>, start: nat)
    requires start < |tokens| && tokens[start] !in KEYWORDS
    ensures Names(tokens[start..start + 1]) == {tokens[start]}
  {
    assert tokens[start..start + 1] == [tokens[start]];
  }

  /** The three nested functions with their shared `position` and `identifiers`;
      a result of false stands for the exception. */
  class Parser {
    const tokens: seq<string>
    var position: nat
    var identifiers: set<string>

    constructor (tokens: seq<string>)
      ensures this.tokens == tokens && position == 0 && identifiers == {}
    {
      this.tokens := tokens;
      position := 0;
      identifiers := {};
    }

    method ParseFactor() returns (ok: bool)
      requires position <= |tokens|
      modifies this`position, this`identifiers
      ensures var r := FactorAt(tokens, old(position));
        && (ok <==> r.Some?)
        && (ok ==> position == r.value.1)
        && (ok ==> identifiers == old(identifiers) + Names(tokens[old(position)..position]))
      decreases |tokens| - position, 0
    {
      if position >= |tokens| {
        return false;
      }
      var token := tokens[position];
      ghost var start, had := position, identifiers;
      if token == "(" {
        position := position + 1;
        ok := ParseOrExpression();
        if !ok || position >= |tokens| || tokens[position] != ")" {
          return false;
        }
        position := position + 1;
        NamesInside(tokens, start, position);
        return true;
      }
      if token in {"AND", "OR", "WITH", ")"} {
        return false;
      }
      identifiers := identifiers + {token};
      position := position + 1;
      NamesOfOne(tokens, start);
      return true;
    }

    method ParseAndExpression() returns (ok: bool)
      requires position <= |tokens|
      modifies this`position, this`identifiers
      ensures var r := ConjunctionAt(tokens, old(position));
        && (ok <==> r.Some?)
        && (ok ==> position == r.value.1)
        && (ok ==> identifiers == old(identifiers) + Names(tokens[old(position)..position]))
      decreases |tokens| - position, 1
    {
      ghost var start, had := position, identifiers;
      ok := ParseFactor();
      if !ok {
        return;
      }
      ghost var whole := AndTailAt(tokens, position);
      while position < |tokens| && tokens[position] == "AND"
        invariant start < position <= |tokens|
        invariant identifiers == had + Names(tokens[start..position])
        invariant var rest := AndTailAt(tokens, position);
          (whole.Some? <==> rest.Some?) && (whole.Some? ==> whole.value.1 == rest.value.1)
        decreases |tokens| - position
      {
        ghost var here := position;
        position := position + 1;
        ok := ParseFactor();
        if !ok {
          return;
        }
        NamesAround(tokens, start, here, position);
      }
    }

    method ParseOrExpression() returns (ok: bool)
      requires position <= |tokens|
      modifies this`position, this`identifiers
      ensures var r := DisjunctionAt(tokens, old(position));
        && (ok <==> r.Some?)
        && (ok ==> position == r.value.1)
        && (ok ==> identifiers == old(identifiers) + Names(tokens[old(position)..position]))
      decreases |tokens| - position, 2
    {
      ghost var start, had := position, identifiers;
      ok := ParseAndExpression();
      if !ok {
        return;
      }
      ghost var whole := OrTailAt(tokens, position);
      while position < |tokens| && tokens[position] == "OR"
        invariant start < position <= |tokens|
        invariant identifiers == had + Names(tokens[start..position])
        invariant var rest := OrTailAt(tokens, position);
          (whole.Some? <==> rest.Some?) && (whole.Some? ==> whole.value.1 == rest.value.1)
        decreases |tokens| - position
      {
        ghost var here := position;
        position := position + 1;
        ok := ParseAndExpression();
        if !ok {
          return;
        }
        NamesAround(tokens, start, here, position);
      }
    }
  }

  /** The identifiers of an expression, None if it is rejected. */
  function Identifiers(expression: string): Option<set<string>> {
    var ts := Tokens(expression);
    if ts.Some? && Parse(ts.value).Some? then Some(Names(ts.value)) else None
  }

  /** `_spdx_license_identifiers`. It succeeds exactly on the expressions whose
      tokens form an Annex D expression without WITH, and returns their names. */
  method LicenseIdentifiers(expression: string) returns (r: Option<set<string>>)
    ensures r == Identifiers(expression)
    ensures r.Some? <==> Tokens(expression).Some? && InAnnexD(Tokens(expression).value)
    ensures r.Some? ==> r.value == Names(Tokens(expression).value) && r.value != {}
    ensures r.Some? ==> "WITH" !in Tokens(expression).value
  {
    var tokens := Tokenize(expression);
    if Tokens(expression).Some? {
      AcceptsExactlyAnnexD(Tokens(expression).value);
    }
    if tokens.None? {
      return None;
    }
    var parser := new Parser(tokens.value);
    var ok := parser.ParseOrExpression();
    if !ok || parser.position != |tokens.value| {
      return None;
    }
    assert tokens.value[0..|tokens.value|] == tokens.value;
    ghost var a :| AnnexValid(a) && Yield(a) == tokens.value;
    AnnexTokens(a);
    assert {} + Names(tokens.value) == Names(tokens.value);
    return Some(parser.identifiers);
  }

  /** Spelling any valid expression of words and reading it back gives its names. */
  lemma SpelledExpressionIsAccepted(a: Annex)
    requires AnnexValid(a)
    requires forall t :: t in Yield(a) ==> IsLexical(t)
    ensures Identifiers(Spell(Yield(a))) == Some(Names(Yield(a)))
  {
    TokensOfSpelling(Yield(a));
    AcceptsExactlyAnnexD(Yield(a));
  }

  /** An accepted expression names at least one licence. */
  lemma IdentifiersNonEmpty(expression: string)
    ensures Identifiers(expression).Some? ==> Identifiers(expression).value != {}
    ensures Identifiers(expression).Some? ==> NonBlank(expression)
  {
    if Identifiers(expression).Some? {
      var ts := Tokens(expression).value;
      AcceptsExactlyAnnexD(ts);
      var a :| AnnexValid(a) && Yield(a) == ts;
      AnnexTokens(a);
      BlankHasNoTokens(expression);
    }
  }

  lemma {:induction false} BlankHasNoTokens(s: string)
    ensures NonBlank(s) || Tokens(s) == Some([])
  {
    if s != [] {
      BlankHasNoTokens(s[1..]);
      if NonBlank(s[1..]) {
        var i :| 0 <= i < |s[1..]| && !IsSpace(s[1..][i]);
        assert !IsSpace(s[i + 1]);
      } else if !NonBlank(s) {
        assert IsSpace(s[0]);
      }
    }
  }
}
