/** How SPDX expressions are written. */
module SpdxText {
  // Which texts the tokenizer reads as which tokens, and which of these name licences
  // (scripts/generate_supply_chain_evidence.py:261-317).

  import opened Text
  import opened Spdx

  /** The characters of a word, one by one. */
  lemma TokenCharacters(c: char)
    ensures IsTokenChar(c) <==> c in DIGITS || c in LOWER || c in UPPER || c in ".+-"
  {
    CharacterClasses(c);
  }

  /** The text starts with the first token, after blank text that must not be missing
      between two words. */
  ghost predicate Starts(text: string, tokens: seq<string>, gap: string, rest: string)
    requires tokens != []
  {
    && text == gap + tokens[0] + rest && IsBlankText(gap) && IsLexical(tokens[0])
    && (|tokens| > 1 && IsWord(tokens[0]) && IsWord(tokens[1]) ==> rest != [] && IsSpace(rest[0]))
  }

  /** The text writes the tokens: each word or parenthesis stands there in order, with
      blank text around, which may be missing except between two words. */
  ghost predicate Writes(text: string, tokens: seq<string>)
    decreases |tokens|
  {
    if tokens == [] then IsBlankText(text)
    else exists gap, rest :: Starts(text, tokens, gap, rest) && Writes(rest, tokens[1..])
  }

  lemma {:induction false} GapsAreSkipped(gap: string, rest: string)
    requires IsBlankText(gap)
    ensures Tokens(gap + rest) == Tokens(rest)
    decreases |gap|
  {
    if gap == [] {
      assert gap + rest == rest;
    } else {
      assert (gap + rest)[0] == gap[0] && (gap + rest)[1..] == gap[1..] + rest;
      GapsAreSkipped(gap[1..], rest);
    }
  }

  /** What follows a word starts with no character of a word. */
  lemma AfterToken(text: string, tokens: seq<string>, gap: string, rest: string)
    requires tokens != [] && Starts(text, tokens, gap, rest) && Writes(rest, tokens[1..]) && IsWord(tokens[0])
    ensures rest == [] || !IsTokenChar(rest[0])
  {
    if |tokens| > 1 && !IsWord(tokens[1]) {
      var more, later :| Starts(rest, tokens[1..], more, later);
      ParenthesisFirst(more, tokens[1], later);
    }
  }

  lemma ParenthesisFirst(gap: string, token: string, rest: string)
    requires IsBlankText(gap) && IsLexical(token) && !IsWord(token)
    ensures !IsTokenChar((gap + token + rest)[0])
  {
    assert gap != [] ==> (gap + token + rest)[0] == gap[0];
    assert gap == [] ==> (gap + token + rest)[0] == token[0];
  }

  lemma FirstToken(token: string, rest: string)
    requires IsLexical(token) && (IsWord(token) ==> rest == [] || !IsTokenChar(rest[0]))
    ensures Tokens(token + rest) == Prepend(token, Tokens(rest))
  {
    var s := token + rest;
    assert s[0] == token[0] && !IsSpace(token[0]);
    if IsWord(token) {
      RunLengthOfWord(token, rest);
    }
    assert TokenLength(s) == |token| && s[..|token|] == token && s[|token|..] == rest;
  }

  lemma OneIsRead(text: string, tokens: seq<string>, gap: string, rest: string)
    requires tokens != [] && Starts(text, tokens, gap, rest) && Writes(rest, tokens[1..])
    ensures Tokens(text) == Prepend(tokens[0], Tokens(rest))
  {
    if IsWord(tokens[0]) {
      AfterToken(text, tokens, gap, rest);
    }
    GappedToken(gap, tokens[0], rest);
  }

  lemma GappedToken(gap: string, token: string, rest: string)
    requires IsBlankText(gap) && IsLexical(token) && (IsWord(token) ==> rest == [] || !IsTokenChar(rest[0]))
    ensures Tokens(gap + token + rest) == Prepend(token, Tokens(rest))
  {
    FirstToken(token, rest);
    assert gap + token + rest == gap + (token + rest);
    GapsAreSkipped(gap, token + rest);
  }

  lemma {:induction false} WrittenIsRead(text: string, tokens: seq<string>)
    requires Writes(text, tokens)
    ensures Tokens(text) == Some(tokens)
    decreases |tokens|
  {
    if tokens == [] {
      GapsAreSkipped(text, []);
      assert text + [] == text;
    } else {
      var gap, rest :| Starts(text, tokens, gap, rest) && Writes(rest, tokens[1..]);
      WrittenIsRead(rest, tokens[1..]);
      OneIsRead(text, tokens, gap, rest);
      assert [tokens[0]] + tokens[1..] == tokens;
    }
  }

  lemma WritesAfterSpace(c: char, text: string, tokens: seq<string>)
    requires IsSpace(c) && Writes(text, tokens)
    ensures Writes([c] + text, tokens)
  {
    if tokens != [] {
      var gap, rest :| Starts(text, tokens, gap, rest) && Writes(rest, tokens[1..]);
      assert [c] + text == ([c] + gap) + tokens[0] + rest;
      assert Starts([c] + text, tokens, [c] + gap, rest);
    }
  }

  /** Before a word, a text that starts with no character of a word starts with space. */
  lemma StartsWithSpace(text: string, tokens: seq<string>)
    requires tokens != [] && Writes(text, tokens) && IsWord(tokens[0])
    ensures text != [] && (IsSpace(text[0]) || IsTokenChar(text[0]))
  {
    var gap, rest :| Starts(text, tokens, gap, rest);
    assert gap == [] ==> text[0] == tokens[0][0];
    assert gap != [] ==> text[0] == gap[0];
  }

  /** A token that is read first is written first. */
  lemma OneIsWritten(text: string, tokens: seq<string>)
    requires text != [] && !IsSpace(text[0]) && Tokens(text) == Some(tokens)
    requires var n := TokenLength(text); Tokens(text[n..]).Some? && Writes(text[n..], Tokens(text[n..]).value)
    ensures Writes(text, tokens)
  {
    var n := TokenLength(text);
    var rest := text[n..];
    assert tokens == [text[..n]] + Tokens(rest).value;
    assert tokens[1..] == Tokens(rest).value;
    assert text == [] + tokens[0] + rest;
    if |tokens| > 1 && IsWord(tokens[0]) && IsWord(tokens[1]) {
      StartsWithSpace(rest, tokens[1..]);
      assert rest[0] == text[n];
    }
    assert Starts(text, tokens, [], rest);
  }

  lemma {:induction false} ReadIsWritten(text: string)
    requires Tokens(text).Some?
    ensures Writes(text, Tokens(text).value)
    decreases |text|
  {
    if text != [] {
      if IsSpace(text[0]) {
        ReadIsWritten(text[1..]);
        WritesAfterSpace(text[0], text[1..], Tokens(text).value);
        assert [text[0]] + text[1..] == text;
      } else {
        ReadIsWritten(text[TokenLength(text)..]);
        OneIsWritten(text, Tokens(text).value);
      }
    }
  }

  /** Tokens are read exactly from the texts that write them. */
  lemma TokensExactly(text: string, tokens: seq<string>)
    ensures Tokens(text) == Some(tokens) <==> Writes(text, tokens)
  {
    if Writes(text, tokens) {
      WrittenIsRead(text, tokens);
    }
    if Tokens(text) == Some(tokens) {
      ReadIsWritten(text);
    }
  }

  /** The licences of an accepted expression are its words other than AND and OR. */
  lemma IdentifiersAreWords(expression: string, name: string)
    requires Identifiers(expression).Some?
    ensures name in Identifiers(expression).value <==>
      name in Tokens(expression).value && IsWord(name) && name != "AND" && name != "OR"
  {
    var tokens := Tokens(expression).value;
    ReadIsWritten(expression);
    AllLexical(expression, tokens);
    AcceptsExactlyAnnexD(tokens);
    var a :| AnnexValid(a) && Yield(a) == tokens;
    AnnexTokens(a);
    assert !IsWord("(") && !IsWord(")") by {
      assert "("[0] == '(' && ")"[0] == ')';
    }
  }

  lemma {:induction false} AllLexical(text: string, tokens: seq<string>)
    requires Writes(text, tokens)
    ensures forall t :: t in tokens ==> IsLexical(t)
    decreases |tokens|
  {
    if tokens != [] {
      var gap, rest :| Starts(text, tokens, gap, rest) && Writes(rest, tokens[1..]);
      AllLexical(rest, tokens[1..]);
    }
  }

  /** A word alone is an expression that names it. */
  lemma WordAlone(word: string)
    requires IsWord(word) && word !in KEYWORDS
    ensures Identifiers(word) == Some({word})
  {
    TokensOfFirst(word, []);
    assert word + [] == word && [word] + [] == [word];
    var leaf := SimpleExpression(word);
    assert AnnexValid(leaf) && Yield(leaf) == [word];
    AcceptsExactlyAnnexD([word]);
    assert Names([word]) == {word};
  }

  lemma WritesFirst(gap: string, token: string, rest: string, tokens: seq<string>)
    requires IsBlankText(gap) && IsLexical(token) && Writes(rest, tokens)
    requires IsWord(token) && tokens != [] && IsWord(tokens[0]) ==> rest != [] && IsSpace(rest[0])
    ensures Writes(gap + token + rest, [token] + tokens)
  {
    var all := [token] + tokens;
    assert all[1..] == tokens && all[0] == token;
    assert Starts(gap + token + rest, all, gap, rest);
  }

  /** A choice of two licences, with no space beside the parentheses. */
  function Choice(a: string, b: string): string { "(" + (a + OrElse(b)) }

  function OrElse(b: string): string { " OR" + (" " + b + ")") }

  lemma OrElseIsWritten(b: string)
    requires IsWord(b)
    ensures Writes(OrElse(b), ["OR", b, ")"])
  {
    assert IsWord("OR") && !IsWord(")") && IsSpace(' ');
    WritesFirst("", ")", "", []);
    assert "" + ")" + "" == ")" && [")"] + [] == [")"];
    WritesFirst(" ", b, ")", [")"]);
    WritesFirst(" ", "OR", " " + b + ")", [b] + [")"]);
    assert ["OR"] + ([b] + [")"]) == ["OR", b, ")"];
    assert " " + "OR" + (" " + b + ")") == OrElse(b);
  }

  lemma ChoiceIsWritten(a: string, b: string)
    requires IsWord(a) && IsWord(b)
    ensures Writes(Choice(a, b), ["(", a, "OR", b, ")"])
  {
    assert OrElse(b)[0] == ' ' && IsSpace(' ');
    OrElseIsWritten(b);
    WritesFirst("", a, OrElse(b), ["OR", b, ")"]);
    assert "" + a + OrElse(b) == a + OrElse(b) && [a] + ["OR", b, ")"] == [a, "OR", b, ")"];
    OpeningIsWritten(a + OrElse(b), [a, "OR", b, ")"]);
    assert ["("] + [a, "OR", b, ")"] == ["(", a, "OR", b, ")"];
  }

  lemma OpeningIsWritten(rest: string, tokens: seq<string>)
    requires Writes(rest, tokens)
    ensures Writes("(" + rest, ["("] + tokens)
  {
    assert !IsWord("(");
    WritesFirst("", "(", rest, tokens);
    assert "" + "(" + rest == "(" + rest;
  }

  lemma ChoiceNames(a: string, b: string)
    requires IsWord(a) && IsWord(b) && a !in KEYWORDS && b !in KEYWORDS
    ensures Identifiers(Choice(a, b)) == Some({a, b})
  {
    var tokens := ["(", a, "OR", b, ")"];
    ChoiceIsWritten(a, b);
    WrittenIsRead(Choice(a, b), tokens);
    ChoiceYields(a, b);
    AcceptsExactlyAnnexD(tokens);
    NamesOfChoice(a, b);
  }

  lemma NamesOfChoice(a: string, b: string)
    requires a !in KEYWORDS && b !in KEYWORDS
    ensures Names(["(", a, "OR", b, ")"]) == {a, b}
  {
    var tokens := ["(", a, "OR", b, ")"];
    assert tokens[1] == a && tokens[3] == b;
    assert a in Names(tokens) && b in Names(tokens);
  }

  lemma ChoiceYields(a: string, b: string)
    requires a !in KEYWORDS && b !in KEYWORDS
    ensures InAnnexD(["(", a, "OR", b, ")"])
  {
    var either := Either(SimpleExpression(a), SimpleExpression(b));
    assert Yield(either) == [a] + ["OR"] + [b];
    assert Yield(Parenthesised(either)) == ["("] + Yield(either) + [")"] == ["(", a, "OR", b, ")"];
    assert AnnexValid(either) && AnnexValid(Parenthesised(either));
  }

  lemma SampleWords()
    ensures IsWord("MIT") && IsWord("Apache-2.0") && "MIT" !in KEYWORDS && "Apache-2.0" !in KEYWORDS
  {
  }

  lemma ParenthesisedChoice()
    ensures Identifiers("(MIT OR Apache-2.0)") == Some({"MIT", "Apache-2.0"})
  {
    SampleWords();
    ChoiceNames("MIT", "Apache-2.0");
    assert Choice("MIT", "Apache-2.0") == "(MIT OR Apache-2.0)";
  }
}
