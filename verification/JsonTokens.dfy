/** Tokens at the start of a text, and the brackets that start a container. */
module JsonTokens {
  import opened Digits
  import opened JsonReader
  import opened JsonStrings
  import opened Sequences
  import opened Wrappers

  /** A text that does not continue a number token. */
  predicate EndsNumber(s: string) {
    s == "" || !(IsDigit(s[0]) || s[0] == '.' || s[0] == 'e' || s[0] == 'E')
  }

  lemma {:induction false} SkipLeadingSpaces(w: string, s: string)
    requires AllSpaces(w)
    ensures SkipSpaces(w + s) == SkipSpaces(s)
  {
    if w == "" {
      assert w + s == s;
    } else {
      SkipLeadingSpaces(w[1..], s);
      assert (w + s)[1..] == w[1..] + s;
    }
  }

  lemma TokenAfterSpaces(w: string, s: string)
    requires AllSpaces(w)
    ensures NextToken(w + s) == NextToken(s)
  {
    SkipLeadingSpaces(w, s);
  }

  /** A span found at the start of a text that is cut accordingly. */
  lemma TokenFromSpan(c: char, word: string, rest: string, kind: TokenType)
    requires !IsSpace(c) && TokenSpan(c, word + rest) == Span(kind, 1 + |word|)
    ensures NextToken([c] + word + rest) == Token(kind, [c] + word, rest)
  {
    hide TokenSpan;
    var s := [c] + word + rest;
    assert s == [c] + (word + rest);
    assert s[1..] == word + rest;
    assert s[..1 + |word|] == [c] + word;
    assert s[1 + |word|..] == rest;
  }

  lemma FirstToken(c: char, tail: string)
    requires !IsSpace(c)
    ensures NextToken([c] + tail).kind == TokenSpan(c, tail).kind
  {
    hide TokenSpan;
    assert ([c] + tail)[1..] == tail;
  }


  lemma PunctuationToken(c: char, rest: string)
    requires c in "{}[],:"
    ensures NextToken([c] + rest) ==
            Token(if c == '{' then ObjectBegin else if c == '}' then ObjectEnd
                  else if c == '[' then ArrayBegin else if c == ']' then ArrayEnd
                  else if c == ',' then ArraySeparator else MemberSeparator, [c], rest)
  {
    var kind := TokenSpan(c, rest).kind;
    assert "" + rest == rest && [c] + "" == [c];
    TokenFromSpan(c, "", rest, kind);
  }

  lemma WordToken(text: string, rest: string)
    requires text == "true" || text == "false" || text == "null"
    ensures NextToken(text + rest) ==
            Token(if text == "true" then TrueToken else if text == "false" then FalseToken else NullToken, text, rest)
  {
    var word := text[1..];
    assert word <= word + rest;
    var kind := if text == "true" then TrueToken else if text == "false" then FalseToken else NullToken;
    assert word == (if text == "true" then "rue" else if text == "false" then "alse" else "ull");
    assert text == [text[0]] + word;
    TokenFromSpan(text[0], word, rest, kind);
  }

  /** Leading white space does not change what is read. */
  lemma ReadAfterSpaces(w: string, s: string, depth: nat)
    requires AllSpaces(w)
    ensures ReadValue(w + s, depth) == ReadValue(s, depth)
  {
    TokenAfterSpaces(w, s);
    ReadValueSeesToken(w + s, s, depth);
  }

  lemma AtStackLimit(s: string, depth: nat)
    requires depth >= STACK_LIMIT
    ensures ReadValue(s, depth) == Failed(StackLimit)
  {
  }

  lemma WholeNumberToken(c: char, word: string, rest: string)
    requires (IsDigit(c) || c == '-') && AllDigits(word) && EndsNumber(rest)
    ensures NextToken([c] + word + rest) == Token(NumberToken, [c] + word, rest)
  {
    DigitRunOfDigits(word, rest);
    assert (word + rest)[|word|..] == rest;
    assert NumberRun(word + rest) == |word| by { hide DigitRun; }
    TokenFromSpan(c, word, rest, NumberToken);
  }

  /** A string token ends at its first unescaped quote. */
  lemma BodyToken(body: string, tail: string)
    requires ClosingQuote(body + ("\"" + tail)) == Some(|body| + 1)
    ensures var text := "\"" + (body + "\"");
      && NextToken(text + tail) == Token(StringToken, text, tail)
      && text + tail == "\"" + (body + ("\"" + tail)) && |text| >= 2 && text[1..|text| - 1] == body
  {
    hide ClosingQuote;
    var word, text := body + "\"", "\"" + (body + "\"");
    Regroup(body, "\"", tail);
    Regroup("\"", word, tail);
    assert text == ['\"'] + word && text[1..|text| - 1] == body;
    TokenFromSpan('\"', word, tail, StringToken);
  }

  lemma NoSpaceFirst(s: string, t: string)
    requires s != "" && !IsSpace(s[0])
    ensures SkipSpaces(s + t) == s + t && (s + t)[0] == s[0]
  {
  }

  lemma OpensArray(s: string, depth: nat)
    requires depth < 1000
    ensures ReadValue(['['] + s, depth) == ReadArrayRest(s, depth + 1)
  {
    hide NextToken, ReadArrayRest;
    PunctuationToken('[', s);
    NoComment(['['] + s);
  }

  lemma OpensObject(s: string, depth: nat)
    requires depth < 1000
    ensures ReadValue(['{'] + s, depth) == ReadMembers(s, depth + 1, [], "")
  {
    hide NextToken, ReadMembers;
    PunctuationToken('{', s);
    NoComment(['{'] + s);
  }

  lemma {:induction false} CStringIsWhole(s: string)
    requires '\0' !in s
    ensures CString(s) == s
  {
    if s != "" {
      CStringIsWhole(s[1..]);
      assert s == [s[0]] + s[1..];
    }
  }
}
