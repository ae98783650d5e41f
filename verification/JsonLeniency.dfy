/** What the Reader accepts although section 2 to 6 of RFC 8259 do not allow it, and exactly when. */
module JsonLeniency {
  import opened Digits
  import opened JsonLocality
  import opened JsonNumbers
  import opened JsonReader
  import opened JsonRoundTrip
  import opened JsonStrings
  import opened JsonTokens
  import opened JsonValue
  import opened Wrappers
  import C = JsonComments

  // Text behind the value

  lemma {:induction false} SkipsAll(s: string)
    ensures SkipSpaces(s) == "" <==> AllSpaces(s)
  {
    if s != "" && IsSpace(s[0]) {
      SkipsAll(s[1..]);
      assert s == [s[0]] + s[1..];
    }
  }

  /** Whatever stands behind the value of an accepted document, unless it goes on an integer, the document is read as
      that value. It is a JSON text, whose value is followed by the end of the document, exactly when there is nothing
      but white space. */
  lemma TextBehind(document: string, rest: string)
    requires ReadDocument(document).Done? && '\0' !in rest
    ensures var p := ReadDocument(document);
      ReadDocument(TextRead(document) + rest) == Done(p.value, rest) <==> Separated(p.value, rest)
    ensures NextToken(rest).kind == EndOfStream <==> AllSpaces(rest)
  {
    hide ReadDocument, TextRead, TokenSpan, Separated;
    OnlyTheValueCounts(document, rest);
    SkipsAll(rest);
    SkipsTo(rest);
    var s := SkipSpaces(rest);
    if s != "" {
      OnlyNulEnds(s[0], s[1..]);
    }
  }

  lemma {:induction false} SkipsTo(s: string)
    ensures forall c | c in SkipSpaces(s) :: c in s
  {
    if s != "" && IsSpace(s[0]) {
      SkipsTo(s[1..]);
    }
  }

  lemma OnlyNulEnds(c: char, s: string)
    requires c != '\0'
    ensures TokenSpan(c, s).kind != EndOfStream
  {
  }

  lemma NullThenMore()
    ensures ReadDocument("null x") == Done(Null, " x")
  {
    assert "null" + " x" == "null x";
    CStringIsWhole("null x");
    ReadNull(" x", 0);
  }

  // Numbers without digits, and with leading zeros

  /** Section 6: an optional minus sign and the decimal notation of a natural number. */
  ghost predicate IsInteger(token: string) {
    exists n: nat :: TokenDigits(token) == Decimal(n)
  }

  lemma {:induction false} DecimalOfNumeral(s: string)
    requires AllDigits(s) && s != "" && (s[0] == '0' ==> |s| == 1)
    ensures Decimal(Numeral(s)) == s
    ensures s[0] != '0' ==> Numeral(s) > 0
  {
    var init, d := s[..|s| - 1], DigitValue(s[|s| - 1]);
    assert s == init + [Digit(d)];
    if |s| == 1 {
      assert Numeral(init) == 0;
    } else {
      DecimalOfNumeral(init);
    }
  }

  /** A token that is read as an integer is one exactly when it has a digit and its first digit is not a zero in front
      of others. Without any digit it is read as 0. */
  lemma AcceptedInteger(token: string)
    requires IntegerOfToken(token).Some?
    ensures var digits := TokenDigits(token);
      && (IsInteger(token) <==> digits != "" && (digits[0] == '0' ==> |digits| == 1))
      && (digits == "" ==> IntegerOfToken(token) == Some(Int(0)))
  {
    var digits := TokenDigits(token);
    if digits != "" && (digits[0] == '0' ==> |digits| == 1) {
      DecimalOfNumeral(digits);
      assert digits == Decimal(Numeral(digits));
    }
    if n: nat :| digits == Decimal(n) {
      NumeralOfDecimal(n);
    }
  }

  lemma MinusIsZero()
    ensures ReadDocument("-") == Done(Int(0), "")
  {
    hide NextToken, IntegerOfToken;
    CStringIsWhole("-");
    MinusToken();
    NoComment("-");
  }

  lemma MinusToken()
    ensures NextToken("-") == Token(NumberToken, "-", "") && IntegerOfToken("-") == Some(Int(0))
  {
    hide NextToken;
    assert ['-'] + "" + "" == "-" && "" + "" == "" && NumberRun("") == 0;
    TokenFromSpan('-', "", "", NumberToken);
    assert TokenDigits("-") == "";
    hide IntegerOfToken;
    AcceptedInteger("-");
  }

  lemma LeadingZeros()
    ensures ReadDocument("007") == Done(Int(7), "") && !IsInteger("007")
  {
    hide NextToken, IntegerOfToken;
    assert CString("007") == "007" by { CStringIsWhole("007"); }
    assert ['0'] + "07" + "" == "007" && "07" + "" == "07";
    DigitRunOfDigits("07", "");
    assert NumberRun("07") == 2;
    TokenFromSpan('0', "07", "", NumberToken);
    assert IntegerOfToken("007") == Some(Int(7)) by { SevenOfToken(); }
    AcceptedInteger("007");
    assert TokenDigits("007") == "007";
  }

  lemma SevenOfToken()
    ensures IntegerOfToken("007") == Some(Int(7))
  {
    assert "007"[..2] == "00" && "00"[..1] == "0" && "0"[..0] == "";
  }

  // Commas in objects

  /** A text that is read as one member: a name, a colon and a value, with white space and comments wherever the reader
      allows them. */
  predicate ReadsMember(text: string, depth: nat, key: string, v: Value) {
    var first := NextNoComment(text);
    && first.kind == StringToken && TextOf(first.text) == Some(key)
    && NextToken(first.rest).kind == MemberSeparator
    && ReadValue(NextToken(first.rest).rest, depth) == Done(v, "")
  }

  /** It is read like that whatever follows, unless that goes on an integer. */
  lemma MemberThen(text: string, rest: string, depth: nat, members: seq<Member>,
    previous: string, key: string, v: Value)
    requires ReadsMember(text, depth, key, v) && Separated(v, rest)
    ensures ReadRound(text + rest, depth, members, previous) == EndRound(SetMember(members, key, v), key, rest)
  {
    hide NextNoComment, NextToken, ReadValue, ReadRound, EndRound, SetMember, TextOf, SettledToken, EndsNumber;
    var t, n := text + rest, |text|;
    assert Agree(text, t, n);
    var first, first' := NextNoComment(text), NextNoComment(t);
    PlainSettled(first, text, t, n);
    NoCommentAgree(text, t, n);
    LeftAgree(text, t, n, first.rest, first'.rest);
    var colon, colon' := NextToken(first.rest), NextToken(first'.rest);
    PlainSettled(colon, first.rest, first'.rest, |first.rest|);
    TokenAgree(first.rest, first'.rest, |first.rest|);
    LeftAgree(first.rest, first'.rest, |first.rest|, colon.rest, colon'.rest);
    LeftTwice(text, t, first.rest, first'.rest, colon.rest, colon'.rest);
    RestBehind(text, rest, colon.rest, colon'.rest);
    ValueAgree(colon.rest, colon'.rest, |colon.rest|, depth);
    RoundParts(t, depth, members, previous);
  }

  lemma RestBehind(text: string, rest: string, r: string, r': string)
    requires Left(text, text + rest, r, r')
    ensures |r'| == |r| + |rest| && r'[|r|..] == rest && RestIn(r', |r|) == rest
  {
  }

  /** The end of a member, for any members before it, any value and any text behind it. The object ends at a closing
      brace; a comma is taken for the comma to the next member, and so is, behind a comment, any other token. */
  lemma BetweenMembers(text: string, rest: string, depth: nat, members: seq<Member>,
    previous: string, key: string, v: Value)
    requires ReadsMember(text, depth, key, v) && Separated(v, rest)
    ensures var (first, p, all) := (NextToken(rest), NextNoComment(rest), SetMember(members, key, v));
      ReadMembers(text + rest, depth, members, previous) ==
      if p.kind == ObjectEnd then Done(Obj(all), p.rest)
      else if first.kind == ArraySeparator || first.kind == CommentToken then ReadMembers(p.rest, depth, all, key)
      else Failed(Syntax)
  {
    hide NextToken, NextNoComment, ReadRound, ReadsMember, SetMember, Separated;
    MemberThen(text, rest, depth, members, previous, key, v);
    if NextToken(rest).kind != CommentToken {
      NoComment(rest);
    }
  }

  /** So with a comma and a closing brace behind a member, the object is read exactly when the member's
      name is empty. */
  lemma TrailingComma(text: string, rest: string, depth: nat, members: seq<Member>,
    previous: string, key: string, v: Value)
    requires ReadsMember(text, depth, key, v) && Separated(v, rest)
    requires NextNoComment(rest).kind == ArraySeparator && NextNoComment(NextNoComment(rest).rest).kind == ObjectEnd
    ensures ReadMembers(text + rest, depth, members, previous) ==
      if key == "" then Done(Obj(SetMember(members, key, v)), NextNoComment(NextNoComment(rest).rest).rest)
      else Failed(Syntax)
  {
    hide NextToken, NextNoComment, ReadsMember, SetMember, Separated, ReadMembers;
    BetweenMembers(text, rest, depth, members, previous, key, v);
    if NextToken(rest).kind != CommentToken {
      NoComment(rest);
    }
    ClosingBrace(NextNoComment(rest).rest, depth, SetMember(members, key, v), key);
  }

  lemma ClosingBrace(s: string, depth: nat, members: seq<Member>, name: string)
    requires NextNoComment(s).kind == ObjectEnd
    ensures ReadMembers(s, depth, members, name) ==
      if name == "" then Done(Obj(members), NextNoComment(s).rest) else Failed(Syntax)
  {
    hide NextNoComment;
  }

  /** A member of value null. */
  function NullMember(name: string): string {
    Quote(name) + ":null"
  }

  lemma ReadsNullMember(name: string, depth: nat)
    requires depth < STACK_LIMIT
    ensures ReadsMember(NullMember(name), depth, name, Null)
  {
    var entry := G.Entry("", E.ChosenAll(name), "", "", G.Word("null"), "");
    hide ReadValue, NextToken, NextNoComment, Quote, Unescape, G.QuotedText, E.ChosenAll;
    assert NullMember(name) == "" + (Quote(name) + ("" + (":" + "null"))) && "null" + "" == "null";
    QuoteIsTree(name);
    G.ReadNameThen(entry, "null");
    NoComment(NullMember(name));
    ReadNull("", depth);
  }

  lemma ReadNull(rest: string, depth: nat)
    requires depth < STACK_LIMIT
    ensures ReadValue("null" + rest, depth) == Done(Null, rest)
  {
    hide ReadValue;
    G.ReadSyntax(G.Word("null"), rest, depth);
  }

  lemma NoNulInQuote(name: string)
    ensures '\0' !in Quote(name)
  {
    hide Escape;
    E.EscapeHasNoControl(name);
  }

  lemma DocumentOpens(inside: string)
    requires '\0' !in inside
    ensures ReadDocument(['{'] + inside) == ReadMembers(inside, 1, [], "")
  {
    hide ReadValue, ReadMembers;
    CStringIsWhole(['{'] + inside);
    OpensObject(inside, 0);
  }

  /** The shortest comment. */
  lemma CommentThen(rest: string)
    ensures NextToken("/**/" + rest) == Token(CommentToken, "/**/", rest)
    ensures NextNoComment("/**/" + rest) == NextNoComment(rest)
  {
    hide NextToken, NextNoComment;
    assert "/*" + ("" + "*/") == "/**/";
    C.CommentIsToken(C.Block(""), rest);
    C.CommentIsSkipped(C.Block(""), rest, 0);
  }

  /** The objects {"":null,} and {"a":null,}: the first is read, the second is refused. */
  lemma CommaThenBrace()
    ensures ReadDocument(['{'] + (NullMember("") + ",}")) == Done(Obj([Member("", Null)]), "")
    ensures ReadDocument(['{'] + (NullMember("a") + ",}")) == Failed(Syntax)
  {
    hide ReadDocument, NextToken, NextNoComment, ReadMembers, SetMember, ReadsMember, NullMember;
    assert [','] + "}" == ",}" && ['}'] + "" == "}";
    PunctuationToken(',', "}");
    NoComment(",}");
    PunctuationToken('}', "");
    NoComment("}");
    NullThen("", ",}");
    TrailingComma(NullMember(""), ",}", 1, [], "", "", Null);
    SetMemberAppends([], "", Null);
    NullThen("a", ",}");
    TrailingComma(NullMember("a"), ",}", 1, [], "", "a", Null);
    assert [] + [Member("", Null)] == [Member("", Null)];
  }

  /** An object that starts with a member of value null. */
  lemma NullThen(name: string, rest: string)
    requires '\0' !in rest
    ensures ReadDocument(['{'] + (NullMember(name) + rest)) == ReadMembers(NullMember(name) + rest, 1, [], "")
    ensures ReadsMember(NullMember(name), 1, name, Null) && Separated(Null, rest)
  {
    hide ReadDocument, ReadMembers, ReadsMember, Quote;
    NoNulInQuote(name);
    DocumentOpens(NullMember(name) + rest);
    ReadsNullMember(name, 1);
  }

  /** A closing bracket behind a comment: {"a":null followed by a comment, ] and "b":null}. */
  lemma BracketForComma()
    ensures ReadDocument(['{'] + (NullMember("a") + ("/**/]" + (NullMember("b") + "}")))) ==
      Done(Obj([Member("a", Null), Member("b", Null)]), "")
  {
    hide ReadDocument, NextToken, NextNoComment, ReadMembers, SetMember, ReadsMember, NullMember;
    var last := NullMember("b") + "}";
    assert '\0' !in last by { NoNulInMember("b"); }
    NullThen("a", "/**/]" + last);
    assert "/**/" + ([']'] + last) == "/**/]" + last && ['}'] + "" == "}";
    CommentThen([']'] + last);
    PunctuationToken(']', last);
    NoComment([']'] + last);
    BetweenMembers(NullMember("a"), "/**/]" + last, 1, [], "", "a", Null);
    SetMemberAppends([], "a", Null);
    assert [] + [Member("a", Null)] == [Member("a", Null)];
    PunctuationToken('}', "");
    NoComment("}");
    ReadsNullMember("b", 1);
    BetweenMembers(NullMember("b"), "}", 1, [Member("a", Null)], "a", "b", Null);
    SetMemberAppends([Member("a", Null)], "b", Null);
    assert [Member("a", Null)] + [Member("b", Null)] == [Member("a", Null), Member("b", Null)];
  }

  lemma NoNulInMember(name: string)
    ensures '\0' !in NullMember(name)
  {
    hide Quote;
    NoNulInQuote(name);
  }

  lemma OnlyBracketEnds(c: char, s: string)
    ensures TokenSpan(c, s).kind == ArrayEnd <==> c == ']'
    ensures c == ']' ==> TokenSpan(c, s) == Span(ArrayEnd, 1)
  {
  }

  /** An array without items is read exactly when there is no comment between its brackets. */
  lemma EmptyArray(s: string, depth: nat)
    requires depth < STACK_LIMIT && NextNoComment(s).kind == ArrayEnd
    ensures ReadArrayRest(s, depth) ==
      if NextToken(s).kind == ArrayEnd then Done(Arr([]), NextToken(s).rest) else Failed(Syntax)
  {
    hide TokenSpan, NextNoComment;
    var inside := SkipSpaces(s);
    EndNeedsNoComment(s);
    if inside != "" {
      OnlyBracketEnds(inside[0], inside[1..]);
    }
    assert ReadValue(s, depth) == Failed(Syntax);
  }

  lemma EndNeedsNoComment(s: string)
    ensures NextToken(s).kind == EndOfStream ==> NextNoComment(s).kind == EndOfStream
  {
    hide NextToken;
  }

  lemma DocumentOpensArray(inside: string)
    requires '\0' !in inside
    ensures ReadDocument(['['] + inside) == ReadArrayRest(inside, 1)
  {
    hide ReadValue, ReadArrayRest;
    CStringIsWhole(['['] + inside);
    OpensArray(inside, 0);
  }

  lemma BracketThen()
    ensures NextToken("]") == Token(ArrayEnd, "]", "") && NextNoComment("]") == Token(ArrayEnd, "]", "")
  {
    hide NextToken;
    assert [']'] + "" == "]";
    PunctuationToken(']', "");
    NoComment("]");
  }

  lemma CommentInArray()
    ensures ReadDocument("[/**/]") == Failed(Syntax) && ReadDocument("[]") == Done(Arr([]), "")
  {
    hide ReadDocument, NextToken, NextNoComment, ReadArrayRest;
    BracketThen();
    assert ['['] + "/**/]" == "[/**/]" && ['['] + "]" == "[]" && "/**/" + "]" == "/**/]";
    DocumentOpensArray("/**/]");
    DocumentOpensArray("]");
    CommentThen("]");
    EmptyArray("/**/]", 1);
    EmptyArray("]", 1);
  }
}
