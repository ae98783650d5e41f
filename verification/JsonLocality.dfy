/** What the Reader reads depends only on the text up to the end of the value: whatever else stands behind it, the same
    value is read, and reading ends at the same place. */
module JsonLocality {
  import opened Digits
  import opened JsonNumbers
  import opened JsonReader
  import opened JsonRoundTrip
  import opened JsonStrings
  import opened JsonTokens
  import opened JsonValue
  import opened Wrappers

  /** Two texts have the same first n characters. */
  predicate Agree(s: string, t: string, n: nat): (b: bool)
    ensures b ==> n <= |s| && n <= |t|
  {
    n <= |s| && n <= |t| && forall i | 0 <= i < n :: s[i] == t[i]
  }

  lemma AgreeBehind(s: string, t: string, n: nat, k: nat)
    requires Agree(s, t, n) && k <= n
    ensures Agree(s[k..], t[k..], n - k)
  {
  }

  // Tokens: each is settled by its own characters and at most the next one

  lemma {:induction false} DigitRunAgree(s: string, t: string, n: nat)
    requires Agree(s, t, n) && DigitRun(s) < n
    ensures DigitRun(t) == DigitRun(s)
  {
    if IsDigit(s[0]) {
      AgreeBehind(s, t, n, 1);
      DigitRunAgree(s[1..], t[1..], n - 1);
    }
  }

  lemma FractionRunAgree(s: string, t: string, n: nat)
    requires Agree(s, t, n) && FractionRun(s) < n
    ensures FractionRun(t) == FractionRun(s)
  {
    hide DigitRun;
    if s[0] == '.' {
      AgreeBehind(s, t, n, 1);
      DigitRunAgree(s[1..], t[1..], n - 1);
    }
  }

  lemma ExponentRunAgree(s: string, t: string, n: nat)
    requires Agree(s, t, n) && ExponentRun(s) < n
    ensures ExponentRun(t) == ExponentRun(s)
  {
    hide DigitRun;
    if s[0] == 'e' || s[0] == 'E' {
      var sign := if s[1] == '+' || s[1] == '-' then 2 else 1;
      AgreeBehind(s, t, n, sign);
      DigitRunAgree(s[sign..], t[sign..], n - sign);
    }
  }

  lemma NumberRunAgree(s: string, t: string, n: nat)
    requires Agree(s, t, n) && NumberRun(s) < n
    ensures NumberRun(t) == NumberRun(s)
  {
    hide DigitRun, FractionRun, ExponentRun;
    var whole := DigitRun(s);
    var fraction := whole + FractionRun(s[whole..]);
    DigitRunAgree(s, t, n);
    AgreeBehind(s, t, n, whole);
    FractionRunAgree(s[whole..], t[whole..], n - whole);
    AgreeBehind(s, t, n, fraction);
    ExponentRunAgree(s[fraction..], t[fraction..], n - fraction);
  }

  lemma {:induction false} LineEndAgree(s: string, t: string, n: nat)
    requires Agree(s, t, n) && LineEnd(s) < n
    ensures LineEnd(t) == LineEnd(s)
  {
    if s[0] != '\n' && s[0] != '\r' {
      AgreeBehind(s, t, n, 1);
      LineEndAgree(s[1..], t[1..], n - 1);
    }
  }

  lemma {:induction false} CStyleEndAgree(s: string, t: string, n: nat)
    requires Agree(s, t, n) && CStyleEnd(s).Some? && CStyleEnd(s).value <= n
    ensures CStyleEnd(t) == CStyleEnd(s)
  {
    if !(s[0] == '*' && s[1] == '/') {
      AgreeBehind(s, t, n, 1);
      CStyleEndAgree(s[1..], t[1..], n - 1);
    }
  }

  lemma {:induction false} ClosingQuoteAgree(s: string, t: string, n: nat)
    requires Agree(s, t, n) && ClosingQuote(s).Some? && ClosingQuote(s).value <= n
    ensures ClosingQuote(t) == ClosingQuote(s)
    decreases |s|
  {
    if s[0] != '\"' {
      var step := if s[0] == '\\' && |s| > 1 then 2 else 1;
      AgreeBehind(s, t, n, step);
      ClosingQuoteAgree(s[step..], t[step..], n - step);
    }
  }

  /** r and r' are what is left of s and t behind the same number of characters. */
  predicate Left(s: string, t: string, r: string, r': string): (b: bool)
    ensures b ==> |r| <= |s| && |s| - |r| == |t| - |r'|
  {
    |r| <= |s| && |s| - |r| <= |t| && r == s[|s| - |r|..] && r' == t[|s| - |r|..]
  }

  lemma LeftAgree(s: string, t: string, n: nat, r: string, r': string)
    requires Agree(s, t, n) && Left(s, t, r, r') && |s| - |r| <= n
    ensures Agree(r, r', n - (|s| - |r|))
  {
  }

  lemma LeftTwice(s: string, t: string, r: string, r': string, q: string, q': string)
    requires Left(s, t, r, r') && Left(r, r', q, q')
    ensures Left(s, t, q, q')
  {
    DropTwice(s, |s| - |r|, |r| - |q|);
    DropTwice(t, |s| - |r|, |r| - |q|);
  }

  /** The characters that go on a word behind its first one. */
  predicate GoesOn(c: char) { c == 'r' || c == 'a' || c == 'u' }

  /** A token of s that ends at k is the same in t, whose first n characters are those of s. */
  predicate Settled(kind: TokenType, text: string, s: string, t: string, k: nat, n: nat) {
    && k <= n && Agree(s, t, n)
    && (kind == CommentToken ==> k < n)
    && (kind == ErrorToken ==> k < n && !GoesOn(s[k]))
    && (kind == NumberToken ==> k < n || (AllDigits(TokenDigits(text)) && EndsNumber(t[k..])))
  }

  lemma CommentSpanAgree(s: string, t: string, n: nat)
    requires Agree(s, t, n) && CommentSpan(s).length <= n
    ensures CommentSpan(t) == CommentSpan(s)
  {
    hide CStyleEnd, LineEnd;
    AgreeBehind(s, t, n, 1);
    if s[0] == '*' {
      CStyleEndAgree(s[1..], t[1..], n - 1);
    } else if s[0] == '/' {
      LineEndAgree(s[1..], t[1..], n - 1);
    }
  }

  lemma WordSpanAgree(kind: TokenType, s: string, t: string, word: string, n: nat)
    requires Agree(s, t, n) && word != "" && GoesOn(word[0]) && kind != ErrorToken
    requires if word <= s then |word| <= n else 1 <= n && !GoesOn(s[0])
    ensures WordSpan(kind, t, word) == WordSpan(kind, s, word)
  {
    if word <= s {
      assert t[..|word|] == s[..|word|];
    }
  }

  lemma NumberSpanAgree(c: char, s: string, t: string, n: nat)
    requires Agree(s, t, n) && (IsDigit(c) || c == '-')
    requires var k := NumberRun(s);
      k < n || (k == n && AllDigits(TokenDigits([c] + s[..k])) && EndsNumber(t[k..]))
    ensures NumberRun(t) == NumberRun(s)
  {
    hide NumberRun, DigitRun;
    var k := NumberRun(s);
    if k < n {
      NumberRunAgree(s, t, n);
    } else {
      var text := [c] + s[..k];
      assert text[1..] == s[..k] == t[..k];
      assert forall i | 0 <= i < k :: IsDigit(t[i]) by {
        assert forall i | 0 <= i < k :: t[i] == text[i + 1];
      }
      RunOfDigits(t, k);
    }
  }

  lemma RunOfDigits(t: string, k: nat)
    requires k <= |t| && (forall i | 0 <= i < k :: IsDigit(t[i])) && EndsNumber(t[k..])
    ensures NumberRun(t) == k
  {
    hide DigitRun;
    assert t == t[..k] + t[k..];
    DigitRunOfDigits(t[..k], t[k..]);
  }

  /** The token behind a first character c. */
  lemma SpanAgree(c: char, s: string, t: string, n: nat)
    requires var p := TokenSpan(c, s);
      p.length <= 1 + |s| && Settled(p.kind, [c] + s[..p.length - 1], s, t, p.length - 1, n)
    ensures TokenSpan(c, t) == TokenSpan(c, s)
  {
    hide CommentSpan, ClosingQuote, NumberRun, WordSpan, StringSpan, Agree, AllDigits, TokenDigits, EndsNumber;
    if c == '\"' {
      StringSpanAgree(s, t, n);
    } else if c == '/' {
      CommentKinds(s);
      CommentSpanAgree(s, t, n);
    } else if c == 't' {
      WordKinds(TrueToken, s, "rue");
      WordSpanAgree(TrueToken, s, t, "rue", n);
    } else if c == 'f' {
      WordKinds(FalseToken, s, "alse");
      WordSpanAgree(FalseToken, s, t, "alse", n);
    } else if c == 'n' {
      WordKinds(NullToken, s, "ull");
      WordSpanAgree(NullToken, s, t, "ull", n);
    } else if IsDigit(c) || c == '-' {
      NumberSpanAgree(c, s, t, n);
    }
  }

  lemma StringSpanAgree(s: string, t: string, n: nat)
    requires Agree(s, t, n) && StringSpan(s).length - 1 <= n
    requires StringSpan(s).kind == ErrorToken ==> StringSpan(s).length - 1 < n
    ensures StringSpan(t) == StringSpan(s)
  {
    hide ClosingQuote;
    ClosingQuoteAgree(s, t, n);
  }

  lemma CommentKinds(s: string)
    ensures CommentSpan(s).kind == CommentToken || CommentSpan(s).kind == ErrorToken
  {
  }

  lemma StringKinds(s: string)
    ensures StringSpan(s).kind == StringToken || StringSpan(s).kind == ErrorToken
  {
  }

  lemma WordKinds(kind: TokenType, s: string, word: string)
    ensures WordSpan(kind, s, word) == if word <= s then Span(kind, 1 + |word|) else Span(ErrorToken, 1)
  {
  }

  /** What is left behind a token is the end of the text, and a shorter one unless nothing is left. */
  lemma RestIsShorter(s: string)
    ensures NextToken(s).rest == s[|s| - |NextToken(s).rest|..]
    ensures NextToken(s).rest != "" ==> |NextToken(s).rest| < |s|
    decreases |s|
  {
    hide TokenSpan;
    if s != "" && IsSpace(s[0]) {
      RestIsShorter(s[1..]);
    }
  }

  predicate SettledToken(p: Token, s: string, t: string, n: nat)
    requires |p.rest| <= |s|
  {
    && (p.kind != EndOfStream || p.rest != "")
    && Settled(p.kind, p.text, s, t, |s| - |p.rest|, n)
  }

  /** The token p of s is the token p' of t. */
  predicate SameToken(p: Token, p': Token, s: string, t: string) {
    p'.kind == p.kind && p'.text == p.text && Left(s, t, p.rest, p'.rest)
  }

  /** The token behind any white space. */
  lemma {:induction false} TokenAgree(s: string, t: string, n: nat)
    requires SettledToken(NextToken(s), s, t, n)
    ensures SameToken(NextToken(s), NextToken(t), s, t)
    decreases |s|
  {
    hide TokenSpan;
    var p := NextToken(s);
    if s != "" && IsSpace(s[0]) {
      AgreeBehind(s, t, n, 1);
      assert NextToken(s[1..]) == p && NextToken(t[1..]) == NextToken(t);
      SettledBehindSpace(p, s, t, n);
      TokenAgree(s[1..], t[1..], n - 1);
      assert Left(s, t, s[1..], t[1..]);
      LeftTwice(s, t, s[1..], t[1..], p.rest, NextToken(t).rest);
    } else {
      TokenAtAgree(s, t, n);
    }
  }

  lemma SettledBehindSpace(p: Token, s: string, t: string, n: nat)
    requires |p.rest| < |s| && SettledToken(p, s, t, n) && (p.kind == EndOfStream ==> |p.rest| < |s|)
    ensures n > 0 && SettledToken(p, s[1..], t[1..], n - 1)
  {
    hide TokenDigits;
    var k := |s| - |p.rest|;
    assert t[1..][k - 1..] == t[k..] && (k < n ==> s[1..][k - 1] == s[k]);
  }

  lemma TokenAtAgree(s: string, t: string, n: nat)
    requires s != "" && !IsSpace(s[0]) && SettledToken(TokenAt(s), s, t, n)
    ensures t != "" && t[0] == s[0] && SameToken(TokenAt(s), TokenAt(t), s, t)
  {
    hide TokenSpan, TokenDigits;
    var k := TokenSpan(s[0], s[1..]).length;
    assert s[..k] == [s[0]] + s[1..][..k - 1] && s[..k] == t[..k] && t[1..][k - 1..] == t[k..];
    AgreeBehind(s, t, n, 1);
    SpanAgree(s[0], s[1..], t[1..], n - 1);
  }

  lemma {:induction false} RestIsShorterBehindComments(s: string)
    ensures NextNoComment(s).rest == s[|s| - |NextNoComment(s).rest|..]
    ensures NextNoComment(s).rest != "" ==> |NextNoComment(s).rest| < |s|
    decreases |s|
  {
    hide NextToken;
    RestIsShorter(s);
    var token := NextToken(s);
    if token.kind == CommentToken {
      RestIsShorterBehindComments(token.rest);
      DropTwice(s, |s| - |token.rest|, |token.rest| - |NextNoComment(s).rest|);
    }
  }

  lemma CommentFirst(s: string)
    requires NextToken(s).kind == CommentToken
    ensures NextNoComment(s) == NextNoComment(NextToken(s).rest)
    ensures |NextNoComment(s).rest| <= |NextToken(s).rest|
    ensures NextNoComment(s).kind != EndOfStream || NextNoComment(s).rest != "" ==>
      |NextNoComment(s).rest| < |NextToken(s).rest|
  {
    hide NextToken;
    RestIsShorterBehindComments(NextToken(s).rest);
  }

  /** The token behind any white space and comments. */
  lemma {:induction false} NoCommentAgree(s: string, t: string, n: nat)
    requires SettledToken(NextNoComment(s), s, t, n)
    ensures SameToken(NextNoComment(s), NextNoComment(t), s, t)
    decreases |s|
  {
    hide *;
    var token, p := NextToken(s), NextNoComment(s);
    SettledAgree(p, s, t, n);
    if token.kind == CommentToken {
      CommentFirst(s);
      CommentSettled(token, p, s, t, n);
      TokenAgree(s, t, n);
      SameMeans(token, NextToken(t), s, t);
      var r, r' := token.rest, NextToken(t).rest;
      CommentFirst(t);
      LeftAgree(s, t, n, r, r');
      SettledBehind(p, s, t, r, r', n);
      NoCommentAgree(r, r', n - (|s| - |r|));
      SameMeans(p, NextNoComment(t), r, r');
      LeftTwice(s, t, r, r', p.rest, NextNoComment(t).rest);
      SameMeans(p, NextNoComment(t), s, t);
    } else {
      NoComment(s);
      TokenAgree(s, t, n);
      SameMeans(token, NextToken(t), s, t);
      NoComment(t);
    }
  }

  lemma SettledAgree(p: Token, s: string, t: string, n: nat)
    requires |p.rest| <= |s| && SettledToken(p, s, t, n)
    ensures Agree(s, t, n) && |s| - |p.rest| <= n && (p.kind != EndOfStream || p.rest != "")
  {
  }

  lemma SameMeans(p: Token, p': Token, s: string, t: string)
    ensures SameToken(p, p', s, t) <==> p'.kind == p.kind && p'.text == p.text && Left(s, t, p.rest, p'.rest)
  {
  }

  /** A comment in front of a token is settled by it. */
  lemma CommentSettled(comment: Token, p: Token, s: string, t: string, n: nat)
    requires comment.kind == CommentToken && |p.rest| < |comment.rest| <= |s|
    requires SettledToken(p, s, t, n)
    ensures SettledToken(comment, s, t, n)
  {
  }

  lemma SettledBehind(p: Token, s: string, t: string, r: string, r': string, n: nat)
    requires Left(s, t, r, r') && |p.rest| <= |r| && SettledToken(p, s, t, n)
    ensures |s| - |r| <= n && SettledToken(p, r, r', n - (|s| - |r|))
  {
    hide TokenDigits, EndsNumber;
    var j, k := |s| - |r|, |s| - |p.rest|;
    LeftAgree(s, t, n, r, r');
    DropTwice(t, j, k - j);
    assert k < n ==> r[k - j] == s[k];
  }

  /** Tokens that are settled by their own characters. */
  lemma PlainSettled(p: Token, s: string, t: string, n: nat)
    requires Agree(s, t, n) && |p.rest| <= |s| && |s| - |p.rest| <= n
    requires p.kind !in {EndOfStream, NumberToken, CommentToken, ErrorToken}
    ensures SettledToken(p, s, t, n)
  {
  }

  // Values

  /** Reading v from s ends in front of r, and in front of r' in t, where a number ends, too. */
  predicate EndsThere(v: Value, k: nat, n: nat, r': string) {
    k <= n && (v.Int? || v.UInt? ==> k < n || EndsNumber(r'))
  }

  /** The text behind the value of s, seen in t. */
  function RestIn(t: string, k: nat): string {
    if k <= |t| then t[k..] else ""
  }

  /** The same value is read from t as from s. */
  predicate SameParse(p: Parse<Value>, p': Parse<Value>, s: string, t: string)
    requires p.Done?
  {
    p'.Done? && p'.value == p.value && Left(s, t, p.rest, p'.rest)
  }

  lemma {:induction false} ValueAgree(s: string, t: string, n: nat, depth: nat)
    requires Agree(s, t, n) && ReadValue(s, depth).Done?
    requires var p := ReadValue(s, depth); EndsThere(p.value, |s| - |p.rest|, n, RestIn(t, |s| - |p.rest|))
    ensures SameParse(ReadValue(s, depth), ReadValue(t, depth), s, t)
    decreases |s|, 0
  {
    hide NextNoComment, ReadValue, ReadMembers, ReadArrayRest, TokenValue;
    hide Agree, Left, SettledToken, EndsThere, RestIn;
    var token, token' := NextNoComment(s), NextNoComment(t);
    ValueParts(s, depth);
    ValueToken(s, t, n, depth);
    NoCommentAgree(s, t, n);
    ValueParts(t, depth);
    var r, r' := token.rest, token'.rest;
    LeftAgree(s, t, n, r, r');
    if token.kind == ObjectBegin {
      MembersAgree(r, r', n - (|s| - |r|), depth + 1, [], "");
      LeftTwice(s, t, r, r', ReadValue(s, depth).rest, ReadValue(t, depth).rest);
    } else if token.kind == ArrayBegin {
      ArrayAgree(r, r', n - (|s| - |r|), depth + 1);
      LeftTwice(s, t, r, r', ReadValue(s, depth).rest, ReadValue(t, depth).rest);
    }
  }

  /** The text in quotes. */
  function TextOf(token: string): Option<string> {
    if |token| < 2 then None else Unescape(token[1..|token| - 1])
  }

  /** A value that is a single token. */
  function TokenValue(kind: TokenType, text: string): Option<Value> {
    match kind
    case NumberToken => IntegerOfToken(text)
    case StringToken =>
      (match TextOf(text)
       case None => None
       case Some(s) => Some(Str(s)))
    case TrueToken => Some(Bool(true))
    case FalseToken => Some(Bool(false))
    case NullToken => Some(Null)
    case _ => None
  }

  lemma ValueParts(s: string, depth: nat)
    ensures var (token, p) := (NextNoComment(s), ReadValue(s, depth));
      if depth >= STACK_LIMIT then !p.Done?
      else if token.kind == ObjectBegin then p == ReadMembers(token.rest, depth + 1, [], "")
      else if token.kind == ArrayBegin then p == ReadArrayRest(token.rest, depth + 1)
      else if TokenValue(token.kind, token.text).Some? then
        p == Done(TokenValue(token.kind, token.text).value, token.rest)
      else !p.Done?
  {
    hide NextNoComment, ReadMembers, ReadArrayRest, IntegerOfToken, Unescape;
  }

  lemma ValueToken(s: string, t: string, n: nat, depth: nat)
    requires Agree(s, t, n) && ReadValue(s, depth).Done?
    requires var p := ReadValue(s, depth); EndsThere(p.value, |s| - |p.rest|, n, RestIn(t, |s| - |p.rest|))
    ensures SettledToken(NextNoComment(s), s, t, n)
    ensures |s| - n <= |ReadValue(s, depth).rest| <= |NextNoComment(s).rest|
  {
    hide NextNoComment, ReadMembers, ReadArrayRest, IntegerOfToken, Unescape, EndsNumber, Agree;
    IntegerIsDigits(NextNoComment(s).text);
  }

  lemma IntegerIsDigits(text: string)
    ensures IntegerOfToken(text).Some? ==> AllDigits(TokenDigits(text))
    ensures IntegerOfToken(text).Some? ==> IntegerOfToken(text).value.Int? || IntegerOfToken(text).value.UInt?
  {
  }

  /** A value is read from where the white space in front of it ends. */
  lemma ValueStarts(s: string, depth: nat)
    requires ReadValue(s, depth).Done?
    ensures SkipSpaces(s) != "" && |ReadValue(s, depth).rest| < |SkipSpaces(s)|
  {
    hide ReadValue, TokenAt;
    SkipSpacesTwice(s);
    ReadValueSeesToken(SkipSpaces(s), s, depth);
  }

  lemma {:induction false} SpacesAgree(s: string, t: string, n: nat)
    requires Agree(s, t, n) && SkipSpaces(s) != "" && |s| - |SkipSpaces(s)| < n
    ensures SkipSpaces(t) != "" && SkipSpaces(t)[0] == SkipSpaces(s)[0]
    ensures Left(s, t, SkipSpaces(s)[1..], SkipSpaces(t)[1..])
    decreases |s|
  {
    if IsSpace(s[0]) {
      AgreeBehind(s, t, n, 1);
      SpacesAgree(s[1..], t[1..], n - 1);
      LeftTwice(s, t, s[1..], t[1..], SkipSpaces(s)[1..], SkipSpaces(t)[1..]);
    }
  }

  lemma {:induction false} ArrayAgree(s: string, t: string, n: nat, depth: nat)
    requires Agree(s, t, n) && ReadArrayRest(s, depth).Done? && |s| - |ReadArrayRest(s, depth).rest| <= n
    ensures SameParse(ReadArrayRest(s, depth), ReadArrayRest(t, depth), s, t)
    decreases |s|, 2
  {
    hide SkipSpaces, ReadItems, Agree, Left;
    if SkipSpaces(s) != "" && SkipSpaces(s)[0] == ']' {
      SpacesAgree(s, t, n);
    } else {
      ItemsStart(s, depth);
      SpacesAgree(s, t, n);
      ItemsAgree(s, t, n, depth, []);
    }
  }

  lemma ItemsStart(s: string, depth: nat)
    requires ReadItems(s, depth, []).Done?
    ensures SkipSpaces(s) != "" && |ReadItems(s, depth, []).rest| < |SkipSpaces(s)|
  {
    hide SkipSpaces, ReadValue;
    ValueStarts(s, depth);
  }

  /** What follows a value is behind its end. */
  lemma EndsBefore(v: Value, k: nat, n: nat, r': string)
    requires k < n
    ensures EndsThere(v, k, n, r')
  {
  }

  lemma {:induction false} ItemsAgree(s: string, t: string, n: nat, depth: nat, items: seq<Value>)
    requires Agree(s, t, n) && ReadItems(s, depth, items).Done? && |s| - |ReadItems(s, depth, items).rest| <= n
    ensures SameParse(ReadItems(s, depth, items), ReadItems(t, depth, items), s, t)
    decreases |s|, 1
  {
    hide ReadValue, NextNoComment, Agree, Left, SettledToken, EndsThere, RestIn;
    var one, one' := ReadValue(s, depth), ReadValue(t, depth);
    var m := n - (|s| - |one.rest|);
    EndsBefore(one.value, |s| - |one.rest|, n, RestIn(t, |s| - |one.rest|));
    ValueAgree(s, t, n, depth);
    LeftAgree(s, t, n, one.rest, one'.rest);
    var token, token' := NextNoComment(one.rest), NextNoComment(one'.rest);
    PlainSettled(token, one.rest, one'.rest, m);
    NoCommentAgree(one.rest, one'.rest, m);
    LeftTwice(s, t, one.rest, one'.rest, token.rest, token'.rest);
    if token.kind == ArraySeparator {
      LeftAgree(s, t, n, token.rest, token'.rest);
      ItemsAgree(token.rest, token'.rest, n - (|s| - |token.rest|), depth, items + [one.value]);
      LeftTwice(s, t, token.rest, token'.rest, ReadItems(s, depth, items).rest, ReadItems(t, depth, items).rest);
    }
  }

  /** Behind what is taken for a comma, a round starts with a character that goes on no word. */
  lemma RoundStarts(s: string, depth: nat, members: seq<Member>, name: string)
    requires !ReadRound(s, depth, members, name).Broken?
    ensures s != "" && !GoesOn(s[0])
  {
    hide ReadValue, Unescape, EndRound, StringSpan, CommentSpan;
  }

  lemma {:induction false} MembersAgree(s: string, t: string, n: nat, depth: nat, members: seq<Member>, name: string)
    requires Agree(s, t, n) && ReadMembers(s, depth, members, name).Done?
    requires |s| - |ReadMembers(s, depth, members, name).rest| <= n
    ensures SameParse(ReadMembers(s, depth, members, name), ReadMembers(t, depth, members, name), s, t)
    decreases |s|, 2
  {
    hide ReadRound, Agree, Left;
    var round, round' := ReadRound(s, depth, members, name), ReadRound(t, depth, members, name);
    if round.Next? {
      RoundStarts(round.rest, depth, round.members, round.name);
      RoundAgree(s, t, n, depth, members, name);
      LeftAgree(s, t, n, round.rest, round'.rest);
      MembersAgree(round.rest, round'.rest, n - (|s| - |round.rest|), depth, round.members, round.name);
      LeftTwice(s, t, round.rest, round'.rest,
        ReadMembers(s, depth, members, name).rest, ReadMembers(t, depth, members, name).rest);
    } else {
      RoundAgree(s, t, n, depth, members, name);
    }
  }

  /** A round that is not broken ends in front of the text that starts the next one, if there is one. */
  predicate RoundEnds(r: Round, s: string, n: nat)
    requires !r.Broken? && |r.rest| <= |s|
  {
    |s| - |r.rest| <= n && (r.Next? ==> |s| - |r.rest| < n && r.rest != "" && !GoesOn(r.rest[0]))
  }

  predicate SameRound(r: Round, r': Round, s: string, t: string)
    requires !r.Broken?
  {
    !r'.Broken? && r' == r.(rest := r'.rest) && Left(s, t, r.rest, r'.rest)
  }

  lemma {:induction false} RoundAgree(s: string, t: string, n: nat, depth: nat, members: seq<Member>, name: string)
    requires Agree(s, t, n)
    requires var r := ReadRound(s, depth, members, name); !r.Broken? && RoundEnds(r, s, n)
    ensures SameRound(ReadRound(s, depth, members, name), ReadRound(t, depth, members, name), s, t)
    decreases |s|, 1
  {
    hide ReadRound, NextNoComment, BehindName, TextOf, Agree, Left, SettledToken, RoundEnds;
    var first, first' := NextNoComment(s), NextNoComment(t);
    RoundParts(s, depth, members, name);
    NameEnds(s, t, n, depth, members, name);
    NoCommentAgree(s, t, n);
    RoundParts(t, depth, members, name);
    if !(first.kind == ObjectEnd && name == "") {
      LeftAgree(s, t, n, first.rest, first'.rest);
      BehindNameAgree(first.rest, first'.rest, n - (|s| - |first.rest|), depth, members, TextOf(first.text).value);
      LeftTwice(s, t, first.rest, first'.rest,
        ReadRound(s, depth, members, name).rest, ReadRound(t, depth, members, name).rest);
    }
  }

  /** The part of a round behind the name of the member. */
  function BehindName(s: string, depth: nat, members: seq<Member>, key: string): (r: Round)
    ensures !r.Broken? ==> |r.rest| < |s|
  {
    var colon := NextToken(s);
    if colon.kind != MemberSeparator then Broken(Syntax)
    else
      match ReadValue(colon.rest, depth)
      case Failed(e) => Broken(e)
      case Done(v, rest) => EndRound(SetMember(members, key, v), key, rest)
  }

  lemma RoundParts(s: string, depth: nat, members: seq<Member>, name: string)
    ensures var first := NextNoComment(s);
      ReadRound(s, depth, members, name) ==
      if first.kind == ObjectEnd && name == "" then Last(members, first.rest)
      else if first.kind != StringToken || TextOf(first.text).None? then Broken(Syntax)
      else BehindName(first.rest, depth, members, TextOf(first.text).value)
  {
    hide NextNoComment, NextToken, ReadValue, Unescape, EndRound, SetMember;
  }

  lemma NameEnds(s: string, t: string, n: nat, depth: nat, members: seq<Member>, name: string)
    requires Agree(s, t, n)
    requires var r := ReadRound(s, depth, members, name); !r.Broken? && RoundEnds(r, s, n)
    ensures SettledToken(NextNoComment(s), s, t, n)
    ensures var (r, first) := (ReadRound(s, depth, members, name), NextNoComment(s));
      |s| - n <= |r.rest| <= |first.rest| && RoundEnds(r, first.rest, n - (|s| - |first.rest|))
  {
    hide NextNoComment, BehindName, Unescape;
    RoundParts(s, depth, members, name);
    hide ReadRound;
  }

  lemma {:induction false} BehindNameAgree(s: string, t: string, n: nat, depth: nat, members: seq<Member>, key: string)
    requires Agree(s, t, n)
    requires var r := BehindName(s, depth, members, key); !r.Broken? && RoundEnds(r, s, n)
    ensures SameRound(BehindName(s, depth, members, key), BehindName(t, depth, members, key), s, t)
    decreases |s|, 1
  {
    hide NextToken, ReadValue, EndRound, SetMember, Agree, Left, SettledToken, EndsThere, RestIn, GoesOn;
    var r, colon, colon' := BehindName(s, depth, members, key), NextToken(s), NextToken(t);
    var one, one' := ReadValue(colon.rest, depth), ReadValue(colon'.rest, depth);
    EndConsumes(SetMember(members, key, one.value), key, one.rest);
    PlainSettled(colon, s, t, n);
    TokenAgree(s, t, n);
    LeftAgree(s, t, n, colon.rest, colon'.rest);
    var k, m := |colon.rest| - |one.rest|, n - (|s| - |colon.rest|);
    EndsBefore(one.value, k, m, RestIn(colon'.rest, k));
    ValueAgree(colon.rest, colon'.rest, m, depth);
    LeftAgree(colon.rest, colon'.rest, m, one.rest, one'.rest);
    EndAgree(one.rest, one'.rest, m - k, SetMember(members, key, one.value), key);
    LeftTwice(s, t, colon.rest, colon'.rest, one.rest, one'.rest);
    LeftTwice(s, t, one.rest, one'.rest, r.rest, BehindName(t, depth, members, key).rest);
  }

  lemma EndConsumes(members: seq<Member>, name: string, s: string)
    ensures var r := EndRound(members, name, s); r.Last? ==> |r.rest| < |s|
  {
  }

  lemma EndAgree(s: string, t: string, n: nat, members: seq<Member>, name: string)
    requires Agree(s, t, n)
    requires var r := EndRound(members, name, s); !r.Broken? && RoundEnds(r, s, n)
    ensures SameRound(EndRound(members, name, s), EndRound(members, name, t), s, t)
  {
    hide NextNoComment, NextToken, Agree, Left, SettledToken;
    CommaEnds(s, t, n, members, name);
    TokenAgree(s, t, n);
    NoCommentAgree(s, t, n);
  }

  /** The token that ends a round, and a comment in front of it. */
  lemma CommaEnds(s: string, t: string, n: nat, members: seq<Member>, name: string)
    requires Agree(s, t, n)
    requires var r := EndRound(members, name, s); !r.Broken? && RoundEnds(r, s, n)
    ensures SettledToken(NextToken(s), s, t, n) && SettledToken(NextNoComment(s), s, t, n)
  {
    hide NextNoComment, NextToken, EndsNumber, TokenDigits, Agree;
    RestIsShorterBehindComments(s);
    if NextToken(s).kind == CommentToken {
      CommentFirst(s);
    } else {
      NoComment(s);
    }
  }

  // Documents

  /** Behind an integer nothing is left that would go on it. */
  lemma IntegerEnds(s: string, depth: nat)
    requires ReadValue(s, depth).Done? && (ReadValue(s, depth).value.Int? || ReadValue(s, depth).value.UInt?)
    ensures EndsNumber(ReadValue(s, depth).rest)
  {
    hide NextNoComment, ReadMembers, ReadArrayRest, IntegerOfToken, Unescape, EndsNumber, AllDigits, TokenDigits;
    var token := NextNoComment(s);
    IntegerIsDigits(token.text);
    LongestToken(s);
    ContainersAreNoNumbers(token.rest, depth + 1);
  }

  lemma ContainersAreNoNumbers(s: string, depth: nat)
    ensures ReadMembers(s, depth, [], "").Done? ==> ReadMembers(s, depth, [], "").value.Obj?
    ensures ReadArrayRest(s, depth).Done? ==> ReadArrayRest(s, depth).value.Arr?
  {
    hide ReadItems, ReadMembers, SkipSpaces;
    MembersGiveObject(s, depth, [], "");
    ItemsGiveArray(s, depth, []);
  }

  lemma {:induction false} MembersGiveObject(s: string, depth: nat, members: seq<Member>, name: string)
    ensures ReadMembers(s, depth, members, name).Done? ==> ReadMembers(s, depth, members, name).value.Obj?
    decreases |s|
  {
    hide ReadRound;
    var round := ReadRound(s, depth, members, name);
    if round.Next? {
      MembersGiveObject(round.rest, depth, round.members, round.name);
    }
  }

  lemma {:induction false} ItemsGiveArray(s: string, depth: nat, items: seq<Value>)
    ensures ReadItems(s, depth, items).Done? ==> ReadItems(s, depth, items).value.Arr?
    decreases |s|
  {
    hide ReadValue, NextNoComment;
    var one := ReadValue(s, depth);
    if one.Done? && NextNoComment(one.rest).kind == ArraySeparator {
      ItemsGiveArray(NextNoComment(one.rest).rest, depth, items + [one.value]);
    }
  }

  /** A number token of digits is the longest one. */
  lemma {:induction false} LongestToken(s: string)
    ensures var p := NextNoComment(s); p.kind == NumberToken && AllDigits(TokenDigits(p.text)) ==> EndsNumber(p.rest)
    decreases |s|
  {
    hide NextToken, AllDigits, TokenDigits, EndsNumber;
    LongestNumber(s);
    if NextToken(s).kind == CommentToken {
      LongestToken(NextToken(s).rest);
    }
  }

  lemma {:induction false} LongestNumber(s: string)
    ensures var p := NextToken(s); p.kind == NumberToken && AllDigits(TokenDigits(p.text)) ==> EndsNumber(p.rest)
    decreases |s|
  {
    hide NumberRun, StringSpan, CommentSpan, WordSpan, EndsNumber, AllDigits, TokenDigits;
    if s != "" && IsSpace(s[0]) {
      LongestNumber(s[1..]);
    } else if s != "" {
      WordKinds(TrueToken, s[1..], "rue");
      WordKinds(FalseToken, s[1..], "alse");
      WordKinds(NullToken, s[1..], "ull");
      CommentKinds(s[1..]);
      StringKinds(s[1..]);
      if TokenAt(s).kind == NumberToken && AllDigits(TokenDigits(TokenAt(s).text)) {
        var k := NumberRun(s[1..]);
        assert s[..1 + k] == [s[0]] + s[1..][..k] && s[1..][k..] == s[1 + k..];
        LongestRun(s[0], s[1..]);
      }
    }
  }

  lemma LongestRun(c: char, s: string)
    requires IsDigit(c) || c == '-'
    requires AllDigits(TokenDigits([c] + s[..NumberRun(s)]))
    ensures EndsNumber(s[NumberRun(s)..])
  {
    var k := NumberRun(s);
    var text := [c] + s[..k];
    assert text[1..] == s[..k];
    assert AllDigits(s[..k]) by {
      assert forall i | 0 <= i < k :: s[..k][i] == text[i + 1];
    }
    DigitRunCovers(s, k);
    DigitRunIsDigits(s);
    assert s[k..] == s[DigitRun(s)..];
  }

  /** The part of a document that is read. */
  function TextRead(document: string): string
    requires ReadDocument(document).Done?
  {
    var text := CString(document);
    text[..|text| - |ReadDocument(document).rest|]
  }

  lemma {:induction false} CStringHasNoNul(s: string)
    ensures '\0' !in CString(s)
  {
    if s != "" && s[0] != '\0' {
      CStringHasNoNul(s[1..]);
    }
  }

  /** Of an accepted document, only the text up to the end of its value counts: with any other text behind it the same
      value is read, and that text is left, exactly when it does not go on an integer. */
  lemma OnlyTheValueCounts(document: string, rest: string)
    requires ReadDocument(document).Done? && '\0' !in rest
    ensures var p := ReadDocument(document);
      ReadDocument(TextRead(document) + rest) == Done(p.value, rest) <==> Separated(p.value, rest)
  {
    hide ReadValue, EndsNumber;
    var s, p := CString(document), ReadDocument(document);
    var text := TextRead(document);
    var t, k := text + rest, |text|;
    CStringHasNoNul(document);
    assert '\0' !in text by { assert forall c | c in text :: c in s; }
    CStringIsWhole(t);
    assert t[k..] == rest && Agree(s, t, k);
    if Separated(p.value, rest) {
      ValueAgree(s, t, k, 0);
    } else if ReadValue(t, 0) == Done(p.value, rest) {
      IntegerEnds(t, 0);
    }
  }
}
