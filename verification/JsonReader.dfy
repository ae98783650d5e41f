/** The Reader: a tokenizer and a recursive descent over the tokens. The functions describe the
    outcome on the text that is left; the class moves current and its node stack. */
module JsonReader {
  import opened Wrappers
  import opened Digits
  import opened JsonValue
  import opened JsonNumbers
  import opened JsonStrings

  const STACK_LIMIT := 1000

  datatype TokenType =
    | EndOfStream
    | ObjectBegin
    | ObjectEnd
    | ArrayBegin
    | ArrayEnd
    | StringToken
    | NumberToken
    | TrueToken
    | FalseToken
    | NullToken
    | ArraySeparator
    | MemberSeparator
    | CommentToken
    | ErrorToken

  /** A token, its characters, and the text after it. */
  datatype Token = Token(kind: TokenType, text: string, rest: string)

  /** Why a document is not read. Unmodelled: the run reaches a double. */
  datatype Error = Syntax | StackLimit | Unmodelled

  datatype Parse<T> = Done(value: T, rest: string) | Failed(error: Error)

  predicate IsSpace(c: char) { c == ' ' || c == '\t' || c == '\r' || c == '\n' }

  predicate AllSpaces(s: string) { forall k | 0 <= k < |s| :: IsSpace(s[k]) }

  function SkipSpaces(s: string): (r: string)
    ensures |r| <= |s|
  {
    if s != [] && IsSpace(s[0]) then SkipSpaces(s[1..]) else s
  }

  lemma {:induction false} SkipSpacesTwice(s: string)
    ensures SkipSpaces(SkipSpaces(s)) == SkipSpaces(s)
  {
    if s != [] && IsSpace(s[0]) {
      SkipSpacesTwice(s[1..]);
    }
  }

  function FractionRun(s: string): (n: nat)
    ensures n <= |s|
  {
    if s != [] && s[0] == '.' then 1 + DigitRun(s[1..]) else 0
  }

  function ExponentRun(s: string): (n: nat)
    ensures n <= |s|
  {
    if s != [] && (s[0] == 'e' || s[0] == 'E') then
      var sign := if |s| > 1 && (s[1] == '+' || s[1] == '-') then 2 else 1;
      sign + DigitRun(s[sign..])
    else 0
  }

  /** readNumber after the first character: digits, fraction, exponent. */
  function NumberRun(s: string): (n: nat)
    ensures n <= |s|
  {
    var whole := DigitRun(s);
    var fraction := whole + FractionRun(s[whole..]);
    fraction + ExponentRun(s[fraction..])
  }

  lemma DropTwice(s: string, i: nat, j: nat)
    requires i + j <= |s|
    ensures s[i..][j..] == s[i + j..]
    ensures s[i..][..j] == s[i..i + j]
  {
  }

  /** Kind and number of characters of the token at the start of a text. */
  datatype Span = Span(kind: TokenType, length: nat)

  function WordSpan(kind: TokenType, s: string, word: string): Span {
    if word <= s then Span(kind, 1 + |word|) else Span(ErrorToken, 1)
  }

  function StringSpan(s: string): (t: Span)
    ensures t.length <= 1 + |s| && (t.kind == StringToken ==> t.length >= 2)
  {
    match ClosingQuote(s)
    case Some(n) => Span(StringToken, 1 + n)
    case None => Span(ErrorToken, 1 + |s|)
  }

  /** The number of characters up to the end of a C-style comment, behind its opening. */
  function CStyleEnd(s: string): (n: Option<nat>)
    ensures n.Some? ==> 2 <= n.value <= |s|
  {
    if |s| < 2 then None
    else if s[0] == '*' && s[1] == '/' then Some(2)
    else match CStyleEnd(s[1..])
      case Some(n) => Some(n + 1)
      case None => None
  }

  /** The number of characters up to the end of the line. */
  function LineEnd(s: string): (n: nat)
    ensures n <= |s|
  {
    if s == "" then 0
    else if s[0] == '\n' then 1
    else if s[0] == '\r' then (if |s| > 1 && s[1] == '\n' then 2 else 1)
    else 1 + LineEnd(s[1..])
  }

  /** readComment: s is the text after the slash. */
  function CommentSpan(s: string): (t: Span)
    ensures 1 <= t.length <= 1 + |s| && t.kind != StringToken
  {
    if s == "" then Span(ErrorToken, 1)
    else if s[0] == '*' then
      match CStyleEnd(s[1..])
      case Some(n) => Span(CommentToken, 2 + n)
      case None => Span(ErrorToken, 1 + |s|)
    else if s[0] == '/' then Span(CommentToken, 2 + LineEnd(s[1..]))
    else Span(ErrorToken, 2)
  }

  /** The switch of readToken: the first character c and the text after it. */
  function TokenSpan(c: char, s: string): (t: Span)
    ensures 1 <= t.length <= 1 + |s| && (t.kind == StringToken ==> t.length >= 2)
  {
    if c == '{' then Span(ObjectBegin, 1)
    else if c == '}' then Span(ObjectEnd, 1)
    else if c == '[' then Span(ArrayBegin, 1)
    else if c == ']' then Span(ArrayEnd, 1)
    else if c == '\"' then StringSpan(s)
    else if c == '/' then CommentSpan(s)
    else if c == 't' then WordSpan(TrueToken, s, "rue")
    else if c == 'f' then WordSpan(FalseToken, s, "alse")
    else if c == 'n' then WordSpan(NullToken, s, "ull")
    else if c == ',' then Span(ArraySeparator, 1)
    else if c == ':' then Span(MemberSeparator, 1)
    else if c == '\0' then Span(EndOfStream, 1)
    else if IsDigit(c) || c == '-' then Span(NumberToken, 1 + NumberRun(s))
    else Span(ErrorToken, 1)
  }

  /** readToken on text without leading white space. */
  function TokenAt(s: string): (t: Token)
    ensures |t.rest| <= |s|
    ensures t.kind != EndOfStream ==> |t.rest| < |s|
    ensures t.kind == StringToken ==> |t.text| >= 2
  {
    if s == [] then Token(EndOfStream, "", "")
    else
      var span := TokenSpan(s[0], s[1..]);
      Token(span.kind, s[..span.length], s[span.length..])
  }

  lemma EndIsEndOfStream()
    ensures TokenAt("") == Token(EndOfStream, "", "")
  {
  }

  /** A span found at a position of a document is the token there. */
  lemma TokenOfSpan(document: string, start: nat, kind: TokenType, length: nat)
    requires start < |document|
    requires TokenSpan(document[start], document[start + 1..]) == Span(kind, length)
    ensures start + length <= |document|
    ensures TokenAt(document[start..]) ==
            Token(kind, document[start..start + length], document[start + length..])
  {
    hide TokenSpan;
    DropTwice(document, start, 1);
    DropTwice(document, start, length);
  }

  function NextToken(s: string): (t: Token)
    ensures |t.rest| <= |s|
    ensures t.kind != EndOfStream ==> |t.rest| < |s|
    ensures t.kind == StringToken ==> |t.text| >= 2
  {
    TokenAt(SkipSpaces(s))
  }

  /** skipCommentTokens. */
  function NextNoComment(s: string): (t: Token)
    ensures t.kind != CommentToken && |t.rest| <= |s|
    ensures t.kind != EndOfStream ==> |t.rest| < |s|
    ensures t.kind == StringToken ==> |t.text| >= 2
    decreases |s|
  {
    var token := NextToken(s);
    if token.kind == CommentToken then NextNoComment(token.rest) else token
  }

  lemma NoComment(s: string)
    requires NextToken(s).kind != CommentToken
    ensures NextNoComment(s) == NextToken(s)
  {
  }

  /** readValue with stackDepth_g at depth. */
  function ReadValue(s: string, depth: nat): (p: Parse<Value>)
    ensures p.Done? ==> |p.rest| < |s|
    decreases |s|, 0
  {
    if depth >= STACK_LIMIT then Failed(StackLimit)
    else
      var token := NextNoComment(s);
      match token.kind
      case ObjectBegin => ReadMembers(token.rest, depth + 1, [], "")
      case ArrayBegin => ReadArrayRest(token.rest, depth + 1)
      case NumberToken =>
        (match IntegerOfToken(token.text)
         case Some(v) => Done(v, token.rest)
         case None => Failed(Unmodelled))
      case StringToken =>
        (match Unescape(token.text[1..|token.text| - 1])
         case Some(s) => Done(Str(s), token.rest)
         case None => Failed(Syntax))
      case TrueToken => Done(Bool(true), token.rest)
      case FalseToken => Done(Bool(false), token.rest)
      case NullToken => Done(Null, token.rest)
      case _ => Failed(Syntax)
  }

  /** readArray: the text after the opening bracket. An empty array has no comment in it. */
  function ReadArrayRest(s: string, depth: nat): (p: Parse<Value>)
    ensures p.Done? ==> |p.rest| < |s|
    decreases |s|, 2
  {
    var inside := SkipSpaces(s);
    if inside != [] && inside[0] == ']' then Done(Arr([]), inside[1..])
    else ReadItems(s, depth, [])
  }

  /** The loop of readArray, after the items already read. */
  function ReadItems(s: string, depth: nat, items: seq<Value>): (p: Parse<Value>)
    ensures p.Done? ==> |p.rest| < |s|
    decreases |s|, 1
  {
    match ReadValue(s, depth)
    case Failed(e) => Failed(e)
    case Done(v, rest) =>
      var token := NextNoComment(rest);
      match token.kind
      case ArraySeparator => ReadItems(token.rest, depth, items + [v])
      case ArrayEnd => Done(Arr(items + [v]), token.rest)
      case _ => Failed(Syntax)
  }

  lemma ReadItemsSkipsSpaces(s: string, depth: nat)
    ensures ReadItems(SkipSpaces(s), depth, []) == ReadItems(s, depth, [])
  {
    hide ReadValue, TokenAt;
    SkipSpacesTwice(s);
    ReadValueSeesToken(SkipSpaces(s), s, depth);
  }

  lemma ReadValueSeesToken(s: string, t: string, depth: nat)
    requires NextToken(s) == NextToken(t)
    ensures ReadValue(s, depth) == ReadValue(t, depth)
  {
    hide NextToken, ReadMembers, ReadArrayRest, IntegerOfToken, Unescape;
    assert NextNoComment(s) == NextNoComment(t);
  }

  lemma ClosingBracketToken(document: string, start: nat)
    requires start < |document| && document[start] == ']'
    ensures NextToken(document[start..]) == Token(ArrayEnd, "]", document[start + 1..])
  {
    TokenOfSpan(document, start, ArrayEnd, 1);
  }

  /** What one round of the loop of readObject gives: the members so far, and the text after the separator or after
      the end of the object. */
  datatype Round =
    | Next(members: seq<Member>, name: string, rest: string)
    | Last(members: seq<Member>, rest: string)
    | Broken(error: Error)

  /** The loop of readObject. The name is that of the previous member: a closing brace is accepted
      in place of a member when it is empty, as it is before the first one. */
  function ReadMembers(s: string, depth: nat, members: seq<Member>, name: string): (p: Parse<Value>)
    ensures p.Done? ==> |p.rest| < |s|
    decreases |s|, 2
  {
    match ReadRound(s, depth, members, name)
    case Next(longer, last, rest) => ReadMembers(rest, depth, longer, last)
    case Last(all, rest) => Done(Obj(all), rest)
    case Broken(e) => Failed(e)
  }

  function ReadRound(s: string, depth: nat, members: seq<Member>, name: string): (r: Round)
    ensures !r.Broken? ==> |r.rest| < |s|
    decreases |s|, 1
  {
    var first := NextNoComment(s);
    if first.kind == ObjectEnd && name == "" then Last(members, first.rest)
    else if first.kind != StringToken then Broken(Syntax)
    else match Unescape(first.text[1..|first.text| - 1])
      case None => Broken(Syntax)
      case Some(key) =>
        var colon := NextToken(first.rest);
        if colon.kind != MemberSeparator then Broken(Syntax)
        else match ReadValue(colon.rest, depth)
          case Failed(e) => Broken(e)
          case Done(v, rest) => EndRound(SetMember(members, key, v), key, rest)
  }

  /** The end of a round: the token behind the value is a comma or a closing brace. But behind a comment any token is
      taken for the comma. */
  function EndRound(members: seq<Member>, name: string, s: string): (r: Round)
    ensures !r.Broken? ==> |r.rest| <= |s|
  {
    var comma := NextToken(s);
    if comma.kind != ObjectEnd && comma.kind != ArraySeparator && comma.kind != CommentToken then Broken(Syntax)
    else
      var token := NextNoComment(s);
      if token.kind == ObjectEnd then Last(members, token.rest) else Next(members, name, token.rest)
  }

  /** The part of a document that reaches the reader when it is passed as a C string. */
  function CString(s: string): string {
    if s == [] || s[0] == '\0' then "" else [s[0]] + CString(s[1..])
  }

  /** JsonDocument::Parse. What follows the first value is not looked at. */
  function ReadDocument(s: string): Parse<Value> {
    ReadValue(CString(s), 0)
  }

  /** What a call comes back with: true, false, the exception for the stack limit, or nothing, because it would have
      to read a double. */
  datatype Result = Read | Refused | Thrown | Stopped

  function ResultOf(e: Error): Result {
    match e
    case Syntax => Refused
    case StackLimit => Thrown
    case Unmodelled => Stopped
  }

  /** The reader object. nodes holds the values under construction, the current one last. */
  class Reader {
    const document: string
    var current: nat
    var nodes: seq<Value>
    var stackDepth: nat

    constructor (document: string)
      ensures this.document == document && current == 0 && nodes == [Null] && stackDepth == 0
    {
      this.document := document;
      current, nodes, stackDepth := 0, [Null], 0;
    }

    predicate Valid()
      reads this
    {
      current <= |document| && nodes != []
    }

    ghost function Rest(): string
      requires Valid()
      reads this
    {
      document[current..]
    }

    /** The result of a call, and the value that the current node then holds. */
    ghost predicate Outcome(p: Parse<Value>, result: Result, before: seq<Value>, depth: nat)
      requires before != []
      reads this
    {
      && Valid()
      && match p {
           case Done(value, rest) =>
             result == Read && Rest() == rest && nodes == before[..|before| - 1] + [value] && stackDepth == depth
           case Failed(e) => result == ResultOf(e)
         }
    }

    method Parse() returns (result: Result)
      requires Valid() && current == 0
      modifies this
      ensures Valid()
      ensures match ReadValue(document, 0) {
          case Done(value, rest) => result == Read && nodes == [value]
          case Failed(e) => result == ResultOf(e)
        }
    {
      nodes := [Null];
      stackDepth := 0;
      assert document[0..] == document;
      result := ReadOneValue();
      if result != Thrown {
        var kind, start := SkipCommentTokens();
      }
    }

    method SkipWhiteSpace()
      requires Valid()
      modifies `current
      ensures Valid() && Rest() == SkipSpaces(old(Rest())) && current >= old(current)
    {
      while current != |document|
        invariant Valid() && current >= old(current)
        invariant SkipSpaces(Rest()) == SkipSpaces(old(Rest()))
        decreases |document| - current
      {
        var c := document[current];
        if c == ' ' || c == '\t' || c == '\r' || c == '\n' {
          assert Rest()[1..] == document[current + 1..];
          current := current + 1;
        } else {
          break;
        }
      }
    }

    method ReadDigits()
      requires Valid()
      modifies `current
      ensures Valid() && current == old(current) + DigitRun(old(Rest()))
    {
      while current < |document| && IsDigit(document[current])
        invariant Valid()
        invariant current + DigitRun(Rest()) == old(current) + DigitRun(old(Rest()))
      {
        assert Rest()[1..] == document[current + 1..];
        current := current + 1;
      }
    }

    method ReadFraction()
      requires Valid()
      modifies `current
      ensures Valid() && current == old(current) + FractionRun(old(Rest()))
    {
      if current < |document| && document[current] == '.' {
        DropTwice(document, current, 1);
        current := current + 1;
        ReadDigits();
      }
    }

    method ReadExponent()
      requires Valid()
      modifies `current
      ensures Valid() && current == old(current) + ExponentRun(old(Rest()))
    {
      ghost var start := current;
      if current < |document| && (document[current] == 'e' || document[current] == 'E') {
        current := current + 1;
        if current < |document| && (document[current] == '+' || document[current] == '-') {
          current := current + 1;
        }
        DropTwice(document, start, current - start);
        ReadDigits();
      }
    }

    method ReadNumber()
      requires Valid()
      modifies `current
      ensures Valid() && current == old(current) + NumberRun(old(Rest()))
    {
      hide DigitRun, FractionRun, ExponentRun;
      ghost var start := current;
      ReadDigits();
      DropTwice(document, start, current - start);
      ReadFraction();
      DropTwice(document, start, current - start);
      ReadExponent();
    }

    /** Moves behind the closing quote. */
    method ReadString() returns (ok: bool)
      requires Valid()
      modifies `current
      ensures Valid()
      ensures ok == ClosingQuote(old(Rest())).Some?
      ensures current == if ok then old(current) + ClosingQuote(old(Rest())).value else |document|
    {
      var c := '\0';
      while current != |document|
        invariant Valid() && current >= old(current) && c != '\"'
        invariant ClosingQuote(Rest()).Some? == ClosingQuote(old(Rest())).Some?
        invariant ClosingQuote(Rest()).Some? ==>
          current + ClosingQuote(Rest()).value == old(current) + ClosingQuote(old(Rest())).value
        decreases |document| - current
      {
        ghost var s := Rest();
        c := document[current];
        current := current + 1;
        assert s[1..] == document[current..];
        if c == '\\' {
          if current != |document| {
            current := current + 1;
            assert s[2..] == document[current..];
          }
        } else if c == '\"' {
          break;
        }
      }
      ok := c == '\"';
    }

    method MatchWord(word: string) returns (ok: bool)
      requires Valid()
      modifies `current
      ensures Valid() && ok == (word <= old(Rest()))
      ensures current == if ok then old(current) + |word| else old(current)
    {
      if |document| - current < |word| {
        return false;
      }
      var index := |word|;
      while index > 0
        invariant 0 <= index <= |word|
        invariant forall k | index <= k < |word| :: document[current + k] == word[k]
      {
        index := index - 1;
        if document[current + index] != word[index] {
          assert Rest()[index] != word[index];
          return false;
        }
      }
      assert document[current..][..|word|] == word;
      current := current + |word|;
      ok := true;
    }

    method ReadToken() returns (kind: TokenType, start: nat)
      requires Valid()
      modifies `current
      ensures Valid() && old(current) <= start <= current
      ensures NextToken(old(Rest())) == Token(kind, document[start..current], Rest())
    {
      hide TokenAt, TokenSpan, SkipSpaces;
      SkipWhiteSpace();
      start := current;
      if current == |document| {
        EndIsEndOfStream();
        return EndOfStream, start;
      }
      var c := document[current];
      current := current + 1;
      kind := ReadTokenAfter(c);
      TokenOfSpan(document, start, kind, current - start);
    }

    /** Moves behind the next token that is no comment. */
    method SkipCommentTokens() returns (kind: TokenType, start: nat)
      requires Valid()
      modifies `current
      ensures Valid() && old(current) <= start <= current
      ensures NextNoComment(old(Rest())) == Token(kind, document[start..current], Rest())
    {
      hide NextToken;
      kind, start := ReadToken();
      while kind == CommentToken
        invariant Valid() && old(current) <= start <= current
        invariant NextNoComment(old(Rest())) ==
                  if kind == CommentToken then NextNoComment(Rest()) else Token(kind, document[start..current], Rest())
        decreases |document| - current, kind == CommentToken
      {
        kind, start := ReadToken();
      }
    }

    /** readComment: the slash has been consumed. */
    method ReadComment() returns (ok: bool)
      requires Valid()
      modifies `current
      ensures Valid() && current >= old(current)
      ensures CommentSpan(old(Rest())) ==
              Span(if ok then CommentToken else ErrorToken, current - old(current) + 1)
    {
      ok := false;
      if current == |document| {
        return;
      }
      var c := document[current];
      DropTwice(document, current, 1);
      current := current + 1;
      if c == '*' {
        ok := ReadCStyleComment();
      } else if c == '/' {
        ReadCppStyleComment();
        ok := true;
      }
    }

    method ReadCStyleComment() returns (ok: bool)
      requires Valid()
      modifies `current
      ensures Valid()
      ensures ok == CStyleEnd(old(Rest())).Some?
      ensures current == if ok then old(current) + CStyleEnd(old(Rest())).value else |document|
    {
      while current != |document|
        invariant Valid() && current >= old(current)
        invariant CStyleEnd(Rest()).Some? == CStyleEnd(old(Rest())).Some?
        invariant CStyleEnd(Rest()).Some? ==>
          current + CStyleEnd(Rest()).value == old(current) + CStyleEnd(old(Rest())).value
        decreases |document| - current
      {
        DropTwice(document, current, 1);
        var c := document[current];
        current := current + 1;
        if c == '*' && current < |document| && document[current] == '/' {
          current := current + 1;
          return true;
        }
      }
      ok := false;
    }

    method ReadCppStyleComment()
      requires Valid()
      modifies `current
      ensures Valid() && current == old(current) + LineEnd(old(Rest()))
    {
      while current != |document|
        invariant Valid()
        invariant current + LineEnd(Rest()) == old(current) + LineEnd(old(Rest()))
        decreases |document| - current
      {
        DropTwice(document, current, 1);
        var c := document[current];
        current := current + 1;
        if c == '\n' {
          return;
        }
        if c == '\r' {
          if current != |document| && document[current] == '\n' {
            current := current + 1;
          }
          return;
        }
      }
    }

    /** The switch of readToken: c has just been consumed. */
    method ReadTokenAfter(c: char) returns (kind: TokenType)
      requires Valid() && current > 0
      modifies `current
      ensures Valid() && current >= old(current)
      ensures TokenSpan(c, old(Rest())) == Span(kind, current - old(current) + 1)
    {
      var ok := true;
      match c {
        case '{' => kind := ObjectBegin;
        case '}' => kind := ObjectEnd;
        case '[' => kind := ArrayBegin;
        case ']' => kind := ArrayEnd;
        case '\"' =>
          kind := StringToken;
          ok := ReadString();
        case '/' =>
          kind := CommentToken;
          ok := ReadComment();
        case 't' =>
          kind := TrueToken;
          ok := MatchWord("rue");
        case 'f' =>
          kind := FalseToken;
          ok := MatchWord("alse");
        case 'n' =>
          kind := NullToken;
          ok := MatchWord("ull");
        case ',' => kind := ArraySeparator;
        case ':' => kind := MemberSeparator;
        case '\0' => kind := EndOfStream;
        case _ =>
          if IsDigit(c) || c == '-' {
            kind := NumberToken;
            ReadNumber();
          } else {
            kind := ErrorToken;
          }
      }
      if !ok {
        kind := ErrorToken;
      }
    }

    method ReadOneValue() returns (result: Result)
      requires Valid()
      modifies this
      ensures Outcome(ReadValue(old(Rest()), old(stackDepth)), result, old(nodes), old(stackDepth))
      ensures stackDepth >= old(stackDepth) && current >= old(current)
      decreases |document| - current, 0
    {
      hide NextNoComment, ReadMembers, ReadArrayRest, IntegerOfToken, Unescape;
      if stackDepth >= STACK_LIMIT {
        return Thrown;
      }
      stackDepth := stackDepth + 1;
      var kind, start := SkipCommentTokens();
      match kind {
        case ObjectBegin => result := ReadObject();
        case ArrayBegin => result := ReadArray();
        case NumberToken => result := StoreNumber(document[start..current]);
        case StringToken => result := StoreString(document[start..current]);
        case TrueToken => result := SetCurrent(Bool(true));
        case FalseToken => result := SetCurrent(Bool(false));
        case NullToken => result := SetCurrent(Null);
        case _ => return Refused;
      }
      stackDepth := stackDepth - 1;
    }

    /** Stores a value in the current node. */
    method SetCurrent(v: Value) returns (result: Result)
      requires Valid()
      modifies `nodes
      ensures Valid() && nodes == old(nodes)[..|old(nodes)| - 1] + [v] && result == Read
    {
      nodes := nodes[..|nodes| - 1] + [v];
      result := Read;
    }

    method StoreNumber(token: string) returns (result: Result)
      requires Valid()
      modifies `nodes
      ensures Valid() && result == if IntegerOfToken(token).Some? then Read else Stopped
      ensures result == Read ==> nodes == old(nodes)[..|old(nodes)| - 1] + [IntegerOfToken(token).value]
    {
      var decoded := DecodeNumber(token);
      if decoded.None? {
        return Stopped;
      }
      result := SetCurrent(decoded.value);
    }

    method StoreString(token: string) returns (result: Result)
      requires Valid() && |token| >= 2
      modifies `nodes
      ensures Valid() && result == if Unescape(token[1..|token| - 1]).Some? then Read else Refused
      ensures result == Read ==> nodes == old(nodes)[..|old(nodes)| - 1] + [Str(Unescape(token[1..|token| - 1]).value)]
    {
      var decoded := DecodeString(token);
      if decoded.None? {
        return Refused;
      }
      result := SetCurrent(Str(decoded.value));
    }

    /** Pushes a node for a child of the current value, reads the child into it and pops it again. */
    method ReadChild() returns (result: Result, child: Value)
      requires Valid()
      modifies this
      ensures Valid() && stackDepth >= old(stackDepth) && current >= old(current)
      ensures match ReadValue(old(Rest()), old(stackDepth)) {
          case Done(value, rest) =>
            && result == Read && value == child && rest == Rest() && current > old(current)
            && nodes == old(nodes) && stackDepth == old(stackDepth)
          case Failed(e) => result == ResultOf(e)
        }
      decreases |document| - current, 1
    {
      hide ReadValue;
      child := Null;
      nodes := nodes + [Null];
      result := ReadOneValue();
      if result == Read {
        child := nodes[|nodes| - 1];
        nodes := nodes[..|nodes| - 1];
      }
    }

    method ReadArray() returns (result: Result)
      requires Valid() && stackDepth > 0
      modifies this
      ensures Outcome(ReadArrayRest(old(Rest()), old(stackDepth)), result, old(nodes), old(stackDepth))
      ensures stackDepth >= old(stackDepth) && current >= old(current)
      decreases |document| - current, 3
    {
      hide ReadValue, ReadItems, TokenAt;
      result := SetCurrent(Arr([]));
      ghost var s := Rest();
      SkipWhiteSpace();
      SkipSpacesTwice(s);
      if current < |document| && document[current] == ']' {
        DropTwice(document, current, 1);
        ClosingBracketToken(document, current);
        var kind, start := ReadToken();
        return Read;
      }
      ReadItemsSkipsSpaces(s, stackDepth);
      result := ReadArrayItems();
    }

    method ReadArrayItems() returns (result: Result)
      requires Valid() && nodes[|nodes| - 1] == Arr([])
      modifies this
      ensures Outcome(ReadItems(old(Rest()), old(stackDepth), []), result, old(nodes), old(stackDepth))
      ensures stackDepth >= old(stackDepth) && current >= old(current)
      decreases |document| - current, 2
    {
      hide ReadValue, NextNoComment;
      ghost var s, depth, below := Rest(), stackDepth, nodes[..|nodes| - 1];
      var items: seq<Value> := [];
      while true
        invariant Valid() && current >= old(current) && stackDepth == depth
        invariant nodes == below + [Arr(items)]
        invariant ReadItems(Rest(), depth, items) == ReadItems(s, depth, [])
        decreases |document| - current
      {
        var child;
        result, child := ReadChild();
        if result != Read {
          return;
        }
        items := items + [child];
        result := SetCurrent(Arr(items));
        var kind, start := SkipCommentTokens();
        if kind != ArraySeparator && kind != ArrayEnd {
          return Refused;
        }
        if kind == ArrayEnd {
          return Read;
        }
      }
    }

    method ReadObject() returns (result: Result)
      requires Valid() && stackDepth > 0
      modifies this
      ensures Outcome(ReadMembers(old(Rest()), old(stackDepth), [], ""), result, old(nodes), old(stackDepth))
      ensures stackDepth >= old(stackDepth) && current >= old(current)
      decreases |document| - current, 4
    {
      hide ReadRound;
      result := SetCurrent(Obj([]));
      var name := "";
      ghost var s, depth, below := Rest(), stackDepth, nodes[..|nodes| - 1];
      var members: seq<Member> := [];
      while true
        invariant Valid() && current >= old(current) && stackDepth == depth
        invariant nodes == below + [Obj(members)]
        invariant ReadMembers(Rest(), depth, members, name) == ReadMembers(s, depth, [], "")
        decreases |document| - current
      {
        var last;
        result, last, members, name := ReadMember(members, name);
        if last || result != Read {
          return;
        }
      }
    }

    /** One round of the loop of readObject. */
    method ReadMember(before: seq<Member>, previous: string)
      returns (result: Result, last: bool, members: seq<Member>, name: string)
      requires Valid() && nodes[|nodes| - 1] == Obj(before)
      modifies this
      ensures Valid() && stackDepth >= old(stackDepth) && current >= old(current)
      ensures var below := old(nodes)[..|old(nodes)| - 1];
        match ReadRound(old(Rest()), old(stackDepth), before, previous) {
          case Next(longer, last', rest) =>
            && result == Read && !last && members == longer && name == last' && Rest() == rest && current > old(current)
            && nodes == below + [Obj(members)] && stackDepth == old(stackDepth)
          case Last(all, rest) =>
            && result == Read && last && Rest() == rest && nodes == below + [Obj(all)] && stackDepth == old(stackDepth)
          case Broken(e) => result == ResultOf(e)
        }
      decreases |document| - current, 3
    {
      hide ReadValue, NextToken, NextNoComment, Unescape, SetMember, EndRound;
      members, name, last := before, "", false;
      var kind, start := SkipCommentTokens();
      if kind == ObjectEnd && previous == "" {
        last := true;
        return Read, last, members, name;
      }
      if kind != StringToken {
        return Refused, last, members, name;
      }
      var decoded := DecodeString(document[start..current]);
      if decoded.None? {
        return Refused, last, members, name;
      }
      name := decoded.value;
      kind, start := ReadToken();
      if kind != MemberSeparator {
        return Refused, last, members, name;
      }
      var child;
      result, child := ReadChild();
      if result != Read {
        return;
      }
      members := SetMember(members, name, child);
      result := SetCurrent(Obj(members));
      result, last := EndMember(members, name);
    }

    /** The end of a round. */
    method EndMember(ghost members: seq<Member>, ghost name: string) returns (result: Result, last: bool)
      requires Valid()
      modifies `current
      ensures Valid() && current >= old(current)
      ensures match EndRound(members, name, old(Rest())) {
          case Next(all, last', rest) => result == Read && !last && all == members && last' == name && Rest() == rest
          case Last(all, rest) => result == Read && last && all == members && Rest() == rest
          case Broken(e) => result == ResultOf(e)
        }
    {
      hide NextToken;
      last := false;
      var kind, start := ReadToken();
      if kind != ObjectEnd && kind != ArraySeparator && kind != CommentToken {
        return Refused, last;
      }
      if kind == CommentToken {
        kind, start := SkipCommentTokens();
      }
      last := kind == ObjectEnd;
      result := Read;
    }
  }
}
