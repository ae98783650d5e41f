/** Comments, which the reader allows in front of values, names and separators: where they end, and that they are
    skipped. */
module JsonComments {
  import opened JsonReader
  import opened JsonTokens
  import opened Sequences
  import opened Wrappers

  /** A comment: its text, from the slash on. */
  datatype Comment = Block(inside: string) | Line(inside: string, end: string)

  /** A block ends at the first asterisk with a slash behind it, a line at CR LF, LF or CR. */
  predicate Allowed(c: Comment) {
    match c
    case Block(inside) => forall k | 0 <= k < |inside| :: !("*/" <= (inside + "*/")[k..])
    case Line(inside, end) =>
      '\r' !in inside && '\n' !in inside && (end == "\n" || end == "\r" || end == "\r\n")
  }

  function TextOf(c: Comment): string {
    match c
    case Block(inside) => "/*" + (inside + "*/")
    case Line(inside, end) => "//" + (inside + end)
  }

  /** A line that ends with CR is not followed by LF. */
  predicate Ends(c: Comment, rest: string) {
    c.Line? && c.end == "\r" ==> rest == "" || rest[0] != '\n'
  }

  lemma {:induction false} BlockEnd(inside: string, rest: string)
    requires forall k | 0 <= k < |inside| :: !("*/" <= (inside + "*/")[k..])
    ensures CStyleEnd(inside + ("*/" + rest)) == Some(|inside| + 2)
  {
    var s := inside + ("*/" + rest);
    if inside == "" {
      assert s == "*/" + rest;
    } else {
      assert s[1..] == inside[1..] + ("*/" + rest);
      assert forall k | 0 <= k < |inside| - 1 :: (inside[1..] + "*/")[k..] == (inside + "*/")[k + 1..];
      BlockEnd(inside[1..], rest);
      NotHere(inside, rest);
    }
  }

  lemma NotHere(inside: string, rest: string)
    requires inside != "" && !("*/" <= (inside + "*/")[0..])
    ensures var s := inside + ("*/" + rest); |s| >= 2 && !(s[0] == '*' && s[1] == '/')
  {
    var t := inside + "*/";
    assert t[0..] == t && t[..2] == [t[0], t[1]];
    assert (inside + ("*/" + rest))[1] == t[1];
  }

  lemma {:induction false} LineEnds(inside: string, end: string, rest: string)
    requires '\r' !in inside && '\n' !in inside && (end == "\n" || end == "\r" || end == "\r\n")
    requires end == "\r" ==> rest == "" || rest[0] != '\n'
    ensures LineEnd(inside + (end + rest)) == |inside| + |end|
  {
    var s := inside + (end + rest);
    if inside == "" {
      assert s == end + rest && (end == "\r\n" ==> s[1] == '\n') && (end == "\r" && rest != "" ==> s[1] == rest[0]);
    } else {
      assert s[1..] == inside[1..] + (end + rest);
      LineEnds(inside[1..], end, rest);
    }
  }

  lemma SlashSpan(s: string)
    ensures TokenSpan('/', s) == CommentSpan(s)
  {
  }

  /** A comment is one token. */
  lemma CommentIsToken(c: Comment, rest: string)
    requires Allowed(c) && Ends(c, rest)
    ensures NextToken(TextOf(c) + rest) == Token(CommentToken, TextOf(c), rest)
  {
    hide NextToken, TokenSpan, CStyleEnd, LineEnd;
    var inside := c.inside + if c.Block? then "*/" else c.end;
    var mark := if c.Block? then "*" else "/";
    var word := mark + inside;
    if c.Block? {
      BlockEnd(c.inside, rest);
      Regroup(c.inside, "*/", rest);
    } else {
      LineEnds(c.inside, c.end, rest);
      Regroup(c.inside, c.end, rest);
    }
    assert (word + rest)[1..] == inside + rest;
    SlashSpan(word + rest);
    assert TextOf(c) == ['/'] + word;
    TokenFromSpan('/', word, rest, CommentToken);
  }

  /** In front of a value, a comment makes no difference. */
  lemma CommentIsSkipped(c: Comment, rest: string, depth: nat)
    requires Allowed(c) && Ends(c, rest)
    ensures ReadValue(TextOf(c) + rest, depth) == ReadValue(rest, depth)
    ensures NextNoComment(TextOf(c) + rest) == NextNoComment(rest)
  {
    hide NextToken, ReadMembers, ReadArrayRest;
    CommentIsToken(c, rest);
  }

  lemma {:induction false} NoBlockEnd(inside: string)
    requires forall k | 0 <= k < |inside| :: !("*/" <= inside[k..])
    ensures CStyleEnd(inside) == None
  {
    if |inside| >= 2 {
      assert inside[0..] == inside && inside[..2] == [inside[0], inside[1]];
      assert forall k | 0 <= k < |inside| - 1 :: inside[1..][k..] == inside[k + 1..];
      NoBlockEnd(inside[1..]);
    }
  }

  /** A block without an end, and a slash that starts no comment, are refused. */
  lemma NoComments(inside: string, c: char, depth: nat)
    requires depth < 1000 && forall k | 0 <= k < |inside| :: !("*/" <= inside[k..])
    ensures ReadValue("/*" + inside, depth) == Failed(Syntax)
    ensures c != '*' && c != '/' ==> ReadValue("/" + ([c] + inside), depth) == Failed(Syntax)
  {
    hide NextToken, ReadValue, CStyleEnd, LineEnd, TokenSpan;
    var one, other := "*" + inside, [c] + inside;
    assert one[1..] == inside && "/*" + inside == "/" + one;
    NoBlockEnd(inside);
    SlashSpan(one);
    SlashSpan(other);
    FirstToken('/', one);
    FirstToken('/', other);
    ErrorIsRefused("/" + one, depth);
    ErrorIsRefused("/" + other, depth);
  }

  lemma ErrorIsRefused(s: string, depth: nat)
    requires depth < 1000
    ensures NextToken(s).kind == ErrorToken ==> ReadValue(s, depth) == Failed(Syntax)
  {
    hide NextToken;
    if NextToken(s).kind == ErrorToken {
      NoComment(s);
    }
  }
}
