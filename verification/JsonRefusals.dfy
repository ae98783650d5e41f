/** What the reader refuses: texts that do not start like a value, words and strings that are cut short, strings with
    wrong escapes, and values behind which neither the separator nor the end of their container stands. */
module JsonRefusals {
  import opened Digits
  import opened JsonGrammar
  import opened JsonNumbers
  import opened JsonReader
  import opened JsonStrings
  import opened JsonTokens
  import opened Sequences
  import opened Wrappers

  /** The kinds of tokens that start no value. */
  predicate StartsNone(kind: TokenType) {
    kind.ErrorToken? || kind.EndOfStream? || kind.ArrayEnd? || kind.ObjectEnd? || kind.ArraySeparator?
    || kind.MemberSeparator?
  }

  lemma NoValue(s: string, depth: nat)
    requires depth < 1000 && StartsNone(NextToken(s).kind)
    ensures ReadValue(s, depth) == Failed(Syntax)
  {
    hide NextToken;
    NoComment(s);
  }

  lemma KindOfOther(c: char, s: string)
    requires c !in "{[\"tfn-0123456789/"
    ensures StartsNone(TokenSpan(c, s).kind)
    ensures c !in "},]:\0" ==> TokenSpan(c, s).kind == ErrorToken
  {
    NoOtherDigits(c);
    assert IsDigit(c) ==> c in "0123456789";
  }

  /** Nothing else starts a value; a slash could start a comment. */
  lemma WrongStart(gap: string, c: char, tail: string, depth: nat)
    requires IsGap(gap) && c !in " \t\n\r" && c !in "{[\"tfn-0123456789/" && depth < 1000
    ensures ReadValue(gap + ([c] + tail), depth) == Failed(Syntax)
  {
    hide NextToken, ReadValue, TokenSpan;
    GapIsSpaces(gap);
    TokenAfterSpaces(gap, [c] + tail);
    FirstToken(c, tail);
    KindOfOther(c, tail);
    NoValue(gap + ([c] + tail), depth);
  }

  /** A word that is none. */
  lemma WrongWord(c: char, tail: string, depth: nat)
    requires depth < 1000
    requires (c == 't' && !("rue" <= tail)) || (c == 'f' && !("alse" <= tail)) || (c == 'n' && !("ull" <= tail))
    ensures ReadValue([c] + tail, depth) == Failed(Syntax)
  {
    hide NextToken, ReadValue;
    FirstToken(c, tail);
    NoValue([c] + tail, depth);
  }

  /** An integer beyond 64 bits is left to the doubles. */
  lemma TooLarge(minus: bool, digits: seq<nat>, rest: string, depth: nat)
    requires digits != [] && AreDecimal(digits) && EndsNumber(rest) && depth < 1000
    requires NumberOf(10, digits) > if minus then 0x8000_0000_0000_0000 else 0xFFFF_FFFF_FFFF_FFFF
    ensures ReadValue(NumberText(minus, digits) + rest, depth) == Failed(Unmodelled)
  {
    hide NextToken, IntegerOfToken, NumberText;
    NumberIsToken(minus, digits, rest);
    NoComment(NumberText(minus, digits) + rest);
  }

  // Strings

  /** A string without its closing quote. */
  lemma OpenString(chars: seq<E.Written>, depth: nat)
    requires E.AllAllowed(chars) && depth < 1000
    ensures ReadValue("\"" + E.TextOfAll(chars), depth) == Failed(Syntax)
  {
    hide NextToken, ReadValue, ClosingQuote, E.AllAllowed, E.TextOfAll;
    E.ClosingQuoteOfWritten(chars, "");
    FirstToken('\"', E.TextOfAll(chars));
    NoValue("\"" + E.TextOfAll(chars), depth);
  }

  lemma StringValue(s: string, depth: nat)
    requires depth < 1000 && NextToken(s).kind == StringToken
    ensures var text := NextToken(s).text;
      Unescape(text[1..|text| - 1]) == None ==> ReadValue(s, depth) == Failed(Syntax)
  {
    hide NextToken, Unescape;
    NoComment(s);
  }

  /** A string with something behind its first characters that starts like an escape and is none. */
  lemma WrongEscape(chars: seq<E.Written>, wrong: string, tail: string, depth: nat)
    requires E.AllAllowed(chars) && (E.IsNoEscape(wrong) || E.IsLoneSurrogate(wrong)) && depth < 1000
    requires ClosingQuote(wrong + ("\"" + tail)) == Some(|wrong| + 1)
    ensures ReadValue("\"" + (E.TextOfAll(chars) + (wrong + ("\"" + tail))), depth) == Failed(Syntax)
  {
    hide NextToken, ReadValue, ClosingQuote, Unescape, E.AllAllowed, E.TextOfAll, E.IsNoEscape, E.IsLoneSurrogate;
    var body := E.TextOfAll(chars) + wrong;
    E.ClosingQuoteThen(chars, wrong + ("\"" + tail));
    Regroup(E.TextOfAll(chars), wrong, "\"" + tail);
    E.EscapesAreExact(chars, wrong);
    BodyToken(body, tail);
    StringValue("\"" + (body + ("\"" + tail)), depth);
  }

  // Containers

  /** Items of an array behind which something else stands than a comma, a closing bracket or a comment. */
  lemma NoEndOfArray(items: seq<Item>, c: char, tail: string, depth: nat)
    requires items != [] && ItemsAreGood(items) && IsStray(c) && c != ']' && depth + 1 + ItemsNesting(items) <= 1000
    ensures ReadValue("[" + (ItemsText(items) + ([c] + tail)), depth) == Failed(Syntax)
  {
    hide *;
    ReadSomeItems(items, [c] + tail, depth);
    ReadItemsSyntax(items, [], c, tail, depth + 1);
  }

  /** Members of an object behind which something else stands than a comma, a closing brace or a comment. */
  lemma NoEndOfObject(entries: seq<Entry>, c: char, tail: string, depth: nat)
    requires entries != [] && EntriesAreGood(entries) && IsStray(c) && c != '}'
    requires depth + 1 + EntriesNesting(entries) <= 1000
    ensures ReadValue("{" + (EntriesText(entries) + ([c] + tail)), depth) == Failed(Syntax)
  {
    hide *;
    OpensObject(EntriesText(entries) + ([c] + tail), depth);
    ReadEntriesSyntax(entries, [], "", c, tail, depth + 1);
  }

  /** An object whose first member has no name. */
  lemma NoName(gap: string, c: char, tail: string, depth: nat)
    requires IsGap(gap) && IsStray(c) && c != '\"' && c != '}' && depth < 1000
    ensures ReadValue("{" + (gap + ([c] + tail)), depth) == Failed(Syntax)
  {
    hide NextToken, ReadValue, TokenSpan, IsGap;
    OpensObject(gap + ([c] + tail), depth);
    GapIsSpaces(gap);
    TokenAfterSpaces(gap, [c] + tail);
    StrayToken(c, tail);
    FirstToken(c, tail);
    NoString(c, tail);
    NoComment(gap + ([c] + tail));
  }

  lemma NoString(c: char, tail: string)
    requires c != '\"'
    ensures TokenSpan(c, tail).kind != StringToken
  {
  }

  /** An object whose first member has no colon. */
  lemma NoColon(gap: string, name: seq<E.Written>, middle: string, c: char, tail: string, depth: nat)
    requires IsGap(gap) && E.AllAllowed(name) && IsGap(middle) && IsStray(c) && c != ':' && depth < 1000
    ensures ReadValue("{" + (gap + (QuotedText(name) + (middle + ([c] + tail)))), depth) == Failed(Syntax)
  {
    hide NextToken, ReadValue, TokenSpan, IsGap, QuotedText, Unescape, E.AllAllowed, E.ValueOfAll;
    var behind := middle + ([c] + tail);
    OpensObject(gap + (QuotedText(name) + behind), depth);
    GapIsSpaces(gap);
    TokenAfterSpaces(gap, QuotedText(name) + behind);
    QuotedIsToken(name, behind);
    NoComment(gap + (QuotedText(name) + behind));
    GapIsSpaces(middle);
    TokenAfterSpaces(middle, [c] + tail);
    FirstToken(c, tail);
    OnlyColon(c, tail);
  }

  lemma OnlyColon(c: char, tail: string)
    requires c != ':'
    ensures TokenSpan(c, tail).kind != MemberSeparator
  {
  }
}
