/** JSON texts by sections 2 to 7 of RFC 8259, with integers for numbers, and the values they denote. The reader reads
    every such text as its value, as long as it is nested at most 1000 deep. */
module JsonGrammar {
  import opened Digits
  import opened JsonNumbers
  import opened JsonReader
  import opened JsonStrings
  import opened JsonTokens
  import opened JsonValue
  import opened Sequences
  import opened Wrappers
  import E = JsonEscapes

  /** A text by its parts. The gap is the white space of an empty container. */
  datatype Syntax =
    | Word(text: string)
    | Number(minus: bool, digits: seq<nat>)
    | Quoted(chars: seq<E.Written>)
    | Array(gap: string, items: seq<Item>)
    | Object(gap: string, entries: seq<Entry>)

  datatype Item = Item(before: string, syntax: Syntax, after: string)

  /** A member of an object, with white space in front of its name, its colon and its value, and behind it. */
  datatype Entry =
    Entry(before: string, name: seq<E.Written>, middle: string, gap: string, syntax: Syntax, after: string)

  predicate IsGap(s: string) {
    forall c | c in s :: c == ' ' || c == '\t' || c == '\n' || c == '\r'
  }

  predicate WellFormed(j: Syntax) {
    match j
    case Word(text) => text == "null" || text == "true" || text == "false"
    case Number(minus, digits) =>
      && digits != [] && AreDecimal(digits)
      && NumberOf(10, digits) <= if minus then 0x8000_0000_0000_0000 else 0xFFFF_FFFF_FFFF_FFFF
    case Quoted(chars) => E.AllAllowed(chars)
    case Array(gap, items) => IsGap(gap) && ItemsAreGood(items)
    case Object(gap, entries) => IsGap(gap) && EntriesAreGood(entries)
  }

  predicate ItemsAreGood(items: seq<Item>) {
    items == [] ||
    (IsGap(items[0].before) && IsGap(items[0].after) && WellFormed(items[0].syntax) && ItemsAreGood(items[1..]))
  }

  predicate EntriesAreGood(entries: seq<Entry>) {
    entries == [] || (EntryIsGood(entries[0]) && WellFormed(entries[0].syntax) && EntriesAreGood(entries[1..]))
  }

  predicate EntryIsGood(e: Entry) {
    && IsGap(e.before) && E.AllAllowed(e.name) && IsGap(e.middle) && IsGap(e.gap) && IsGap(e.after)
  }

  predicate AreDecimal(digits: seq<nat>) {
    forall k | 0 <= k < |digits| :: digits[k] < 10
  }

  function DigitText(digits: seq<nat>): (text: string)
    requires AreDecimal(digits)
    ensures AreDigits(10, digits, text)
  {
    seq(|digits|, k requires 0 <= k < |digits| => SMALL[digits[k]])
  }

  function NumberText(minus: bool, digits: seq<nat>): string
    requires AreDecimal(digits)
  {
    (if minus then "-" else "") + DigitText(digits)
  }

  function QuotedText(chars: seq<E.Written>): string
    requires E.AllAllowed(chars)
  {
    "\"" + (E.TextOfAll(chars) + "\"")
  }

  /** The characters of a text. */
  function TextOf(j: Syntax): string
    requires WellFormed(j)
  {
    match j
    case Word(text) => text
    case Number(minus, digits) => NumberText(minus, digits)
    case Quoted(chars) => QuotedText(chars)
    case Array(gap, items) => "[" + ((if items == [] then gap else ItemsText(items)) + "]")
    case Object(gap, entries) => "{" + ((if entries == [] then gap else EntriesText(entries)) + "}")
  }

  function ItemsText(items: seq<Item>): string
    requires items != [] && ItemsAreGood(items)
  {
    items[0].before + (TextOf(items[0].syntax) + (items[0].after +
      if |items| == 1 then "" else "," + ItemsText(items[1..])))
  }

  function EntriesText(entries: seq<Entry>): string
    requires entries != [] && EntriesAreGood(entries)
  {
    var e := entries[0];
    e.before + (QuotedText(e.name) + (e.middle + (":" + (e.gap + (TextOf(e.syntax) + (e.after +
      if |entries| == 1 then "" else "," + EntriesText(entries[1..])))))))
  }

  /** The value a text denotes. Of the members with one name the last one counts. */
  function Denotes(j: Syntax): Value
    requires WellFormed(j)
  {
    match j
    case Word(text) => if text == "null" then Null else Bool(text == "true")
    case Number(minus, digits) =>
      var size: int := NumberOf(10, digits);
      var n := if minus then -size else size;
      if n <= 0x7FFF_FFFF then Int(n) else UInt(n)
    case Quoted(chars) => Str(E.ValueOfAll(chars))
    case Array(_, items) => Arr(Values(items))
    case Object(_, entries) => Obj(Assigned([], entries))
  }

  function Values(items: seq<Item>): (values: seq<Value>)
    requires ItemsAreGood(items)
    ensures |values| == |items|
  {
    if items == [] then [] else [Denotes(items[0].syntax)] + Values(items[1..])
  }

  function Assigned(members: seq<Member>, entries: seq<Entry>): seq<Member>
    requires EntriesAreGood(entries)
    decreases entries
  {
    if entries == [] then members
    else Assigned(SetMember(members, E.ValueOfAll(entries[0].name), Denotes(entries[0].syntax)), entries[1..])
  }

  /** How deep a text is nested; a text without brackets is one deep. */
  function Nesting(j: Syntax): (n: nat)
    ensures n >= 1
  {
    match j
    case Array(_, items) => 1 + ItemsNesting(items)
    case Object(_, entries) => 1 + EntriesNesting(entries)
    case _ => 1
  }

  function ItemsNesting(items: seq<Item>): nat {
    if items == [] then 0 else Max(Nesting(items[0].syntax), ItemsNesting(items[1..]))
  }

  function EntriesNesting(entries: seq<Entry>): nat {
    if entries == [] then 0 else Max(Nesting(entries[0].syntax), EntriesNesting(entries[1..]))
  }

  // Tokens

  lemma GapIsSpaces(s: string)
    requires IsGap(s)
    ensures AllSpaces(s)
  {
    assert forall k | 0 <= k < |s| :: s[k] in s;
  }

  lemma NumberParts(minus: bool, digits: seq<nat>)
    requires digits != [] && AreDecimal(digits)
    ensures var text := NumberText(minus, digits);
      && text != "" && (IsDigit(text[0]) || text[0] == '-') && AllDigits(text[1..]) && text == [text[0]] + text[1..]
      && TokenDigits(text) == DigitText(digits) && (minus <==> text[0] == '-')
  {
    hide Numeral, NumberOf;
    NumeralOfWritten(digits, DigitText(digits));
    hide DigitText;
    assert NumberText(minus, digits) == if minus then ['-'] + DigitText(digits) else DigitText(digits);
  }

  /** A number is one token, which is an integer exactly when it fits. */
  lemma NumberIsToken(minus: bool, digits: seq<nat>, rest: string)
    requires digits != [] && AreDecimal(digits) && EndsNumber(rest)
    ensures var text, j := NumberText(minus, digits), Number(minus, digits);
      && NextToken(text + rest) == Token(NumberToken, text, rest)
      && IntegerOfToken(text) == if WellFormed(j) then Some(Denotes(j)) else None
  {
    hide Numeral, NumberOf, DigitText, AllDigits, TokenDigits, NextToken, EndsNumber, NumberText;
    var text := NumberText(minus, digits);
    NumberParts(minus, digits);
    NumeralOfWritten(digits, DigitText(digits));
    WholeNumberToken(text[0], text[1..], rest);
  }

  lemma QuotedIsToken(chars: seq<E.Written>, rest: string)
    requires E.AllAllowed(chars)
    ensures var text := QuotedText(chars);
      && |text| >= 2 && NextToken(text + rest) == Token(StringToken, text, rest)
      && Unescape(text[1..|text| - 1]) == Some(E.ValueOfAll(chars))
  {
    hide NextToken, ClosingQuote, Unescape, E.AllAllowed, E.TextOfAll, E.ValueOfAll;
    E.ClosingQuoteOfWritten(chars, rest);
    BodyToken(E.TextOfAll(chars), rest);
    E.UnescapeOfWritten(chars);
  }

  // Reading

  /** What reading a text gives: its value and what follows, or the stack limit. */
  function Expected(j: Syntax, rest: string, depth: nat): Parse<Value>
    requires WellFormed(j)
  {
    if depth + Nesting(j) <= 1000 then Done(Denotes(j), rest) else Failed(StackLimit)
  }

  lemma ReadScalar(j: Syntax, rest: string, depth: nat)
    requires WellFormed(j) && !j.Array? && !j.Object? && (j.Number? ==> EndsNumber(rest))
    ensures ReadValue(TextOf(j) + rest, depth) == Expected(j, rest, depth)
  {
    hide NextToken, Unescape, IntegerOfToken, E.AllAllowed, E.ValueOfAll, QuotedText, NumberText;
    match j {
      case Word(text) => WordToken(text, rest);
      case Number(minus, digits) => NumberIsToken(minus, digits, rest);
      case Quoted(chars) => QuotedIsToken(chars, rest);
    }
  }

  /** No text starts with white space or like the end of an array. */
  lemma TextStarts(j: Syntax)
    requires WellFormed(j)
    ensures TextOf(j) != "" && !IsSpace(TextOf(j)[0]) && TextOf(j)[0] != ']'
  {
    hide E.AllAllowed, E.TextOfAll, ItemsText, EntriesText, NumberOf;
    if j.Number? {
      assert AreDigits(10, j.digits, DigitText(j.digits));
      DigitsAre(j.digits[0]);
    }
  }

  /** What can stand behind a value without being taken for a part of it, for a separator or for a comment. */
  predicate IsStray(c: char) {
    !IsSpace(c) && c != ',' && c != '/' && !IsDigit(c) && c != '.' && c != 'e' && c != 'E'
  }

  lemma StrayToken(c: char, tail: string)
    requires IsStray(c)
    ensures var kind := NextToken([c] + tail).kind;
      && kind != CommentToken && kind != ArraySeparator
      && (c != ']' ==> kind != ArrayEnd) && (c != '}' ==> kind != ObjectEnd)
  {
    hide NextToken, ClosingQuote, NumberRun;
    FirstToken(c, tail);
  }

  /** One item followed by its separator. */
  lemma ReadItemThen(i: Item, acc: seq<Value>, c: char, tail: string, depth: nat)
    requires IsGap(i.before) && IsGap(i.after) && WellFormed(i.syntax) && (c == ',' || IsStray(c))
    requires ReadValue(TextOf(i.syntax) + (i.after + ([c] + tail)), depth) ==
      Expected(i.syntax, i.after + ([c] + tail), depth)
    ensures ReadItems(i.before + (TextOf(i.syntax) + (i.after + ([c] + tail))), depth, acc) ==
      if depth + Nesting(i.syntax) > 1000 then Failed(StackLimit)
      else if c == ',' then ReadItems(tail, depth, acc + [Denotes(i.syntax)])
      else if c == ']' then Done(Arr(acc + [Denotes(i.syntax)]), tail)
      else Failed(Syntax)
  {
    hide ReadValue, NextToken, Denotes, TextOf, WellFormed, IsGap, Nesting;
    var rest := i.after + ([c] + tail);
    GapIsSpaces(i.before);
    GapIsSpaces(i.after);
    ReadAfterSpaces(i.before, TextOf(i.syntax) + rest, depth);
    TokenAfterSpaces(i.after, [c] + tail);
    if c == ',' || c == ']' {
      PunctuationToken(c, tail);
    } else {
      StrayToken(c, tail);
    }
    NoComment(rest);
  }

  lemma EndsBehind(gap: string, c: char, tail: string)
    requires IsGap(gap) && (c == ',' || IsStray(c))
    ensures EndsNumber(gap + ([c] + tail))
  {
    assert gap != "" ==> gap[0] in gap;
  }

  lemma Shift(a: string, b: string, c: string, d: string, e: string)
    ensures (a + (b + (c + d))) + e == a + (b + (c + (d + e)))
  {
    hide *;
    Regroup(a, b + (c + d), e);
    Regroup(b, c + d, e);
    Regroup(c, d, e);
  }

  lemma ItemsParts(items: seq<Item>, end: string)
    requires items != [] && ItemsAreGood(items)
    ensures var i := items[0];
      ItemsText(items) + end ==
      i.before + (TextOf(i.syntax) + (i.after + if |items| == 1 then end else [','] + (ItemsText(items[1..]) + end)))
  {
    hide TextOf, WellFormed, IsGap;
    var i := items[0];
    var more := if |items| == 1 then "" else "," + ItemsText(items[1..]);
    assert ItemsText(items) == i.before + (TextOf(i.syntax) + (i.after + more));
    hide *;
    Shift(i.before, TextOf(i.syntax), i.after, more, end);
    if |items| > 1 {
      Regroup(",", ItemsText(items[1..]), end);
    } else {
      assert "" + end == end;
    }
  }

  /** The inside of an array does not start like its end. */
  lemma ItemsStart(items: seq<Item>, end: string)
    requires items != [] && ItemsAreGood(items)
    ensures var s := SkipSpaces(ItemsText(items) + end); s != "" && s[0] != ']'
  {
    hide TextOf, WellFormed, IsGap, ItemsText, SkipSpaces;
    var i := items[0];
    ItemsParts(items, end);
    var tail := i.after + if |items| == 1 then end else [','] + (ItemsText(items[1..]) + end);
    GapIsSpaces(i.before);
    SkipLeadingSpaces(i.before, TextOf(i.syntax) + tail);
    TextStarts(i.syntax);
    NoSpaceFirst(TextOf(i.syntax), tail);
  }

  lemma ContainerParts(open: string, inside: string, close: string, rest: string)
    ensures (open + (inside + close)) + rest == open + (inside + (close + rest))
  {
    hide *;
    Regroup(open, inside + close, rest);
    Regroup(inside, close, rest);
  }

  lemma ReadNoItems(gap: string, rest: string, depth: nat)
    requires IsGap(gap) && depth < 1000
    ensures ReadValue("[" + (gap + ("]" + rest)), depth) == Done(Arr([]), rest)
  {
    hide SkipSpaces, ReadValue;
    var s := gap + ("]" + rest);
    OpensArray(s, depth);
    GapIsSpaces(gap);
    SkipLeadingSpaces(gap, "]" + rest);
    NoSpaceFirst("]", rest);
    assert ("]" + rest)[1..] == rest;
  }

  lemma ReadSomeItems(items: seq<Item>, end: string, depth: nat)
    requires items != [] && ItemsAreGood(items) && depth < 1000
    ensures ReadValue("[" + (ItemsText(items) + end), depth) == ReadItems(ItemsText(items) + end, depth + 1, [])
  {
    hide SkipSpaces, ReadValue, ReadItems, ItemsText, ItemsAreGood;
    OpensArray(ItemsText(items) + end, depth);
    ItemsStart(items, end);
  }

  lemma ReadNoMembers(gap: string, rest: string, depth: nat)
    requires IsGap(gap) && depth < 1000
    ensures ReadValue("{" + (gap + ("}" + rest)), depth) == Done(Obj([]), rest)
  {
    hide NextToken, ReadValue;
    var s := gap + ("}" + rest);
    OpensObject(s, depth);
    GapIsSpaces(gap);
    TokenAfterSpaces(gap, "}" + rest);
    PunctuationToken('}', rest);
    NoComment(s);
  }

  /** Reading a text gives its value. */
  lemma {:induction false} ReadSyntax(j: Syntax, rest: string, depth: nat)
    requires WellFormed(j) && (j.Number? ==> EndsNumber(rest))
    ensures ReadValue(TextOf(j) + rest, depth) == Expected(j, rest, depth)
    decreases j
  {
    hide ReadValue, ItemsText, EntriesText, E.AllAllowed, DigitText, NumberOf, IsGap, Values, Assigned;
    if !j.Array? && !j.Object? {
      ReadScalar(j, rest, depth);
    } else if depth >= 1000 {
      AtStackLimit(TextOf(j) + rest, depth);
    } else if j.Array? {
      ReadArraySyntax(j, rest, depth);
    } else {
      ReadObjectSyntax(j, rest, depth);
    }
  }

  lemma {:induction false} ReadArraySyntax(j: Syntax, rest: string, depth: nat)
    requires WellFormed(j) && j.Array? && depth < 1000
    ensures ReadValue(TextOf(j) + rest, depth) == Expected(j, rest, depth)
    decreases j, 0
  {
    hide ReadValue, ReadItems, ItemsText, IsGap, Values, ItemsNesting, ItemsAreGood;
    if j.items == [] {
      ContainerParts("[", j.gap, "]", rest);
      ReadNoItems(j.gap, rest, depth);
      NoItems();
    } else {
      ContainerParts("[", ItemsText(j.items), "]", rest);
      ReadSomeItems(j.items, [']'] + rest, depth);
      ReadItemsSyntax(j.items, [], ']', rest, depth + 1);
      assert [] + Values(j.items) == Values(j.items);
    }
  }

  lemma NoItems()
    ensures Values([]) == [] && ItemsNesting([]) == 0 && Assigned([], []) == [] && EntriesNesting([]) == 0
  {
  }

  lemma LastItem(items: seq<Item>)
    requires |items| == 1 && ItemsAreGood(items)
    ensures Values(items) == [Denotes(items[0].syntax)] && ItemsNesting(items) == Nesting(items[0].syntax)
  {
    hide Denotes, Nesting;
    NoItems();
    assert items[1..] == [];
  }

  /** Items followed by the end of their array, or by something else. */
  lemma {:induction false} ReadItemsSyntax(items: seq<Item>, acc: seq<Value>, c: char, rest: string, depth: nat)
    requires items != [] && ItemsAreGood(items) && IsStray(c)
    ensures ReadItems(ItemsText(items) + ([c] + rest), depth, acc) ==
      if depth + ItemsNesting(items) > 1000 then Failed(StackLimit)
      else if c == ']' then Done(Arr(acc + Values(items)), rest)
      else Failed(Syntax)
    decreases items
  {
    hide ReadValue, ReadItems, TextOf, Denotes, WellFormed, IsGap, ItemsText, Nesting, IsStray;
    var i := items[0];
    ItemsParts(items, [c] + rest);
    if |items| == 1 {
      EndsBehind(i.after, c, rest);
      ReadSyntax(i.syntax, i.after + ([c] + rest), depth);
      ReadItemThen(i, acc, c, rest, depth);
      StrayIsNoComma();
      LastItem(items);
    } else {
      var tail := ItemsText(items[1..]) + ([c] + rest);
      EndsBehind(i.after, ',', tail);
      ReadSyntax(i.syntax, i.after + ([','] + tail), depth);
      ReadItemThen(i, acc, ',', tail, depth);
      ReadItemsSyntax(items[1..], acc + [Denotes(i.syntax)], c, rest, depth);
      Regroup(acc, [Denotes(i.syntax)], Values(items[1..]));
    }
  }

  lemma StrayIsNoComma()
    ensures !IsStray(',') && IsStray(']') && IsStray('}')
  {
  }

  // Objects

  /** The name and the colon of a member. */
  lemma ReadNameThen(e: Entry, after: string)
    requires IsGap(e.before) && E.AllAllowed(e.name) && IsGap(e.middle)
    ensures var first := NextToken(e.before + (QuotedText(e.name) + (e.middle + (":" + after))));
      && first.kind == StringToken && Unescape(first.text[1..|first.text| - 1]) == Some(E.ValueOfAll(e.name))
      && NextToken(first.rest) == Token(MemberSeparator, ":", after)
  {
    hide NextToken, QuotedText, Unescape, E.AllAllowed, E.ValueOfAll, IsGap;
    var colon := e.middle + (":" + after);
    GapIsSpaces(e.before);
    TokenAfterSpaces(e.before, QuotedText(e.name) + colon);
    QuotedIsToken(e.name, colon);
    GapIsSpaces(e.middle);
    TokenAfterSpaces(e.middle, ":" + after);
    PunctuationToken(':', after);
  }

  /** One member followed by its separator. */
  lemma ReadEntryThen(e: Entry, acc: seq<Member>, previous: string, c: char, tail: string, depth: nat)
    requires EntryIsGood(e) && WellFormed(e.syntax) && (c == ',' || IsStray(c))
    requires ReadValue(TextOf(e.syntax) + (e.after + ([c] + tail)), depth) ==
      Expected(e.syntax, e.after + ([c] + tail), depth)
    ensures var all := SetMember(acc, E.ValueOfAll(e.name), Denotes(e.syntax));
      var value := TextOf(e.syntax) + (e.after + ([c] + tail));
      ReadMembers(e.before + (QuotedText(e.name) + (e.middle + (":" + (e.gap + value)))), depth, acc, previous) ==
      if depth + Nesting(e.syntax) > 1000 then Failed(StackLimit)
      else if c == ',' then ReadMembers(tail, depth, all, E.ValueOfAll(e.name))
      else if c == '}' then Done(Obj(all), tail)
      else Failed(Syntax)
  {
    hide ReadValue, NextToken, Denotes, TextOf, WellFormed, IsGap, Nesting, QuotedText, Unescape, SetMember;
    hide E.AllAllowed, E.ValueOfAll;
    var rest := e.after + ([c] + tail);
    var value := TextOf(e.syntax) + rest;
    var s := e.before + (QuotedText(e.name) + (e.middle + (":" + (e.gap + value))));
    ReadNameThen(e, e.gap + value);
    NoComment(s);
    GapIsSpaces(e.gap);
    ReadAfterSpaces(e.gap, value, depth);
    GapIsSpaces(e.after);
    TokenAfterSpaces(e.after, [c] + tail);
    if c == ',' || c == '}' {
      PunctuationToken(c, tail);
    } else {
      StrayToken(c, tail);
    }
    NoComment(rest);
  }

  lemma EntriesParts(entries: seq<Entry>, end: string)
    requires entries != [] && EntriesAreGood(entries)
    ensures var e := entries[0];
      EntriesText(entries) + end ==
      e.before + (QuotedText(e.name) + (e.middle + (":" + (e.gap + (TextOf(e.syntax) + (e.after +
        if |entries| == 1 then end else [','] + (EntriesText(entries[1..]) + end)))))))
  {
    hide TextOf, WellFormed, IsGap, QuotedText, E.AllAllowed;
    var e := entries[0];
    var more := if |entries| == 1 then "" else "," + EntriesText(entries[1..]);
    var value := TextOf(e.syntax) + (e.after + more);
    assert EntriesText(entries) == e.before + (QuotedText(e.name) + (e.middle + (":" + (e.gap + value))));
    hide *;
    Shift(e.before, QuotedText(e.name), e.middle, ":" + (e.gap + value), end);
    Shift(":", e.gap, TextOf(e.syntax), e.after + more, end);
    Regroup(e.after, more, end);
    if |entries| > 1 {
      Regroup(",", EntriesText(entries[1..]), end);
    } else {
      assert "" + end == end;
    }
  }

  /** Members followed by the end of their object, or by something else. */
  lemma {:induction false} ReadEntriesSyntax(entries: seq<Entry>, acc: seq<Member>, previous: string, c: char,
    rest: string, depth: nat)
    requires entries != [] && EntriesAreGood(entries) && IsStray(c)
    ensures ReadMembers(EntriesText(entries) + ([c] + rest), depth, acc, previous) ==
      if depth + EntriesNesting(entries) > 1000 then Failed(StackLimit)
      else if c == '}' then Done(Obj(Assigned(acc, entries)), rest)
      else Failed(Syntax)
    decreases entries
  {
    hide ReadValue, ReadMembers, TextOf, Denotes, WellFormed, EntryIsGood, EntriesText, Nesting, SetMember, IsStray;
    hide QuotedText, E.ValueOfAll;
    var e := entries[0];
    EntriesParts(entries, [c] + rest);
    GoodEntry(e);
    if |entries| == 1 {
      EndsBehind(e.after, c, rest);
      ReadSyntax(e.syntax, e.after + ([c] + rest), depth);
      ReadEntryThen(e, acc, previous, c, rest, depth);
      StrayIsNoComma();
      LastEntry(acc, entries);
    } else {
      var tail := EntriesText(entries[1..]) + ([c] + rest);
      EndsBehind(e.after, ',', tail);
      ReadSyntax(e.syntax, e.after + ([','] + tail), depth);
      ReadEntryThen(e, acc, previous, ',', tail, depth);
      var name, value := E.ValueOfAll(e.name), Denotes(e.syntax);
      ReadEntriesSyntax(entries[1..], SetMember(acc, name, value), name, c, rest, depth);
    }
  }

  lemma GoodEntry(e: Entry)
    requires EntryIsGood(e)
    ensures IsGap(e.after) && E.AllAllowed(e.name)
  {
  }

  lemma LastEntry(acc: seq<Member>, entries: seq<Entry>)
    requires |entries| == 1 && EntriesAreGood(entries)
    ensures EntryIsGood(entries[0]) && WellFormed(entries[0].syntax)
    ensures Assigned(acc, entries) == SetMember(acc, E.ValueOfAll(entries[0].name), Denotes(entries[0].syntax))
    ensures EntriesNesting(entries) == Nesting(entries[0].syntax)
  {
    hide Denotes, Nesting, SetMember, E.ValueOfAll;
    NoItems();
    assert entries[1..] == [];
  }

  lemma {:induction false} ReadObjectSyntax(j: Syntax, rest: string, depth: nat)
    requires WellFormed(j) && j.Object? && depth < 1000
    ensures ReadValue(TextOf(j) + rest, depth) == Expected(j, rest, depth)
    decreases j, 0
  {
    hide ReadValue, ReadMembers, EntriesText, IsGap, Assigned, EntriesNesting, EntriesAreGood;
    if j.entries == [] {
      ContainerParts("{", j.gap, "}", rest);
      ReadNoMembers(j.gap, rest, depth);
      NoItems();
    } else {
      ContainerParts("{", EntriesText(j.entries), "}", rest);
      OpensObject(EntriesText(j.entries) + (['}'] + rest), depth);
      ReadEntriesSyntax(j.entries, [], "", '}', rest, depth + 1);
    }
  }

  // Documents

  /** A document of white space, a text and anything behind it that does not go on a number. */
  lemma ReadsEveryText(gap: string, j: Syntax, rest: string)
    requires IsGap(gap) && WellFormed(j) && (j.Number? ==> EndsNumber(rest))
    requires '\0' !in TextOf(j) && '\0' !in rest
    ensures ReadDocument(gap + (TextOf(j) + rest)) == Expected(j, rest, 0)
  {
    hide ReadValue, TextOf, WellFormed, Expected, IsGap;
    GapIsSpaces(gap);
    assert '\0' !in gap by {
      hide *;
      NoNulInGap(gap);
    }
    CStringIsWhole(gap + (TextOf(j) + rest));
    ReadAfterSpaces(gap, TextOf(j) + rest, 0);
    ReadSyntax(j, rest, 0);
  }

  lemma NoNulInGap(gap: string)
    requires IsGap(gap)
    ensures '\0' !in gap
  {
  }

  /** JsonDocument::Parse on such a document. */
  method ParseText(document: string, ghost gap: string, ghost j: Syntax, ghost rest: string)
    returns (result: Result, value: Value)
    requires IsGap(gap) && WellFormed(j) && (j.Number? ==> EndsNumber(rest))
    requires document == gap + (TextOf(j) + rest) && '\0' !in document
    ensures if Nesting(j) <= 1000 then result == Read && value == Denotes(j) else result == Thrown
  {
    hide ReadValue, TextOf, WellFormed, IsGap, Denotes, Nesting;
    ReadsEveryText(gap, j, rest);
    CStringIsWhole(document);
    var reader := new Reader(document);
    result := reader.Parse();
    value := if result == Read then reader.nodes[0] else Null;
  }
}
