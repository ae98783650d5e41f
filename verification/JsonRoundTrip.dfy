/** Reading what the writer printed gives the value back, for every value tree and either
    indentation, exactly as long as the nesting stays within the reader's stack limit. */
module JsonRoundTrip {
  import opened Digits
  import opened JsonValue
  import opened JsonNumbers
  import opened JsonStrings
  import opened JsonTokens
  import opened JsonWriter
  import opened JsonReader
  import opened Order
  import opened Sequences
  import E = JsonEscapes
  import G = JsonGrammar

  /** What reading a printed value gives: the value up to integer payload and the text after it,
      or the stack limit. */
  function Expected(v: Value, rest: string, depth: nat): Parse<Value> {
    if depth + v.Depth() <= STACK_LIMIT then Done(Canonical(v), rest) else Failed(StackLimit)
  }

  /** Nothing behind a printed value is taken for a part of it. */
  predicate Separated(v: Value, rest: string) {
    v.Int? || v.UInt? ==> EndsNumber(rest)
  }

  predicate White(layout: Layout) {
    AllSpaces(layout.first) && AllSpaces(layout.next) && AllSpaces(layout.last)
  }

  lemma LayoutIsWhite(items: seq<Value>, unit: string, indent: string)
    requires AllSpaces(unit) && AllSpaces(indent)
    ensures White(ArrayLayout(items, unit, indent)) && AllSpaces(NewLine(unit, indent)) && AllSpaces(indent + unit)
  {
    hide IsMultiline;
  }

  lemma SignedStart(n: int)
    ensures Signed(n) != "" && (IsDigit(Signed(n)[0]) || Signed(n)[0] == '-') && AllDigits(Signed(n)[1..])
  {
    NumeralOfDecimal(if n < 0 then -n else n);
  }

  // What the writer prints is a JSON text

  function NumberTree(n: int): G.Syntax {
    G.Number(n < 0, DigitsOf(if n < 0 then -n else n))
  }

  /** White space in front of a value that does not go on a line. */
  function Lead(v: Value, unit: string, indent: string): string {
    if v.IsLeaf() || (v.Arr? && !IsMultiline(v.items)) then "" else NewLine(unit, indent)
  }

  /** The parts of the text of a value. */
  function TreeOf(v: Value, unit: string, indent: string): G.Syntax
    decreases v
  {
    match v
    case Null => G.Word("null")
    case Bool(b) => G.Word(if b then "true" else "false")
    case Int(i) => NumberTree(i)
    case UInt(u) => NumberTree(u)
    case Str(s) => G.Quoted(E.ChosenAll(s))
    case Arr(items) =>
      var layout := ArrayLayout(items, unit, indent);
      G.Array("", ItemTrees(items, unit, indent + unit, layout.first, layout))
    case Obj(members) => G.Object("", EntryTrees(members, unit, indent + unit, NewLine(unit, indent)))
  }

  function ItemTrees(items: seq<Value>, unit: string, indent: string, lead: string, layout: Layout):
    (trees: seq<G.Item>)
    ensures |trees| == |items|
    decreases items
  {
    if items == [] then []
    else
      [G.Item(lead, TreeOf(items[0], unit, indent), if |items| == 1 then layout.last else "")] +
      ItemTrees(items[1..], unit, indent, layout.next, layout)
  }

  function EntryTrees(members: seq<Member>, unit: string, indent: string, last: string): (trees: seq<G.Entry>)
    ensures |trees| == |members|
    decreases members
  {
    if members == [] then []
    else
      var edge, value := if unit == "" then "" else " ", members[0].value;
      [G.Entry(NewLine(unit, indent), E.ChosenAll(members[0].name), edge, edge + Lead(value, unit, indent),
        TreeOf(value, unit, indent), if |members| == 1 then last else "")] +
      EntryTrees(members[1..], unit, indent, last)
  }

  lemma SpacesAreGap(s: string)
    requires AllSpaces(s)
    ensures G.IsGap(s)
  {
  }

  lemma NumberTreeIsGood(n: int)
    requires MIN_INT64 <= n <= MAX_UINT64
    ensures G.WellFormed(NumberTree(n)) && G.TextOf(NumberTree(n)) == Signed(n)
    ensures G.Denotes(NumberTree(n)) == ReadInteger(n)
  {
    var size := if n < 0 then -n else n;
    DecimalIsDigits(size);
    hide NumberOf, Decimal;
    var digits := DigitsOf(size);
    assert G.DigitText(digits) == Decimal(size) by {
      SameDigits(digits, G.DigitText(digits), Decimal(size));
    }
  }

  lemma SameDigits(digits: seq<nat>, a: string, b: string)
    requires AreDigits(10, digits, a) && AreDigits(10, digits, b)
    ensures a == b
  {
    forall k | 0 <= k < |digits| ensures a[k] == b[k] {
      assert SMALL[digits[k]] == CAPITALS[digits[k]];
    }
  }

  lemma {:induction false} TreeIsGood(v: Value, unit: string, indent: string)
    requires AllSpaces(unit) && AllSpaces(indent)
    ensures G.WellFormed(TreeOf(v, unit, indent))
    decreases v
  {
    hide IsMultiline, NumberOf, E.AllAllowed;
    match v {
      case Int(i) => NumberTreeIsGood(i);
      case UInt(u) => NumberTreeIsGood(u);
      case Arr(items) =>
        LayoutIsWhite(items, unit, indent);
        var layout := ArrayLayout(items, unit, indent);
        ItemTreesAreGood(items, unit, indent + unit, layout.first, layout);
      case Obj(members) =>
        LayoutIsWhite([], unit, indent);
        EntryTreesAreGood(members, unit, indent + unit, NewLine(unit, indent));
      case _ =>
    }
  }

  lemma {:induction false} ItemTreesAreGood(items: seq<Value>, unit: string, indent: string,
    lead: string, layout: Layout)
    requires AllSpaces(unit) && AllSpaces(indent) && AllSpaces(lead) && White(layout)
    ensures G.ItemsAreGood(ItemTrees(items, unit, indent, lead, layout))
    decreases items
  {
    hide TreeOf, G.WellFormed;
    if items != [] {
      SpacesAreGap(lead);
      SpacesAreGap(layout.last);
      TreeIsGood(items[0], unit, indent);
      ItemTreesAreGood(items[1..], unit, indent, layout.next, layout);
    }
  }

  lemma {:induction false} EntryTreesAreGood(members: seq<Member>, unit: string, indent: string, last: string)
    requires AllSpaces(unit) && AllSpaces(indent) && AllSpaces(last)
    ensures G.EntriesAreGood(EntryTrees(members, unit, indent, last))
    decreases members
  {
    hide TreeOf, G.WellFormed, NewLine, E.AllAllowed, IsMultiline;
    if members != [] {
      var edge := if unit == "" then "" else " ";
      LayoutIsWhite([], unit, indent);
      SpacesAreGap(NewLine(unit, indent));
      SpacesAreGap(last);
      assert G.IsGap(edge + Lead(members[0].value, unit, indent));
      TreeIsGood(members[0].value, unit, indent);
      EntryTreesAreGood(members[1..], unit, indent, last);
    }
  }

  /** The writer's text is that of its tree. */
  lemma {:induction false} TextIsTree(v: Value, unit: string, indent: string, indented: bool)
    requires AllSpaces(unit) && AllSpaces(indent)
    ensures G.WellFormed(TreeOf(v, unit, indent))
    ensures Text(v, unit, indent, indented) ==
      (if indented then "" else Lead(v, unit, indent)) + G.TextOf(TreeOf(v, unit, indent))
    decreases v
  {
    hide IsMultiline, NumberOf, E.AllAllowed, ArrayLayout, NewLine, ItemsText, MembersText, ItemTrees, EntryTrees;
    TreeIsGood(v, unit, indent);
    var lead := if indented then "" else Lead(v, unit, indent);
    if v.IsLeaf() {
      LeafIsTree(v, unit, indent);
      Nothing(LeafText(v));
    } else if v.Arr? {
      LayoutIsWhite(v.items, unit, indent);
      var layout := ArrayLayout(v.items, unit, indent);
      ItemsTextIsTree(v.items, unit, indent + unit, layout.first, layout);
      Brackets(lead, "[", ItemsText(v.items, unit, indent + unit, layout.first, layout), "", "]");
    } else {
      LayoutIsWhite([], unit, indent);
      EntriesTextIsTree(v.members, unit, indent + unit, NewLine(unit, indent));
      Brackets(lead, "{", MembersText(v.members, unit, indent + unit), NewLine(unit, indent), "}");
    }
  }

  lemma Nothing(s: string)
    ensures "" + s == s
  {
  }

  lemma Brackets(lead: string, open: string, inside: string, last: string, close: string)
    ensures lead + open + inside + last + close == lead + (open + ((inside + last) + close))
    ensures lead + open + inside + close == lead + (open + (inside + close))
  {
  }

  lemma ItemShift(lead: string, text: string, last: string)
    ensures lead + text + last == lead + (text + (last + ""))
    ensures lead + text == lead + (text + "")
  {
  }

  lemma ItemsShift(lead: string, text: string, more: string)
    ensures (lead + text) + "," + more == lead + (text + ("" + ("," + more)))
  {
  }

  lemma {:induction false} ItemsTextIsTree(items: seq<Value>, unit: string, indent: string,
    lead: string, layout: Layout)
    requires items != [] && AllSpaces(unit) && AllSpaces(indent) && AllSpaces(lead) && White(layout)
    ensures G.ItemsAreGood(ItemTrees(items, unit, indent, lead, layout))
    ensures ItemsText(items, unit, indent, lead, layout) == G.ItemsText(ItemTrees(items, unit, indent, lead, layout))
    decreases items
  {
    hide Text, TreeOf, G.TextOf, G.WellFormed;
    ItemTreesAreGood(items, unit, indent, lead, layout);
    TextIsTree(items[0], unit, indent, true);
    var text := Text(items[0], unit, indent, true);
    Nothing(G.TextOf(TreeOf(items[0], unit, indent)));
    if |items| == 1 {
      ItemShift(lead, text, layout.last);
    } else {
      ItemsTextIsTree(items[1..], unit, indent, layout.next, layout);
      ItemsShift(lead, text, ItemsText(items[1..], unit, indent, layout.next, layout));
    }
  }

  lemma MemberShift(line: string, quoted: string, edge: string, lead: string, text: string, last: string, more: string)
    ensures line + quoted + (edge + (":" + edge)) + (lead + text) + (last + more) ==
      line + (quoted + (edge + (":" + ((edge + lead) + (text + (last + more))))))
  {
    hide *;
    Regroup(line + quoted, edge + (":" + edge), lead + text);
    Regroup(line + quoted, (edge + (":" + edge)) + (lead + text), last + more);
    Regroup(line, quoted, ((edge + (":" + edge)) + (lead + text)) + (last + more));
    Regroup(edge, ":" + edge, lead + text);
    Regroup(":", edge, lead + text);
    Regroup(edge, lead, text);
    Regroup(edge, ":" + ((edge + lead) + text), last + more);
    Regroup(":", (edge + lead) + text, last + more);
    Regroup(edge + lead, text, last + more);
  }

  lemma MemberParts(m: Member, unit: string, indent: string)
    ensures var edge := if unit == "" then "" else " ";
      MemberText(m, unit, indent) ==
      NewLine(unit, indent) + Quote(m.name) + (edge + (":" + edge)) + Text(m.value, unit, indent, false)
  {
    hide Text, NewLine, Quote;
    assert Colon(unit) == if unit == "" then "" + (":" + "") else " " + (":" + " ");
  }

  lemma {:induction false} EntriesTextIsTree(members: seq<Member>, unit: string, indent: string, last: string)
    requires members != [] && AllSpaces(unit) && AllSpaces(indent) && AllSpaces(last)
    ensures G.EntriesAreGood(EntryTrees(members, unit, indent, last))
    ensures MembersText(members, unit, indent) + last == G.EntriesText(EntryTrees(members, unit, indent, last))
    decreases members
  {
    hide Text, TreeOf, G.TextOf, G.WellFormed, NewLine, Quote, MemberText, Lead, G.QuotedText, E.ChosenAll;
    var m, edge := members[0], if unit == "" then "" else " ";
    EntryTreesAreGood(members, unit, indent, last);
    TextIsTree(m.value, unit, indent, false);
    MemberParts(m, unit, indent);
    QuoteIsTree(m.name);
    var lead, text := Lead(m.value, unit, indent), G.TextOf(TreeOf(m.value, unit, indent));
    if |members| == 1 {
      MemberShift(NewLine(unit, indent), Quote(m.name), edge, lead, text, last, "");
      Regroup(last, "", "");
    } else {
      var more := MembersText(members[1..], unit, indent) + last;
      EntriesTextIsTree(members[1..], unit, indent, last);
      MemberShift(NewLine(unit, indent), Quote(m.name), edge, lead, text, "", "," + more);
      Nothing("," + more);
      Regroup(MemberText(m, unit, indent) + ",", MembersText(members[1..], unit, indent), last);
      Regroup(MemberText(m, unit, indent), ",", more);
    }
  }

  lemma QuoteIsTree(s: string)
    ensures Quote(s) == G.QuotedText(E.ChosenAll(s))
  {
    hide Escape, E.AllAllowed, E.TextOfAll;
    E.EscapeIsChosen(s);
    Regroup("\"", Escape(s), "\"");
  }

  lemma LeafIsTree(v: Value, unit: string, indent: string)
    requires v.IsLeaf() && G.WellFormed(TreeOf(v, unit, indent))
    ensures LeafText(v) == G.TextOf(TreeOf(v, unit, indent))
  {
    hide Signed, NumberTree, NumberOf, E.AllAllowed, Quote, G.QuotedText;
    match v {
      case Int(i) => NumberTreeIsGood(i);
      case UInt(u) => NumberTreeIsGood(u);
      case Str(s) =>
        QuoteIsTree(s);
      case _ =>
    }
  }

  // What the tree denotes

  function CanonicalItems(items: seq<Value>): (r: seq<Value>)
    ensures |r| == |items|
  {
    seq(|items|, k requires 0 <= k < |items| => Canonical(items[k]))
  }

  function CanonicalMembers(members: seq<Member>): (r: seq<Member>)
    ensures |r| == |members|
  {
    seq(|members|, k requires 0 <= k < |members| => Member(members[k].name, Canonical(members[k].value)))
  }

  lemma CanonicalOfContainer(v: Value)
    ensures v.Arr? ==> Canonical(v) == Arr(CanonicalItems(v.items))
    ensures v.Obj? ==> Canonical(v) == Obj(CanonicalMembers(v.members))
  {
    if v.Arr? {
      assert Canonical(v).items == CanonicalItems(v.items);
    } else if v.Obj? {
      assert Canonical(v).members == CanonicalMembers(v.members);
    }
  }

  lemma {:induction false} TreeDenotes(v: Value, unit: string, indent: string)
    requires v.Valid() && G.WellFormed(TreeOf(v, unit, indent))
    ensures G.Denotes(TreeOf(v, unit, indent)) == Canonical(v) && G.Nesting(TreeOf(v, unit, indent)) == v.Depth()
    decreases v
  {
    hide IsMultiline, NumberOf, E.AllAllowed, ArrayLayout, NewLine;
    CanonicalOfContainer(v);
    match v {
      case Int(i) => NumberTreeIsGood(i);
      case UInt(u) => NumberTreeIsGood(u);
      case Arr(items) =>
        var layout := ArrayLayout(items, unit, indent);
        ItemTreesDenote(items, unit, indent + unit, layout.first, layout);
      case Obj(members) =>
        EntryTreesDenote(members, [], unit, indent + unit, NewLine(unit, indent));
        assert [] + CanonicalMembers(members) == CanonicalMembers(members);
      case _ =>
    }
  }

  lemma {:induction false} ItemTreesDenote(items: seq<Value>, unit: string, indent: string,
    lead: string, layout: Layout)
    requires forall k | 0 <= k < |items| :: items[k].Valid()
    requires G.ItemsAreGood(ItemTrees(items, unit, indent, lead, layout))
    ensures var trees := ItemTrees(items, unit, indent, lead, layout);
      G.Values(trees) == CanonicalItems(items) && G.ItemsNesting(trees) == ItemsDepth(items)
    decreases items
  {
    hide TreeOf, Canonical, G.Denotes, G.WellFormed;
    if items != [] {
      TreeDenotes(items[0], unit, indent);
      ItemTreesDenote(items[1..], unit, indent, layout.next, layout);
      assert CanonicalItems(items) == [Canonical(items[0])] + CanonicalItems(items[1..]);
    }
  }

  lemma {:induction false} EntryTreesDenote(members: seq<Member>, acc: seq<Member>, unit: string, indent: string,
    last: string)
    requires Sorted(members) && forall k | 0 <= k < |members| :: members[k].value.Valid()
    requires forall j, k | 0 <= j < |acc| && 0 <= k < |members| :: Less(acc[j].name, members[k].name)
    requires G.EntriesAreGood(EntryTrees(members, unit, indent, last))
    ensures var trees := EntryTrees(members, unit, indent, last);
      G.Assigned(acc, trees) == acc + CanonicalMembers(members) && G.EntriesNesting(trees) == MembersDepth(members)
    decreases members
  {
    hide TreeOf, Canonical, G.Denotes, G.WellFormed, SetMember;
    if members == [] {
      Regroup(acc, [], []);
    } else {
      var m := Member(members[0].name, Canonical(members[0].value));
      TreeDenotes(members[0].value, unit, indent);
      SetMemberAppends(acc, m.name, m.value);
      EntryTreesDenote(members[1..], acc + [m], unit, indent, last);
      assert CanonicalMembers(members) == [m] + CanonicalMembers(members[1..]);
      Regroup(acc, [m], CanonicalMembers(members[1..]));
    }
  }

  // The theorem

  /** Reading a printed value, with any text behind it, gives the value and that text. */
  lemma ReadText(v: Value, unit: string, indent: string, indented: bool, rest: string, depth: nat)
    requires v.Valid() && AllSpaces(unit) && AllSpaces(indent) && Separated(v, rest)
    ensures ReadValue(Text(v, unit, indent, indented) + rest, depth) == Expected(v, rest, depth)
  {
    var j, lead := TreeOf(v, unit, indent), if indented then "" else Lead(v, unit, indent);
    LayoutIsWhite([], unit, indent);
    assert j.Number? ==> v.Int? || v.UInt?;
    hide ReadValue, Text, NewLine, TreeOf, Canonical, IsMultiline, EndsNumber;
    hide G.TextOf, G.Denotes, G.Nesting, G.WellFormed;
    TextIsTree(v, unit, indent, indented);
    TreeDenotes(v, unit, indent);
    Regroup(lead, G.TextOf(j), rest);
    ReadAfterSpaces(lead, G.TextOf(j) + rest, depth);
    G.ReadSyntax(j, rest, depth);
  }

  lemma {:induction false} TextHasNoNul(v: Value, unit: string, indent: string, indented: bool)
    requires AllSpaces(unit) && AllSpaces(indent)
    ensures '\0' !in Text(v, unit, indent, indented)
    decreases v
  {
    hide IsMultiline, Escape, ArrayLayout;
    LayoutIsWhite([], unit, indent);
    if v.IsLeaf() {
      LeafHasNoNul(v);
    } else if v.Arr? {
      LayoutIsWhite(v.items, unit, indent);
      var layout := ArrayLayout(v.items, unit, indent);
      ItemsTextHasNoNul(v.items, unit, indent + unit, layout.first, layout);
    } else {
      MembersTextHasNoNul(v.members, unit, indent + unit);
    }
  }

  lemma LeafHasNoNul(v: Value)
    requires v.IsLeaf()
    ensures '\0' !in LeafText(v)
  {
    hide Escape;
    match v {
      case Int(i) => SignedStart(i);
      case UInt(u) => SignedStart(u);
      case Str(s) => E.EscapeHasNoControl(s);
      case _ =>
    }
  }

  lemma {:induction false} ItemsTextHasNoNul(items: seq<Value>, unit: string, indent: string,
    lead: string, layout: Layout)
    requires items != []
    requires AllSpaces(unit) && AllSpaces(indent) && AllSpaces(lead) && White(layout)
    ensures '\0' !in ItemsText(items, unit, indent, lead, layout)
    decreases items
  {
    hide Text;
    TextHasNoNul(items[0], unit, indent, true);
    if |items| > 1 {
      ItemsTextHasNoNul(items[1..], unit, indent, layout.next, layout);
    }
  }

  lemma {:induction false} MembersTextHasNoNul(members: seq<Member>, unit: string, indent: string)
    requires members != [] && AllSpaces(unit) && AllSpaces(indent)
    ensures '\0' !in MembersText(members, unit, indent)
    decreases members
  {
    hide Text, Escape;
    LayoutIsWhite([], unit, indent);
    E.EscapeHasNoControl(members[0].name);
    TextHasNoNul(members[0].value, unit, indent, false);
    if |members| > 1 {
      MembersTextHasNoNul(members[1..], unit, indent);
    }
  }

  /** Parsing what the writer printed: for every value tree and every white indentation, the value
      comes back, up to integer payload, if it is nested within the stack limit; beyond the limit
      the reader always gives up. */
  lemma RoundTrip(v: Value, unit: string)
    requires v.Valid() && AllSpaces(unit)
    ensures ReadDocument(Text(v, unit, "", true)) == Expected(v, "", 0)
  {
    hide ReadValue;
    var text := Text(v, unit, "", true);
    TextHasNoNul(v, unit, "", true);
    CStringIsWhole(text);
    ReadText(v, unit, "", true, "", 0);
    assert text + "" == text;
  }

  /** Printing loses nothing that reading can tell: the texts of two values, whatever their
      indentations, read back equal exactly when the values are the same up to integer payload. */
  lemma PrintedAlike(v: Value, w: Value, unit: string, unit': string)
    requires v.Valid() && w.Valid() && AllSpaces(unit) && AllSpaces(unit')
    requires v.Depth() <= STACK_LIMIT && w.Depth() <= STACK_LIMIT
    ensures ReadDocument(Text(v, unit, "", true)) == ReadDocument(Text(w, unit', "", true)) <==> Same(v, w)
  {
    RoundTrip(v, unit);
    RoundTrip(w, unit');
    CanonicalDecidesSame(v, w);
  }

  /** JsonDocument::Write followed by JsonDocument::Parse, on the writer and reader objects. */
  method WriteThenParse(root: Value, pretty: bool) returns (text: string, ok: bool, back: Value)
    requires root.Valid()
    ensures text == Text(root, if pretty then "\t" else "", "", true)
    ensures ok <==> root.Depth() <= STACK_LIMIT
    ensures ok ==> Same(back, root)
  {
    hide ReadValue, Text;
    var unit := if pretty then "\t" else "";
    var writer := new StreamWriter(unit);
    writer.Write(root);
    text := writer.sout;
    assert text == "" + Text(root, unit, "", true);
    RoundTrip(root, unit);
    TextHasNoNul(root, unit, "", true);
    CStringIsWhole(text);
    var reader := new Reader(text);
    var result := reader.Parse();
    ok := result == Read;
    back := if ok then reader.nodes[0] else Null;
    CanonicalIsSame(root);
  }
}
