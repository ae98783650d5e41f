/** How the writer lays a document out: which arrays go on one line, and what stands on the lines of the others and of
    objects. */
module JsonLayout {
  import opened JsonValue
  import opened JsonStrings
  import opened JsonWriter
  import opened Sequences

  /** Scalars and empty containers, separated by a comma and a space. */
  function Joined(items: seq<Value>): string
    requires items != [] && forall k | 0 <= k < |items| :: items[k].IsLeaf()
  {
    if |items| == 1 then LeafText(items[0]) else Joined(items[..|items| - 1]) + ", " + LeafText(items[|items| - 1])
  }

  /** An array goes on one line when it has at most 24 items, all of them scalars or empty containers, and the line,
      with a space inside of either bracket, is shorter than 74 characters. */
  predicate FitsLine(items: seq<Value>)
    requires items != []
  {
    && |items| <= 24 && (forall k | 0 <= k < |items| :: items[k].IsLeaf())
    && |"[ " + Joined(items) + " ]"| < 74
  }

  lemma {:induction false} JoinedLength(items: seq<Value>)
    requires items != [] && forall k | 0 <= k < |items| :: items[k].IsLeaf()
    ensures |Joined(items)| == (|items| - 1) * 2 + LeafLengths(items)
  {
    hide LeafText;
    if |items| == 1 {
      assert items[..0] == [];
    } else {
      JoinedLength(items[..|items| - 1]);
    }
  }

  lemma MultilineExactly(items: seq<Value>)
    requires items != []
    ensures IsMultiline(items) <==> !FitsLine(items)
  {
    if forall k | 0 <= k < |items| :: items[k].IsLeaf() {
      JoinedLength(items);
    }
  }

  lemma {:induction false} ItemsAreJoined(items: seq<Value>, unit: string, indent: string, lead: string, layout: Layout)
    requires items != [] && (forall k | 0 <= k < |items| :: items[k].IsLeaf()) && layout.next == " "
    ensures ItemsText(items, unit, indent, lead, layout) == lead + Joined(items) + layout.last
  {
    hide LeafText;
    if |items| > 1 {
      ItemsAreJoined(items[1..], unit, indent, " ", layout);
      JoinedFirst(items);
      JoinShift(lead, LeafText(items[0]), Joined(items[1..]), layout.last);
    }
  }

  lemma JoinShift(lead: string, first: string, others: string, last: string)
    ensures lead + first + "," + (" " + others + last) == lead + (first + ", " + others) + last
  {
    assert "," + " " == ", ";
  }

  lemma {:induction false} JoinedFirst(items: seq<Value>)
    requires |items| > 1 && forall k | 0 <= k < |items| :: items[k].IsLeaf()
    ensures Joined(items) == LeafText(items[0]) + ", " + Joined(items[1..])
  {
    hide LeafText;
    var front := items[..|items| - 1];
    if |items| == 2 {
      assert front == [items[0]] && items[1..] == [items[1]];
    } else {
      JoinedFirst(front);
      assert front[1..] == items[1..][..|items| - 2];
      Regroup(LeafText(items[0]) + ", ", Joined(front[1..]), ", ");
      Regroup(LeafText(items[0]) + ", ", Joined(front[1..]) + ", ", LeafText(items[|items| - 1]));
    }
  }

  /** An array on one line: only with an indentation there are spaces inside of the brackets. */
  lemma ArrayOnLine(items: seq<Value>, unit: string, indent: string, indented: bool)
    requires items != [] && FitsLine(items)
    ensures Text(Arr(items), unit, indent, indented) ==
      if unit == "" then "[" + Joined(items) + "]" else "[ " + Joined(items) + " ]"
  {
    hide IsMultiline, Joined;
    MultilineExactly(items);
    SingleLine(items, unit, indent);
    var layout := ArrayLayout(items, unit, indent);
    ItemsAreJoined(items, unit, indent + unit, layout.first, layout);
    OneLine(layout.first, Joined(items));
  }

  lemma OneLine(edge: string, inside: string)
    ensures "" + "[" + (edge + inside + edge) + "]" == "[" + edge + inside + edge + "]"
    ensures edge == "" ==> "[" + edge + inside + edge + "]" == "[" + inside + "]"
    ensures edge == " " ==> "[" + edge + inside + edge + "]" == "[ " + inside + " ]"
  {
  }

  /** The start of a line; without an indentation there are no lines. */
  function Start(unit: string, indent: string): string {
    if unit == "" then "" else "\n" + indent
  }

  /** The items of an array on lines of their own. */
  function ItemLines(items: seq<Value>, unit: string, indent: string): string
    requires items != []
  {
    Start(unit, indent) + Text(items[0], unit, indent, true) +
    if |items| == 1 then "" else "," + ItemLines(items[1..], unit, indent)
  }

  function MemberLines(members: seq<Member>, unit: string, indent: string): string
    requires members != []
  {
    Start(unit, indent) + Quote(members[0].name) + (if unit == "" then ":" else " : ") +
    Text(members[0].value, unit, indent, false) +
    if |members| == 1 then "" else "," + MemberLines(members[1..], unit, indent)
  }

  lemma {:induction false} ItemsAreLines(items: seq<Value>, unit: string, indent: string, layout: Layout)
    requires items != [] && layout.next == Start(unit, indent)
    ensures ItemsText(items, unit, indent, layout.next, layout) == ItemLines(items, unit, indent) + layout.last
  {
    hide Text;
    var line := Start(unit, indent) + Text(items[0], unit, indent, true);
    if |items| == 1 {
      Regroup(line, "", "");
    } else {
      ItemsAreLines(items[1..], unit, indent, layout);
      Regroup(line, ",", ItemLines(items[1..], unit, indent) + layout.last);
      Regroup(",", ItemLines(items[1..], unit, indent), layout.last);
      Regroup(line, "," + ItemLines(items[1..], unit, indent), layout.last);
    }
  }

  lemma {:induction false} MembersAreLines(members: seq<Member>, unit: string, indent: string)
    requires members != []
    ensures MembersText(members, unit, indent) == MemberLines(members, unit, indent)
  {
    hide Text, Quote;
    var line := MemberText(members[0], unit, indent);
    if |members| == 1 {
      Regroup(line, "", "");
    } else {
      MembersAreLines(members[1..], unit, indent);
      Regroup(line, ",", MemberLines(members[1..], unit, indent));
    }
  }

  /** Any other array has its items on lines of their own. What does not stand at the start of a line starts a new
      one. */
  lemma ArrayOnLines(items: seq<Value>, unit: string, indent: string, indented: bool)
    requires items != [] && !FitsLine(items)
    ensures Text(Arr(items), unit, indent, indented) ==
      (if indented then "" else Start(unit, indent)) +
      "[" + ItemLines(items, unit, indent + unit) + Start(unit, indent) + "]"
  {
    hide IsMultiline, ItemLines, FitsLine;
    MultilineExactly(items);
    var layout := ArrayLayout(items, unit, indent);
    ItemsAreLines(items, unit, indent + unit, layout);
    Bracketed(if indented then "" else Start(unit, indent), "[", ItemLines(items, unit, indent + unit),
      Start(unit, indent), "]");
  }

  /** And so has an object its members. */
  lemma ObjectOnLines(members: seq<Member>, unit: string, indent: string, indented: bool)
    requires members != []
    ensures Text(Obj(members), unit, indent, indented) ==
      (if indented then "" else Start(unit, indent)) +
      "{" + MemberLines(members, unit, indent + unit) + Start(unit, indent) + "}"
  {
    hide MemberLines;
    MembersAreLines(members, unit, indent + unit);
    Bracketed(if indented then "" else Start(unit, indent), "{", MemberLines(members, unit, indent + unit),
      Start(unit, indent), "}");
  }

  lemma Bracketed(lead: string, open: string, lines: string, last: string, close: string)
    ensures lead + open + (lines + last) + close == lead + open + lines + last + close
  {
  }
}
