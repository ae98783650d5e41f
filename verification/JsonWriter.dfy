/** BuiltStyledStreamWriter with commentStyle None: the layout as a function of the value, and the
    writer object, whose buffers and flags are shown to produce exactly that text. */
module JsonWriter {
  import opened JsonValue
  import opened JsonNumbers
  import opened JsonStrings

  const RIGHT_MARGIN := 74

  /** colonSymbol_: spaces around the colon unless the indentation is empty. */
  function Colon(unit: string): string {
    if unit == "" then ":" else " : "
  }

  /** writeIndent: nothing at all when the indentation is empty. */
  function NewLine(unit: string, indent: string): string {
    if unit == "" then "" else "\n" + indent
  }

  /** The text of a value that is printed by one pushValue call. */
  function LeafText(v: Value): string
    requires v.IsLeaf()
  {
    match v
    case Null => "null"
    case Bool(b) => if b then "true" else "false"
    case Int(i) => Signed(i)
    case UInt(u) => Signed(u)
    case Str(s) => Quote(s)
    case Arr(_) => "[]"
    case Obj(_) => "{}"
  }

  /** Total length of the texts of a list of leaves. */
  function LeafLengths(items: seq<Value>): nat
    requires forall k | 0 <= k < |items| :: items[k].IsLeaf()
  {
    if items == [] then 0
    else LeafLengths(items[..|items| - 1]) + |LeafText(items[|items| - 1])|
  }

  /** Whether an array is spread over several lines: too many items, a non-empty container among
      them, or a single line that would reach the margin. */
  predicate IsMultiline(items: seq<Value>) {
    || |items| * 3 >= RIGHT_MARGIN
    || (exists k | 0 <= k < |items| :: !items[k].IsLeaf())
    || 4 + (|items| - 1) * 2 + LeafLengths(items) >= RIGHT_MARGIN
  }

  /** White space before the first item, before the others and before the bracket. */
  datatype Layout = Layout(first: string, next: string, last: string)

  function ArrayLayout(items: seq<Value>, unit: string, indent: string): Layout {
    if IsMultiline(items) then
      Layout(NewLine(unit, indent + unit), NewLine(unit, indent + unit), NewLine(unit, indent))
    else
      var edge := if unit == "" then "" else " ";
      Layout(edge, " ", edge)
  }

  /** The printed form of a value at an indentation. The flag says that the current line is already
      indented, so that an opening brace or bracket starts no new line. */
  function Text(v: Value, unit: string, indent: string, indented: bool): string
    decreases v
  {
    if v.IsLeaf() then LeafText(v)
    else
      var lead := if indented then "" else NewLine(unit, indent);
      match v
      case Arr(items) =>
        var layout := ArrayLayout(items, unit, indent);
        (if IsMultiline(items) then lead else "") + "[" +
        ItemsText(items, unit, indent + unit, layout.first, layout) + "]"
      case Obj(members) =>
        lead + "{" + MembersText(members, unit, indent + unit) + NewLine(unit, indent) + "}"
  }

  function ItemsText(items: seq<Value>, unit: string, indent: string, lead: string, layout: Layout): string
    requires items != []
    decreases items
  {
    var head := lead + Text(items[0], unit, indent, true);
    if |items| == 1 then head + layout.last
    else head + "," + ItemsText(items[1..], unit, indent, layout.next, layout)
  }

  function MemberText(member: Member, unit: string, indent: string): string
    decreases member
  {
    NewLine(unit, indent) + Quote(member.name) + Colon(unit) + Text(member.value, unit, indent, false)
  }

  function MembersText(members: seq<Member>, unit: string, indent: string): string
    requires members != []
    decreases members
  {
    var head := MemberText(members[0], unit, indent);
    if |members| == 1 then head else head + "," + MembersText(members[1..], unit, indent)
  }

  lemma {:induction false} LeafLengthsOfPrefix(items: seq<Value>, k: nat)
    requires forall k | 0 <= k < |items| :: items[k].IsLeaf()
    requires k < |items|
    ensures LeafLengths(items[..k + 1]) == LeafLengths(items[..k]) + |LeafText(items[k])|
  {
    assert items[..k + 1][..k] == items[..k];
  }

  /** Appending piece by piece and appending the joined pieces give the same string. */
  lemma Shift(p: string, a: string, b: string, c: string, d: string)
    ensures p + a + b + c + d == p + (a + b + c + d)
    ensures p + a + b + c == p + (a + b + c)
    ensures p + "" == p
  {
  }

  lemma ShiftFive(p: string, a: string, b: string, c: string, d: string, e: string)
    ensures p + a + b + c + d + e == p + (a + b + c + d + e)
  {
    Shift(p, a, b, c, d);
    assert p + (a + b + c + d) + e == p + (a + b + c + d + e);
  }

  /** The stream after k items of a non-empty array, in the order the writer appends the pieces. */
  function ItemsWritten(start: string, items: seq<Value>, k: nat, unit: string, indent: string, layout: Layout): string
    requires k <= |items|
  {
    if k == 0 then start
    else
      ItemsWritten(start, items, k - 1, unit, indent, layout) + (if k == 1 then "" else ",") +
      (if k == 1 then layout.first else layout.next) + Text(items[k - 1], unit, indent, true)
  }

  lemma {:induction false} ItemsWrittenIsText(start: string, items: seq<Value>, k: nat, unit: string,
    indent: string, layout: Layout)
    requires k < |items|
    ensures ItemsWritten(start, items, |items|, unit, indent, layout) + layout.last ==
            ItemsWritten(start, items, k, unit, indent, layout) + (if k == 0 then "" else ",") +
            ItemsText(items[k..], unit, indent, if k == 0 then layout.first else layout.next, layout)
    decreases |items| - k
  {
    hide Text;
    var before := ItemsWritten(start, items, k, unit, indent, layout) + (if k == 0 then "" else ",");
    var lead := if k == 0 then layout.first else layout.next;
    var text := Text(items[k], unit, indent, true);
    if k + 1 < |items| {
      ItemsWrittenIsText(start, items, k + 1, unit, indent, layout);
      assert items[k..][1..] == items[k + 1..];
      Shift(before, lead, text, ",", ItemsText(items[k + 1..], unit, indent, layout.next, layout));
    } else {
      Shift(before, lead, text, layout.last, "");
    }
  }

  lemma SingleLine(items: seq<Value>, unit: string, indent: string)
    requires !IsMultiline(items)
    ensures var layout := ArrayLayout(items, unit, indent);
      layout.next == " " && layout.first == layout.last == if unit == "" then "" else " "
  {
  }

  lemma SingleLineItem(start: string, items: seq<Value>, k: nat, unit: string, indent: string, layout: Layout)
    requires k < |items| && items[k].IsLeaf() && layout.next == " "
    ensures (if k == 0 then start + layout.first
             else ItemsWritten(start, items, k, unit, indent, layout) + ", ") + LeafText(items[k]) ==
      ItemsWritten(start, items, k + 1, unit, indent, layout)
  {
    hide LeafText, ItemsText;
    if k == 0 {
      Shift(start, "", "", "", "");
    } else {
      Shift(ItemsWritten(start, items, k, unit, indent, layout), ",", " ", "", "");
      assert "," + " " == ", ";
    }
  }

  lemma SingleLineIsText(start: string, items: seq<Value>, unit: string, indent: string, layout: Layout)
    requires items != []
    ensures var written := ItemsWritten(start, items, |items|, unit, indent, layout);
      var text := start + ItemsText(items, unit, indent, layout.first, layout);
      written + layout.last == text && (layout.last == "" ==> written == text)
  {
    hide Text, ItemsText;
    ItemsWrittenIsText(start, items, 0, unit, indent, layout);
    assert items[0..] == items;
    Shift(start, "", "", "", "");
    Shift(ItemsWritten(start, items, |items|, unit, indent, layout), "", "", "", "");
  }

  function MembersWritten(start: string, members: seq<Member>, k: nat, unit: string, indent: string): string
    requires k <= |members|
  {
    if k == 0 then start
    else
      MembersWritten(start, members, k - 1, unit, indent) + (if k == 1 then "" else ",") +
      MemberText(members[k - 1], unit, indent)
  }

  lemma {:induction false} MembersWrittenIsText(start: string, members: seq<Member>, k: nat,
    unit: string, indent: string)
    requires k < |members|
    ensures MembersWritten(start, members, |members|, unit, indent) ==
            MembersWritten(start, members, k, unit, indent) + (if k == 0 then "" else ",") +
            MembersText(members[k..], unit, indent)
    decreases |members| - k
  {
    hide MemberText;
    var before := MembersWritten(start, members, k, unit, indent) + (if k == 0 then "" else ",");
    var text := MemberText(members[k], unit, indent);
    if k + 1 < |members| {
      MembersWrittenIsText(start, members, k + 1, unit, indent);
      assert members[k..][1..] == members[k + 1..];
      Shift(before, text, ",", MembersText(members[k + 1..], unit, indent), "");
    }
  }

  class StreamWriter {
    const indentation: string
    var sout: string
    var childValues: seq<string>
    var indentString: string
    var addChildValues: bool
    var indented: bool

    constructor (indentation: string)
      ensures this.indentation == indentation && sout == ""
    {
      this.indentation := indentation;
      sout, childValues, indentString, addChildValues, indented := "", [], "", false, false;
    }

    /** Prints a whole document. */
    method Write(root: Value)
      modifies this
      ensures sout == old(sout) + Text(root, indentation, "", true)
    {
      addChildValues := false;
      indented := true;
      indentString := "";
      WriteValue(root);
    }

    method PushValue(value: string)
      modifies `childValues, `sout
      ensures addChildValues ==> childValues == old(childValues) + [value] && sout == old(sout)
      ensures !addChildValues ==> sout == old(sout) + value && childValues == old(childValues)
    {
      if addChildValues {
        childValues := childValues + [value];
      } else {
        sout := sout + value;
      }
    }

    method WriteIndent()
      modifies `sout
      ensures sout == old(sout) + NewLine(indentation, indentString)
    {
      if indentation != "" {
        sout := sout + "\n" + indentString;
      }
    }

    method WriteWithIndent(value: string)
      modifies `sout, `indented
      ensures sout == old(sout) + (if old(indented) then "" else NewLine(indentation, indentString)) + value
      ensures !indented
    {
      if !indented {
        WriteIndent();
      }
      sout := sout + value;
      indented := false;
    }

    method Indent()
      modifies `indentString
      ensures indentString == old(indentString) + indentation
    {
      indentString := indentString + indentation;
    }

    method Unindent()
      requires |indentString| >= |indentation|
      modifies `indentString
      ensures indentString == old(indentString)[..|old(indentString)| - |indentation|]
    {
      indentString := indentString[..|indentString| - |indentation|];
    }

    /** While child texts are collected only leaves are written, and each adds exactly one text. */
    method WriteValue(value: Value)
      requires addChildValues ==> value.IsLeaf()
      modifies this
      ensures addChildValues == old(addChildValues) && indentString == old(indentString)
      ensures addChildValues ==>
        sout == old(sout) && childValues == old(childValues) + [LeafText(value)] && indented == old(indented)
      ensures !addChildValues ==> sout == old(sout) + Text(value, indentation, indentString, old(indented))
      ensures !old(indented) ==> !indented
      decreases value, 2
    {
      match value {
        case Null => PushValue("null");
        case Int(i) =>
          var text := ValueToString(i);
          PushValue(text);
        case UInt(u) =>
          var text := ValueToString(u);
          PushValue(text);
        case Str(s) =>
          var text := ValueToQuotedString(s);
          PushValue(text);
        case Bool(b) => PushValue(if b then "true" else "false");
        case Arr(items) => WriteArrayValue(value);
        case Obj(members) =>
          if members == [] {
            PushValue("{}");
          } else {
            WriteObject(value);
          }
      }
    }

    method WriteObject(value: Value)
      requires value.Obj? && value.members != []
      requires !addChildValues
      modifies this
      ensures !addChildValues && !indented && indentString == old(indentString)
      ensures sout == old(sout) + Text(value, indentation, indentString, old(indented))
      decreases value, 1
    {
      var members := value.members;
      ghost var outer := indentString;
      WriteWithIndent("{");
      Indent();
      ghost var inner := indentString;
      WriteMembers(members);
      Unindent();
      assert indentString == outer;
      WriteWithIndent("}");
      ShiftFive(old(sout), if old(indented) then "" else NewLine(indentation, outer), "{",
        MembersText(members, indentation, inner), NewLine(indentation, outer), "}");
    }

    method WriteMembers(members: seq<Member>)
      requires members != [] && !addChildValues && !indented
      modifies this
      ensures !addChildValues && !indented && indentString == old(indentString)
      ensures sout == old(sout) + MembersText(members, indentation, indentString)
      decreases members, 3
    {
      hide Text, MemberText, MembersText;
      ghost var start := sout;
      for k := 0 to |members|
        invariant !addChildValues && !indented && indentString == old(indentString)
        invariant sout == MembersWritten(start, members, k, indentation, indentString)
      {
        if k > 0 {
          sout := sout + ",";
        }
        WriteMember(members[k]);
      }
      MembersWrittenIsText(start, members, 0, indentation, indentString);
      assert members[0..] == members;
      Shift(start, "", "", "", "");
    }

    method WriteMember(member: Member)
      requires !addChildValues && !indented
      modifies this
      ensures !addChildValues && !indented && indentString == old(indentString)
      ensures sout == old(sout) + MemberText(member, indentation, indentString)
      decreases member, 3
    {
      hide Text;
      var name := ValueToQuotedString(member.name);
      WriteWithIndent(name);
      sout := sout + Colon(indentation);
      WriteValue(member.value);
      Shift(old(sout), NewLine(indentation, indentString), name, Colon(indentation),
        Text(member.value, indentation, indentString, false));
    }

    method WriteArrayValue(value: Value)
      requires value.Arr?
      requires addChildValues ==> value.IsLeaf()
      modifies this
      ensures addChildValues == old(addChildValues) && indentString == old(indentString)
      ensures addChildValues ==>
        sout == old(sout) && childValues == old(childValues) + [LeafText(value)] && indented == old(indented)
      ensures !addChildValues ==> sout == old(sout) + Text(value, indentation, indentString, old(indented))
      ensures !old(indented) ==> !indented
      decreases value, 1
    {
      var items := value.items;
      if items == [] {
        PushValue("[]");
        return;
      }
      var isMultiLine := IsMultilineArray(value);
      if isMultiLine {
        WriteLines(items);
      } else {
        WriteSingleLine(items);
      }
      assert Text(value, indentation, indentString, old(indented)) ==
        (if isMultiLine && !old(indented) then NewLine(indentation, indentString) else "") + "[" +
        ItemsText(items, indentation, indentString + indentation,
          ArrayLayout(items, indentation, indentString).first, ArrayLayout(items, indentation, indentString)) + "]";
    }

    /** One text is buffered for each item. */
    predicate Buffered(items: seq<Value>)
      reads this
    {
      && |childValues| == |items|
      && forall k | 0 <= k < |items| :: items[k].IsLeaf() && childValues[k] == LeafText(items[k])
    }

    method WriteLines(items: seq<Value>)
      requires items != [] && IsMultiline(items) && !addChildValues
      requires childValues != [] ==> Buffered(items)
      modifies this
      ensures !addChildValues && !indented && indentString == old(indentString)
      ensures var layout := ArrayLayout(items, indentation, indentString);
              sout == old(sout) + ((if old(indented) then "" else NewLine(indentation, indentString)) + "[" +
                ItemsText(items, indentation, indentString + indentation, layout.first, layout) + "]")
      decreases items, 3
    {
      hide Text, IsMultiline;
      ghost var outer := indentString;
      ghost var layout := ArrayLayout(items, indentation, outer);
      WriteWithIndent("[");
      Indent();
      ghost var inner := indentString;
      var hasChildValue := childValues != [];
      ghost var start := sout;
      for index := 0 to |items|
        invariant !addChildValues && !indented && indentString == inner
        invariant hasChildValue ==> Buffered(items)
        invariant sout == ItemsWritten(start, items, index, indentation, inner, layout)
      {
        if index > 0 {
          sout := sout + ",";
        }
        WriteItemLine(items, index, hasChildValue);
      }
      ItemsWrittenIsText(start, items, 0, indentation, inner, layout);
      assert items[0..] == items;
      Shift(start, "", "", "", "");
      Unindent();
      assert indentString == outer;
      WriteWithIndent("]");
      Shift(old(sout), if old(indented) then "" else NewLine(indentation, outer), "[",
        ItemsText(items, indentation, inner, layout.first, layout), "]");
    }

    method WriteItemLine(items: seq<Value>, index: nat, hasChildValue: bool)
      requires index < |items| && !addChildValues && !indented
      requires hasChildValue ==> Buffered(items)
      modifies this
      ensures !addChildValues && !indented && indentString == old(indentString)
      ensures hasChildValue ==> Buffered(items)
      ensures sout == old(sout) + NewLine(indentation, indentString) +
                      Text(items[index], indentation, indentString, true)
      decreases items, 2
    {
      if hasChildValue {
        WriteWithIndent(childValues[index]);
      } else {
        WriteIndent();
        indented := true;
        WriteValue(items[index]);
        indented := false;
      }
    }

    method WriteSingleLine(items: seq<Value>)
      requires items != [] && !IsMultiline(items) && !addChildValues && Buffered(items)
      modifies `sout
      ensures var layout := ArrayLayout(items, indentation, indentString);
              sout == old(sout) + ("" + "[" +
                ItemsText(items, indentation, indentString + indentation, layout.first, layout) + "]")
    {
      hide Text, LeafText, ItemsText, ItemsWritten, ArrayLayout, IsMultiline;
      ghost var inner := indentString + indentation;
      ghost var layout := ArrayLayout(items, indentation, indentString);
      SingleLine(items, indentation, indentString);
      sout := sout + "[";
      ghost var start := sout;
      if indentation != "" {
        sout := sout + " ";
      }
      assert sout == start + layout.first by { Shift(start, "", "", "", ""); }
      for index := 0 to |items|
        invariant sout == if index == 0 then start + layout.first
          else ItemsWritten(start, items, index, indentation, inner, layout)
      {
        if index > 0 {
          sout := sout + ", ";
        }
        sout := sout + childValues[index];
        SingleLineItem(start, items, index, indentation, inner, layout);
      }
      if indentation != "" {
        sout := sout + " ";
      }
      SingleLineIsText(start, items, indentation, inner, layout);
      sout := sout + "]";
      Shift(old(sout), "", "[", ItemsText(items, indentation, inner, layout.first, layout), "]");
      Shift(old(sout), "", "", "", "");
    }

    /** Decides the layout. When no item is a non-empty container and there are few enough of them,
        every item leaves exactly one text in childValues, in order; otherwise childValues is empty. */
    method IsMultilineArray(value: Value) returns (isMultiLine: bool)
      requires value.Arr? && value.items != []
      requires !addChildValues
      modifies this
      ensures isMultiLine == IsMultiline(value.items)
      ensures !addChildValues && indentString == old(indentString)
      ensures indented == old(indented) && sout == old(sout)
      ensures childValues != [] || !isMultiLine ==> Buffered(value.items)
      decreases value, 0
    {
      var items := value.items;
      var size := |items|;
      isMultiLine := size * 3 >= RIGHT_MARGIN;
      childValues := [];
      var index := 0;
      while index < size && !isMultiLine
        invariant 0 <= index <= size
        invariant childValues == [] && !addChildValues && indentString == old(indentString)
        invariant indented == old(indented) && sout == old(sout)
        invariant isMultiLine ==> IsMultiline(items)
        invariant !isMultiLine ==> size * 3 < RIGHT_MARGIN && forall k | 0 <= k < index :: items[k].IsLeaf()
      {
        isMultiLine := !items[index].IsLeaf();
        index := index + 1;
      }
      if !isMultiLine {
        var lineLength := BufferChildValues(items);
        isMultiLine := lineLength >= RIGHT_MARGIN;
      }
    }

    /** Collects the texts of the items and computes the length of their single line. */
    method BufferChildValues(items: seq<Value>) returns (lineLength: int)
      requires items != [] && forall k | 0 <= k < |items| :: items[k].IsLeaf()
      requires !addChildValues && childValues == []
      modifies this
      ensures !addChildValues && indentString == old(indentString)
      ensures indented == old(indented) && sout == old(sout)
      ensures Buffered(items)
      ensures lineLength == 4 + (|items| - 1) * 2 + LeafLengths(items)
      decreases items, 3
    {
      hide LeafText, Text, ItemsText, MembersText, IsMultiline;
      addChildValues := true;
      lineLength := 4 + (|items| - 1) * 2;
      for index := 0 to |items|
        invariant addChildValues && indentString == old(indentString)
        invariant indented == old(indented) && sout == old(sout)
        invariant |childValues| == index
        invariant forall k | 0 <= k < index :: childValues[k] == LeafText(items[k])
        invariant lineLength == 4 + (|items| - 1) * 2 + LeafLengths(items[..index])
      {
        LeafLengthsOfPrefix(items, index);
        WriteValue(items[index]);
        lineLength := lineLength + |childValues[index]|;
      }
      assert items[..|items|] == items;
      addChildValues := false;
    }
  }
}
