/** The printer's escaping of text, as it is written to a file. */
module XmlPrinter {
  import opened Sequences
  import opened XmlText

  /** The entity flags: the restricted ones, for text between tags, leave the quotes alone. */
  predicate Flagged(c: char, restricted: bool) {
    c == '&' || c == '<' || c == '>' || (!restricted && (c == '\"' || c == '\''))
  }

  /** The name of the entity for a character. */
  function PatternOf(c: char): string
    requires Flagged(c, false)
  {
    if c == '&' then "amp" else if c == '<' then "lt" else if c == '>' then "gt"
    else if c == '\"' then "quot" else "apos"
  }

  function EscapeChar(c: char, restricted: bool): (e: string)
    ensures e != ""
  {
    if Flagged(c, restricted) then "&" + PatternOf(c) + ";" else [c]
  }

  /** A text with its flagged characters written as entities. */
  function Escape(s: string, restricted: bool): string {
    if s == "" then "" else EscapeChar(s[0], restricted) + Escape(s[1..], restricted)
  }

  /** The part of a text behind its last flagged character. */
  function LastRun(s: string, restricted: bool): (run: string)
    ensures |run| <= |s|
  {
    if s == "" || Flagged(s[|s| - 1], restricted) then "" else LastRun(s[..|s| - 1], restricted) + [s[|s| - 1]]
  }

  /** What is printed of the last run. */
  function Capped(run: string): string {
    if |run| > INT_MAX then run[..INT_MAX] else run
  }

  function Printed(s: string, restricted: bool): string {
    var run := LastRun(s, restricted);
    Escape(s[..|s| - |run|], restricted) + Capped(run)
  }

  /** An XMLPrinter that prints to a file. One that prints to its own array has to keep the array's size in an int as
      well, and is not modelled. */
  class Printer {
    const processEntities: bool
    /** The characters written to the file so far. */
    var output: string

    constructor (processEntities: bool)
      ensures output == "" && this.processEntities == processEntities
    {
      this.processEntities, output := processEntities, "";
    }

    /** XMLPrinter::PrintString. The runs between entities are written in blocks of at most INT_MAX characters,
        but the last run only in one block. */
    method PrintString(s: string, restricted: bool)
      modifies this`output
      ensures output == old(output) + if !processEntities then s
        else Printed(s, restricted)
    {
      if processEntities {
        hide Escape, LastRun, Capped, Printed;
        PrintedParts(output, s, restricted);
        var p := WriteEscaped(s, restricted);
        WriteLast(s, p);
      } else {
        output := output + s;
      }
    }

    /** PrintString's loop: everything up to the last entity is written; p is where the last run starts. */
    method WriteEscaped(s: string, restricted: bool) returns (p: nat)
      modifies this`output
      ensures p == |s| - |LastRun(s, restricted)| && s[p..] == LastRun(s, restricted)
      ensures output == old(output) + Escape(s[..p], restricted)
    {
      hide Escape, LastRun, EscapeChar, Flagged;
      ghost var was := output;
      Nothing(s, restricted);
      p := 0;
      var q := 0;
      while q < |s|
        invariant p <= q <= |s| && s[p..q] == LastRun(s[..q], restricted)
        invariant output == was + Escape(s[..p], restricted)
      {
        assert s[..q + 1] == s[..q] + [s[q]];
        LastRunAppend(s[..q], s[q], restricted);
        if Flagged(s[q], restricted) {
          PrintedSoFar(was, s, p, q, restricted);
          WriteRun(s, p, q);
          WriteEntity(s[q], restricted);
          p := q + 1;
        } else {
          assert s[p..q + 1] == s[p..q] + [s[q]];
        }
        q := q + 1;
      }
      assert s[..q] == s && s[p..q] == s[p..];
    }

    /** The end of PrintString: the last run in one block. */
    method WriteLast(s: string, p: nat)
      requires p <= |s|
      modifies this`output
      ensures output == old(output) + Capped(s[p..])
    {
      var q := |s|;
      if p < q {
        var toPrint := if INT_MAX < q - p then INT_MAX else q - p;
        assert s[p..p + toPrint] == Capped(s[p..]);
        output := output + s[p..p + toPrint];
      }
    }

    /** The inner loop of PrintString: a run in blocks. */
    method WriteRun(s: string, start: nat, q: nat)
      requires start <= q <= |s|
      modifies this`output
      ensures output == old(output) + s[start..q]
    {
      var p := start;
      while p < q
        invariant start <= p <= q
        invariant output == old(output) + s[start..p]
      {
        var toPrint := if INT_MAX < q - p then INT_MAX else q - p;
        assert s[start..p + toPrint] == s[start..p] + s[p..p + toPrint];
        output := output + s[p..p + toPrint];
        p := p + toPrint;
      }
    }

    /** The loop of PrintString over the entity table. */
    method WriteEntity(c: char, ghost restricted: bool)
      requires Flagged(c, restricted)
      modifies this`output
      ensures output == old(output) + EscapeChar(c, restricted)
    {
      assert ENTITIES[0].value == '\"' && ENTITIES[1].value == '&' && ENTITIES[2].value == '\'';
      assert ENTITIES[3].value == '<' && ENTITIES[4].value == '>';
      var entityPatternPrinted := false;
      for i := 0 to |ENTITIES|
        invariant !entityPatternPrinted && output == old(output)
        invariant forall j | 0 <= j < i :: ENTITIES[j].value != c
      {
        if ENTITIES[i].value == c {
          output := output + "&";
          output := output + ENTITIES[i].pattern;
          output := output + ";";
          entityPatternPrinted := true;
          break;
        }
      }
      assert entityPatternPrinted;
    }
  }

  lemma PrintedParts(was: string, s: string, restricted: bool)
    ensures var run := LastRun(s, restricted);
      was + Printed(s, restricted) == was + Escape(s[..|s| - |run|], restricted) + Capped(run)
  {
    hide LastRun, Escape, Capped;
    var run := LastRun(s, restricted);
    Regroup(was, Escape(s[..|s| - |run|], restricted), Capped(run));
  }

  lemma Nothing(s: string, restricted: bool)
    ensures s[..0] == "" && Escape(s[..0], restricted) == "" && LastRun(s[..0], restricted) == ""
  {
  }

  lemma LastRunAppend(s: string, c: char, restricted: bool)
    ensures LastRun(s + [c], restricted) == if Flagged(c, restricted) then "" else LastRun(s, restricted) + [c]
  {
    assert (s + [c])[..|s|] == s;
  }

  lemma {:induction false} EscapeAppend(s: string, c: char, restricted: bool)
    ensures Escape(s + [c], restricted) == Escape(s, restricted) + EscapeChar(c, restricted)
  {
    if s == "" {
      assert s + [c] == [c];
    } else {
      hide EscapeChar;
      EscapeAppend(s[1..], c, restricted);
      assert (s + [c])[1..] == s[1..] + [c];
      Regroup(EscapeChar(s[0], restricted), Escape(s[1..], restricted), EscapeChar(c, restricted));
    }
  }

  lemma PrintedSoFar(was: string, s: string, p: nat, q: nat, restricted: bool)
    requires p <= q < |s| && s[p..q] == LastRun(s[..q], restricted)
    ensures was + Escape(s[..p], restricted) + s[p..q] + EscapeChar(s[q], restricted) ==
      was + Escape(s[..q + 1], restricted)
  {
    EscapeRun(s, p, q, restricted);
    EscapeAppend(s[..q], s[q], restricted);
    assert s[..q + 1] == s[..q] + [s[q]];
    hide Escape, EscapeChar, LastRun;
    Regroup(was, Escape(s[..p], restricted), s[p..q]);
    Regroup(was, Escape(s[..q], restricted), EscapeChar(s[q], restricted));
  }

  /** The last run is printed as it is. */
  lemma {:induction false} EscapeRun(s: string, p: nat, q: nat, restricted: bool)
    requires p <= q <= |s| && s[p..q] == LastRun(s[..q], restricted)
    ensures Escape(s[..q], restricted) == Escape(s[..p], restricted) + s[p..q]
  {
    hide Escape, LastRun, Flagged;
    if p < q {
      assert s[..q] == s[..q - 1] + [s[q - 1]];
      SplitSlice(s, p, q - 1, q);
      LastRunAppend(s[..q - 1], s[q - 1], restricted);
      EscapeRun(s, p, q - 1, restricted);
      EscapeAppend(s[..q - 1], s[q - 1], restricted);
      Regroup(Escape(s[..p], restricted), s[p..q - 1], [s[q - 1]]);
    }
  }

  /** The whole text is printed exactly when its last run fits one block. */
  lemma PrintedIsEscape(s: string, restricted: bool)
    ensures Printed(s, restricted) == Escape(s, restricted) <==> |LastRun(s, restricted)| <= INT_MAX
  {
    hide Escape, LastRun, Flagged;
    var run := LastRun(s, restricted);
    var p := |s| - |run|;
    LastRunIsSuffix(s, restricted);
    assert s[..|s|] == s && s[p..|s|] == s[p..];
    EscapeRun(s, p, |s|, restricted);
    SameBehind(Escape(s[..p], restricted), Capped(run), run);
    assert |Capped(run)| == |run| <==> |run| <= INT_MAX;
  }

  lemma {:induction false} LastRunIsSuffix(s: string, restricted: bool)
    ensures s[|s| - |LastRun(s, restricted)|..] == LastRun(s, restricted)
  {
    if s != "" && !Flagged(s[|s| - 1], restricted) {
      LastRunIsSuffix(s[..|s| - 1], restricted);
    }
  }

  /** So nothing is cut of a text whose printed form has an int for its length, as the printer's own array needs. */
  lemma ShortIsWhole(s: string, restricted: bool)
    requires |Escape(s, restricted)| <= INT_MAX
    ensures Printed(s, restricted) == Escape(s, restricted)
  {
    hide LastRun, Printed, Flagged;
    EscapeIsLonger(s, restricted);
    PrintedIsEscape(s, restricted);
  }

  lemma {:induction false} EscapeIsLonger(s: string, restricted: bool)
    ensures |s| <= |Escape(s, restricted)|
  {
    if s != "" {
      EscapeIsLonger(s[1..], restricted);
    }
  }

  /** A text without flagged characters that is longer than one block is cut. */
  lemma LongRunIsCut(s: string, restricted: bool)
    requires |s| > INT_MAX && forall k | 0 <= k < |s| :: !Flagged(s[k], restricted)
    ensures Printed(s, restricted) == s[..INT_MAX]
  {
    hide Flagged;
    NothingFlagged(s, restricted);
    assert s[..0] == "" && Escape("", restricted) + s[..INT_MAX] == s[..INT_MAX];
  }

  lemma {:induction false} NothingFlagged(s: string, restricted: bool)
    requires forall k | 0 <= k < |s| :: !Flagged(s[k], restricted)
    ensures LastRun(s, restricted) == s
  {
    if s != "" {
      NothingFlagged(s[..|s| - 1], restricted);
    }
  }
}
