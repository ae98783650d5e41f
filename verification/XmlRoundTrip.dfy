/** Decoding undoes printing: for every text, with only the line ends normalized. */
module XmlRoundTrip {
  import opened Digits
  import opened Wrappers
  import opened XmlLineEnds
  import opened XmlPieces
  import opened XmlPrinter
  import opened XmlStrPair
  import opened XmlText

  /** What is left of a text once it is decoded. */
  function Kept(s: string, newlines: bool): string {
    if newlines then Normalized(s) else s
  }

  /** An escaped text as pieces. */
  function PiecesOf(s: string, restricted: bool): seq<Piece> {
    if s == "" then []
    else
      [if Flagged(s[0], restricted) then Named(PatternOf(s[0]), s[0]) else Plain(s[0])] + PiecesOf(s[1..], restricted)
  }

  lemma {:induction false} PiecesOfEscaped(s: string, restricted: bool)
    ensures AllAllowed(PiecesOf(s, restricted), true) && TextOfAll(PiecesOf(s, restricted)) == Escape(s, restricted)
  {
    if s != "" {
      PiecesOfEscaped(s[1..], restricted);
      var p := PiecesOf(s, restricted)[0];
      assert Allowed(p, true) && TextOf(p) == EscapeChar(s[0], restricted) by {
        hide AreDigits, NumberOf, PiecesOf, Escape, AllAllowed, TextOfAll;
      }
      hide Allowed, TextOf, EscapeChar;
    }
  }

  lemma PiecesOfTwo(s: string, restricted: bool)
    requires s != ""
    ensures PiecesOf(s, restricted) != [] && Value(PiecesOf(s, restricted)[0]) == [s[0]]
    ensures PiecesOf(s, restricted)[1..] == PiecesOf(s[1..], restricted)
    ensures forall c | c == '\r' || c == '\n' :: PiecesOf(s, restricted)[0] == Plain(c) <==> s[0] == c
  {
  }

  /** How many of the characters are taken together. */
  function Taken(s: string, newlines: bool): (m: nat)
    requires s != ""
    ensures 1 <= m <= |s|
  {
    if newlines && ((s[0] == CR && At(s, 1) == LF) || (s[0] == LF && At(s, 1) == CR)) then 2 else 1
  }

  lemma KeptStep(s: string, newlines: bool)
    requires s != ""
    ensures Kept(s, newlines) ==
      [if newlines && s[0] == CR then LF else s[0]] + Kept(s[Taken(s, newlines)..], newlines)
  {
    assert s == [s[0]] + s[1..];
  }

  lemma MeaningStep(s: string, restricted: bool, newlines: bool)
    requires s != ""
    ensures Meaning(PiecesOf(s, restricted), newlines) == [if newlines && s[0] == CR then LF else s[0]] +
      Meaning(PiecesOf(s[Taken(s, newlines)..], restricted), newlines)
  {
    hide PiecesOf;
    var ps := PiecesOf(s, restricted);
    PiecesOfTwo(s, restricted);
    if |s| > 1 {
      PiecesOfTwo(s[1..], restricted);
      assert s[1..][1..] == s[2..] && ps[1..][1..] == ps[2..] && |ps| >= 2 && ps[1] == ps[1..][0];
    } else {
      NothingEscaped(restricted, newlines);
      assert s[1..] == "";
    }
  }

  lemma NothingEscaped(restricted: bool, newlines: bool)
    ensures PiecesOf("", restricted) == [] && Meaning([], newlines) == "" == Kept("", newlines)
  {
  }

  lemma {:induction false} MeaningOfEscaped(s: string, restricted: bool, newlines: bool)
    ensures Meaning(PiecesOf(s, restricted), newlines) == Kept(s, newlines)
    decreases |s|
  {
    hide Meaning, PiecesOf, Kept, Taken;
    if s == "" {
      NothingEscaped(restricted, newlines);
    } else {
      KeptStep(s, newlines);
      MeaningStep(s, restricted, newlines);
      MeaningOfEscaped(s[Taken(s, newlines)..], restricted, newlines);
    }
  }

  /** Decoding an escaped text. */
  lemma DecodeEscaped(s: string, restricted: bool, newlines: bool)
    ensures Decode(Escape(s, restricted), Needs(true, newlines)) == Kept(s, newlines)
  {
    hide *;
    PiecesOfEscaped(s, restricted);
    MeaningOfEscaped(s, restricted, newlines);
    DecodePieces(PiecesOf(s, restricted), true, newlines);
  }

  /** The characters that end a text between tags, or an attribute's value in either quotes. */
  predicate Marks(c: char, restricted: bool) {
    c == '<' || c == '>' || (!restricted && (c == '\"' || c == '\''))
  }

  /** An escaped text has none of them, and a NUL only where the text has one. */
  lemma {:induction false} EscapeAvoids(s: string, restricted: bool, c: char)
    requires Marks(c, restricted)
    ensures c !in Escape(s, restricted) && (NUL !in s ==> NUL !in Escape(s, restricted))
  {
    if s != "" {
      EscapeAvoids(s[1..], restricted, c);
      CharAvoids(s[0], restricted, c);
      hide EscapeChar;
    }
  }

  lemma CharAvoids(d: char, restricted: bool, c: char)
    requires Marks(c, restricted)
    ensures c !in EscapeChar(d, restricted) && (d != NUL ==> NUL !in EscapeChar(d, restricted))
  {
    var name := PatternOf('&');
    assert Flagged(d, restricted) ==> c !in PatternOf(d) && NUL !in PatternOf(d);
  }

  /** No printed text has an angle bracket, and none for an attribute's value a quote. */
  lemma PrintedHasNoMarkup(s: string, restricted: bool)
    ensures var text := Printed(s, restricted);
      '<' !in text && '>' !in text && (!restricted ==> '\"' !in text && '\'' !in text)
  {
    PrintedIsShown(s, restricted);
    var shown := Shown(s, restricted);
    EscapeAvoids(shown, restricted, '<');
    EscapeAvoids(shown, restricted, '>');
    if !restricted {
      EscapeAvoids(shown, restricted, '\"');
      EscapeAvoids(shown, restricted, '\'');
    }
    hide Escape, Shown, Printed;
  }

  /** The end tag behind an escaped text is found where it stands. */
  lemma TagIsFound(s: string, restricted: bool, tag: string, rest: string)
    requires NUL !in s && tag != "" && Marks(tag[0], restricted)
    ensures FindTag(Escape(s, restricted) + tag + rest, 0, tag) == Some(|Escape(s, restricted)|)
  {
    hide Escape, FindTag;
    var e := Escape(s, restricted);
    EscapeAvoids(s, restricted, tag[0]);
    TagBehind(e, tag, rest);
    FindsFirst(e + tag + rest, 0, |e|, tag);
  }

  lemma TagBehind(e: string, tag: string, rest: string)
    requires tag != "" && tag[0] !in e && NUL !in e
    ensures var r := e + tag + rest;
      tag <= r[|e|..] && forall j | 0 <= j < |e| :: r[j] != tag[0] && r[j] != NUL
  {
    var r := e + tag + rest;
    assert r[|e|..] == tag + rest;
    assert forall j | 0 <= j < |e| :: r[j] == e[j] && e[j] in e;
  }

  /** Printing, finding and decoding gives the text with its line ends normalized, which is the text itself exactly
      when line ends are not touched or it has no CR. */
  lemma RoundTrip(s: string, restricted: bool, newlines: bool, tag: string, rest: string)
    requires NUL !in s && tag != "" && Marks(tag[0], restricted)
    ensures FindTag(Escape(s, restricted) + tag + rest, 0, tag) == Some(|Escape(s, restricted)|)
    ensures Decode(Escape(s, restricted), Needs(true, newlines)) == Kept(s, newlines)
    ensures Decode(Escape(s, restricted), Needs(true, newlines)) == s <==> !newlines || CR !in s
  {
    TagIsFound(s, restricted, tag, rest);
    hide Escape, DecodeFrom, FindTag;
    DecodeEscaped(s, restricted, newlines);
    NormalizedIsSame(s);
  }

  /** What PrintString shows of a text: it cuts a last run that does not fit one block. */
  function Shown(s: string, restricted: bool): (t: string)
    ensures t <= s && (t == s <==> |LastRun(s, restricted)| <= INT_MAX)
  {
    var run := LastRun(s, restricted);
    s[..|s| - |run| + |Capped(run)|]
  }

  lemma PrintedIsShown(s: string, restricted: bool)
    ensures Printed(s, restricted) == Escape(Shown(s, restricted), restricted)
  {
    hide Escape, LastRun, Flagged, EscapeChar;
    var run := LastRun(s, restricted);
    var p, q := |s| - |run|, |s| - |run| + |Capped(run)|;
    LastRunIsSuffix(s, restricted);
    LastRunCut(s, q, restricted);
    assert s[p..q] == Capped(run) && s[..q][..p] == s[..p];
    EscapeRun(s, p, q, restricted);
  }

  lemma {:induction false} LastRunCut(s: string, q: nat, restricted: bool)
    requires |s| - |LastRun(s, restricted)| <= q <= |s|
    ensures LastRun(s[..q], restricted) == s[|s| - |LastRun(s, restricted)|..q]
  {
    LastRunIsSuffix(s, restricted);
    if q < |s| {
      assert s[..|s| - 1][..q] == s[..q];
      LastRunCut(s[..|s| - 1], q, restricted);
    } else {
      assert s[..q] == s;
    }
  }

  lemma Ends(e: string, tag: string)
    ensures e + tag + "" == e + tag && (e + tag)[..|e|] == e
  {
  }

  method PrintWithTag(s: string, restricted: bool, tag: string) returns (text: string)
    ensures text == Escape(Shown(s, restricted), restricted) + tag
  {
    var printer := new Printer(true);
    printer.PrintString(s, restricted);
    PrintedIsShown(s, restricted);
    hide Escape, Shown, LastRun, Capped, Printed;
    assert "" + Printed(s, restricted) == Printed(s, restricted);
    text := printer.output + tag;
  }

  /** Print a text with an end tag behind it, find it again and fetch it. */
  method PrintFindGet(s: string, restricted: bool, newlines: bool, tag: string)
    returns (pair: StrPair, next: Option<nat>)
    requires NUL !in s && NUL !in tag && tag != "" && Marks(tag[0], restricted)
    ensures next == Some(|Escape(Shown(s, restricted), restricted)| + |tag|)
    ensures var kept := Kept(Shown(s, restricted), newlines);
      && pair.start + |kept| < pair.buffer.Length
      && pair.buffer[pair.start..pair.start + |kept|] == kept && pair.buffer[pair.start + |kept|] == NUL
  {
    var text := PrintWithTag(s, restricted, tag);
    ghost var shown := Shown(s, restricted);
    ghost var e := Escape(shown, restricted);
    assert NUL !in shown;
    hide *;
    RoundTrip(shown, restricted, newlines, tag, "");
    Ends(e, tag);
    pair, next := FindGet(text, Needs(true, newlines), tag, |e|);
  }
}
