/** The texts of section 4.1 of XML 1.0 and what decoding makes of them: characters that stand for themselves, the
    five named entities, and decimal and hexadecimal references to characters. */
module XmlPieces {
  import opened Digits
  import opened Sequences
  import opened Wrappers
  import opened XmlReferences
  import opened XmlStrPair
  import opened XmlText
  import Unicode

  /** A reference has its digits, as they are written and as numbers, and the bytes of the character. */
  datatype Piece = Plain(c: char) | Named(name: string, c: char)
    | Reference(hex: bool, digits: seq<nat>, written: string, bytes: string)

  const NAMES: seq<(string, char)> := [("quot", '\"'), ("amp", '&'), ("apos", '\''), ("lt", '<'), ("gt", '>')]

  /** The pieces of a text in which entities count, or do not. */
  predicate Allowed(p: Piece, entities: bool) {
    match p
    case Plain(c) => entities ==> c != '&'
    case Named(name, c) => entities && (name, c) in NAMES
    case Reference(hex, digits, written, bytes) =>
      var base := if hex then 16 else 10;
      && entities && digits != [] && AreDigits(base, digits, written)
      && NumberOf(base, digits) < 0x200000 && Unicode.IsForm(bytes, NumberOf(base, digits))
  }

  /** The text of a piece. */
  function TextOf(p: Piece): string {
    match p
    case Plain(c) => [c]
    case Named(name, c) => "&" + name + ";"
    case Reference(hex, digits, written, bytes) => "&#" + (if hex then "x" else "") + written + ";"
  }

  function Value(p: Piece): string {
    match p
    case Plain(c) => [c]
    case Named(name, c) => [c]
    case Reference(hex, digits, written, bytes) => bytes
  }

  function TextOfAll(ps: seq<Piece>): string {
    if ps == [] then "" else TextOf(ps[0]) + TextOfAll(ps[1..])
  }

  /** Two line ends that count as one: CR LF or LF CR, both written as themselves. */
  predicate IsPair(ps: seq<Piece>) {
    |ps| >= 2 && ((ps[0] == Plain('\r') && ps[1] == Plain('\n')) || (ps[0] == Plain('\n') && ps[1] == Plain('\r')))
  }

  /** What pieces stand for. Line ends are normalized where they are written as themselves. */
  function Meaning(ps: seq<Piece>, newlines: bool): string {
    if ps == [] then ""
    else if newlines && IsPair(ps) then "\n" + Meaning(ps[2..], newlines)
    else if newlines && ps[0] == Plain('\r') then "\n" + Meaning(ps[1..], newlines)
    else Value(ps[0]) + Meaning(ps[1..], newlines)
  }

  predicate AllAllowed(ps: seq<Piece>, entities: bool) {
    forall p | p in ps :: Allowed(p, entities)
  }

  // References

  lemma DigitOfWritten(base: nat, d: nat, c: char)
    requires (base == 10 || base == 16) && d < base && (c == SMALL[d] || c == CAPITALS[d])
    ensures DigitIn(base, c) == d
  {
    DigitsAre(d);
  }

  lemma {:induction false} NumeralOfDigits(base: nat, digits: seq<nat>, written: string)
    requires (base == 10 || base == 16) && AreDigits(base, digits, written)
    ensures DigitsIn(base, written) && NumeralIn(base, written) == NumberOf(base, digits)
  {
    hide DigitIn;
    if digits != [] {
      var n := |digits| - 1;
      NumeralOfDigits(base, digits[..n], written[..n]);
      DigitOfWritten(base, digits[n], written[n]);
      assert forall k | 0 <= k < n :: written[k] == written[..n][k];
    }
  }

  /** Where the digits of a reference stand. */
  lemma ReferenceText(p: Piece, rest: string)
    requires p.Reference? && |p.written| > 0
    ensures var r, start := TextOf(p) + rest, if p.hex then 3 else 2;
      var n := start + |p.written|;
      && n < |r| && r[..2] == "&#" && (p.hex ==> r[..3] == "&#x")
      && r[start..n] == p.written && r[n] == ';' && r[start] == p.written[0]
      && n + 1 == |TextOf(p)|
  {
  }

  lemma ReferenceIsRead(p: Piece, rest: string)
    requires p.Reference? && Allowed(p, true)
    ensures var r := TextOf(p) + rest;
      && |r| >= 2 && r[0] == '&' && r[1] == '#' && CharacterRef(r) == Some(Step(|TextOf(p)|, Some(p.bytes)))
  {
    var r, base, start := TextOf(p) + rest, if p.hex then 16 else 10, if p.hex then 3 else 2;
    var number, n := NumberOf(base, p.digits), start + |p.written|;
    ReferenceText(p, rest);
    NumeralOfDigits(base, p.digits, p.written);
    Utf8IsExact(number);
    Unicode.FormIsUnique(p.bytes, Utf8(number), number);
    assert r[..2][0] == r[0] && r[..2][1] == r[1];
    hide *;
    if p.hex {
      HexReference(r, n);
      SmallIsWhole(number);
    } else {
      DecimalReference(r, n);
      FirstPower();
      DecimalIsExact(p.written, 0);
    }
  }

  lemma SmallIsWhole(number: nat)
    requires number < 0x200000
    ensures Wrap32(number) == number
  {
  }

  lemma FirstPower()
    ensures PowerOf10(0) == 1
  {
  }

  // Entities

  lemma EntityIsRead(p: Piece, rest: string)
    requires p.Named? && Allowed(p, true)
    ensures EntityAt((TextOf(p) + rest)[1..], 0) == Some(Entity(p.name, p.c))
    ensures TextOf(p)[0] == '&' && TextOf(p)[1] != '#' && |TextOf(p)| == |p.name| + 2
  {
    var t := p.name + ";" + rest;
    assert (TextOf(p) + rest)[1..] == t;
    var name := p.name + ";";
    assert name <= t by {
      assert t[..|name|] == name;
    }
    assert t[0] == name[0] && t[1] == name[1];
    assert ENTITIES[0].pattern + ";" <= t ==> t[0] == 'q';
    assert ENTITIES[1].pattern + ";" <= t ==> t[0] == 'a' && t[1] == 'm';
    assert ENTITIES[2].pattern + ";" <= t ==> t[0] == 'a' && t[1] == 'p';
    assert ENTITIES[3].pattern + ";" <= t ==> t[0] == 'l';
    assert EntityAt(t, 0) == if p.c == '\"' then Some(ENTITIES[0]) else EntityAt(t, 1);
    assert EntityAt(t, 1) == if p.c == '&' then Some(ENTITIES[1]) else EntityAt(t, 2);
    assert EntityAt(t, 2) == if p.c == '\'' then Some(ENTITIES[2]) else EntityAt(t, 3);
    assert EntityAt(t, 3) == if p.c == '<' then Some(ENTITIES[3]) else EntityAt(t, 4);
  }

  // Decoding

  /** A decoding step at a piece that is written with an ampersand. */
  lemma StepOfMarkup(p: Piece, rest: string, entities: bool, newlines: bool)
    requires Allowed(p, entities) && !p.Plain?
    ensures NextStep(TextOf(p) + rest, Needs(entities, newlines)) == Step(|TextOf(p)|, Some(Value(p)))
  {
    assert entities;
    hide CharacterRef, EntityAt, Allowed, AreDigits, NumberOf, Unicode.IsForm;
    if p.Reference? {
      ReferenceIsRead(p, rest);
    } else {
      EntityIsRead(p, rest);
    }
  }

  /** What starts a text: the first character of its first piece. */
  lemma FirstOfText(ps: seq<Piece>, entities: bool)
    requires AllAllowed(ps, entities)
    ensures At(TextOfAll(ps), 0) == '\r' <==> ps != [] && ps[0] == Plain('\r')
    ensures At(TextOfAll(ps), 0) == '\n' <==> ps != [] && ps[0] == Plain('\n')
  {
    if ps != [] {
      assert Allowed(ps[0], entities) && TextOfAll(ps)[0] == TextOf(ps[0])[0];
    }
  }

  /** A decoding step at a character written as itself. */
  lemma StepOfPlain(ps: seq<Piece>, entities: bool, newlines: bool)
    requires AllAllowed(ps, entities) && ps != [] && ps[0].Plain?
    ensures var used := if newlines && IsPair(ps) then 2 else 1;
      var w := if newlines && ps[0].c == '\r' then '\n' else ps[0].c;
      && used <= |TextOfAll(ps)| && TextOfAll(ps)[used..] == TextOfAll(ps[used..])
      && NextStep(TextOfAll(ps), Needs(entities, newlines)) == Step(used, Some([w]))
  {
    var r, rest := TextOfAll(ps), TextOfAll(ps[1..]);
    assert Allowed(ps[0], entities);
    assert r[0] == ps[0].c && r[1..] == rest && At(r, 1) == At(rest, 0);
    FirstOfText(ps[1..], entities);
    if IsPair(ps) {
      assert ps[1..][0] == ps[1] && ps[1..][1..] == ps[2..];
      assert rest == [ps[1].c] + TextOfAll(ps[2..]);
      assert r[2..] == rest[1..];
    }
    hide TextOfAll, CharacterRef, EntityAt;
  }

  /** One decoding step: it takes the pieces up to some position and writes what they stand for. */
  lemma StepOfPieces(ps: seq<Piece>, entities: bool, newlines: bool) returns (used: nat, taken: nat, w: string)
    requires AllAllowed(ps, entities) && ps != []
    ensures 0 < taken <= |ps| && |w| <= used <= |TextOfAll(ps)| && used > 0
    ensures NextStep(TextOfAll(ps), Needs(entities, newlines)) == Step(used, Some(w))
    ensures TextOfAll(ps)[used..] == TextOfAll(ps[taken..])
    ensures Meaning(ps, newlines) == w + Meaning(ps[taken..], newlines)
  {
    hide NextStep, Allowed;
    if ps[0].Plain? {
      StepOfPlain(ps, entities, newlines);
      taken := if newlines && IsPair(ps) then 2 else 1;
      used, w := taken, if newlines && ps[0].c == '\r' then "\n" else [ps[0].c];
    } else {
      assert Allowed(ps[0], entities);
      StepOfMarkup(ps[0], TextOfAll(ps[1..]), entities, newlines);
      used, taken, w := |TextOf(ps[0])|, 1, Value(ps[0]);
    }
  }

  lemma Cut(pre: string, e: string, k: nat)
    requires k <= |e|
    ensures (pre + e)[|pre|..] == e && pre + e == (pre + e[..k]) + e[k..]
  {
  }

  /** One step at position i, given what decoding from there on gives. */
  lemma DecodeBehind(text: string, i: nat, used: nat, out: string, w: string, all: string, needs: Needs)
    requires |out| <= i < |text| && |w| <= used && i + used <= |text|
    requires NextStep(text[i..], needs) == Step(used, Some(w))
    requires DecodeFrom(text, i + used, out + w, needs) == all
    ensures DecodeFrom(text, i, out, needs) == all
  {
    hide *;
    DecodeOneStep(text, i, out, w, needs);
  }

  lemma NoPieces(newlines: bool)
    ensures TextOfAll([]) == "" && Meaning([], newlines) == ""
  {
  }

  /** Decoding from where a text of pieces starts. */
  lemma {:induction false} DecodeFromPieces(pre: string, ps: seq<Piece>, out: string, entities: bool, newlines: bool)
    requires AllAllowed(ps, entities) && |out| <= |pre|
    ensures DecodeFrom(pre + TextOfAll(ps), |pre|, out, Needs(entities, newlines)) == out + Meaning(ps, newlines)
    decreases |ps|
  {
    hide TextOfAll, NextStep, DecodeFrom, Meaning, Allowed;
    var e, needs := TextOfAll(ps), Needs(entities, newlines);
    if ps == [] {
      NoPieces(newlines);
      Regroup(pre, "", "");
      Regroup(out, "", "");
      DecodeAll(pre, out, needs);
    } else {
      var used, taken, w := StepOfPieces(ps, entities, newlines);
      DecodeFromPieces(pre + e[..used], ps[taken..], out + w, entities, newlines);
      Cut(pre, e, used);
      DecodeBehind(pre + e, |pre|, used, out, w, (out + w) + Meaning(ps[taken..], newlines), needs);
      Regroup(out, w, Meaning(ps[taken..], newlines));
    }
  }

  /** A text of characters, named entities and references to codes of at most four bytes is decoded to the
      characters and the UTF-8 forms of the codes. */
  lemma DecodePieces(ps: seq<Piece>, entities: bool, newlines: bool)
    requires AllAllowed(ps, entities)
    ensures Decode(TextOfAll(ps), Needs(entities, newlines)) == Meaning(ps, newlines)
  {
    DecodeFromPieces("", ps, "", entities, newlines);
    assert "" + TextOfAll(ps) == TextOfAll(ps) && "" + Meaning(ps, newlines) == Meaning(ps, newlines);
    hide TextOfAll, DecodeFrom, Meaning;
  }

  lemma NumberOfTwo(base: nat, a: nat, b: nat)
    ensures NumberOf(base, [a, b]) == base * a + b
  {
    assert [a, b][..1] == [a] && NumberOf(base, [a][..0]) == 0;
  }

  lemma NumberOfFour(base: nat, a: nat, b: nat, c: nat, d: nat)
    ensures NumberOf(base, [a, b, c, d]) == base * (base * (base * a + b) + c) + d
  {
    NumberOfTwo(base, a, b);
    assert [a, b, c, d][..3] == [a, b, c] && [a, b, c][..2] == [a, b];
  }

  lemma DecodeOne(p: Piece, text: string)
    requires Allowed(p, true) && !p.Plain? && text == TextOf(p)
    ensures Decode(text, Needs(true, true)) == Value(p)
  {
    hide Allowed;
    assert TextOfAll([p]) == TextOf(p) + TextOfAll([]) == text;
    assert Meaning([p], true) == Value(p) + Meaning([], true) == Value(p);
    assert AllAllowed([p], true);
    DecodePieces([p], true, true);
  }

  lemma DecimalA()
    ensures Decode("&#65;", Needs(true, true)) == "A"
  {
    NumberOfTwo(10, 6, 5);
    DecodeOne(Reference(false, [6, 5], "65", "A"), "&#65;");
  }

  lemma HexA()
    ensures Decode("&#x41;", Needs(true, true)) == "A"
  {
    NumberOfTwo(16, 4, 1);
    DecodeOne(Reference(true, [4, 1], "41", "A"), "&#x41;");
  }

  lemma Ideograph()
    ensures Decode("&#x4E2d;", Needs(true, true)) == [0xE4 as char, 0xB8 as char, 0xAD as char]
  {
    NumberOfFour(16, 4, 14, 2, 13);
    DecodeOne(Reference(true, [4, 14, 2, 13], "4E2d", [0xE4 as char, 0xB8 as char, 0xAD as char]), "&#x4E2d;");
  }

  lemma LineEndsAndEntity()
    ensures Decode("\r\na&lt;\r", Needs(true, true)) == "\na<\n"
  {
    var a, b, c := [Plain('\r')], [Named("lt", '<'), Plain('\r')], [Plain('a'), Named("lt", '<'), Plain('\r')];
    var d := [Plain('\n')] + c;
    var ps := [Plain('\r')] + d;
    assert Meaning(a, true) == "\n" && TextOfAll(a) == "\r" && a[1..] == [];
    assert b[1..] == a && Meaning(b, true) == "<\n" && TextOfAll(b) == "&lt;\r";
    assert c[1..] == b && Meaning(c, true) == "a<\n" && TextOfAll(c) == "a&lt;\r";
    assert d[1..] == c && TextOfAll(d) == "\na&lt;\r";
    assert ps[1..] == d && ps[2..] == c && Meaning(ps, true) == "\na<\n" && TextOfAll(ps) == "\r\na&lt;\r";
    assert AllAllowed(ps, true);
    DecodePieces(ps, true, true);
  }

  /** An A by its number in either base, an ideograph of three bytes, and a named entity among line ends. */
  lemma Examples()
    ensures Decode("&#65;", Needs(true, true)) == "A" == Decode("&#x41;", Needs(true, true))
    ensures Decode("&#x4E2d;", Needs(true, true)) == [0xE4 as char, 0xB8 as char, 0xAD as char]
    ensures Decode("\r\na&lt;\r", Needs(true, true)) == "\na<\n"
  {
    hide *;
    DecimalA();
    HexA();
    Ideograph();
    LineEndsAndEntity();
  }

  /** What starts like a reference and is none stays as it is, but loses its ampersand where the text ends. */
  lemma NoReference()
    ensures Decode("&#z;", Needs(true, true)) == "&#z;" && Decode("&#", Needs(true, true)) == "#"
  {
    hide DecodeFrom, TextOfAll, Meaning;
    var needs := Needs(true, true);
    StepOfNoReference();
    PlainText(['#', 'z', ';']);
    PlainText(['#']);
    assert "&" + "#z;" == "&#z;" && "&" + "#" == "&#" && "" + "#" == "#" && "" + "&" == "&" && "" + "" == "";
    DecodeFromPieces("&", Plains("#z;"), "&", true, true);
    DecodeFromPieces("&", Plains("#"), "", true, true);
    assert "&#z;"[0..] == "&#z;" && "&#"[0..] == "&#";
    DecodeBehind("&#z;", 0, 1, "", "&", "&#z;", needs);
    DecodeBehind("&#", 0, 1, "", "", "#", needs);
  }

  lemma StepOfNoReference()
    ensures NextStep("&#z;", Needs(true, true)) == Step(1, Some("&"))
    ensures NextStep("&#", Needs(true, true)) == Step(1, Some(""))
  {
    hide EntityAt;
    var r := "&#z;";
    assert Find(r, 3, ';') == Some(3) && Find(r, 2, ';') == Some(3);
    assert NumberBefore(r, 3, '#', 10, 1) == None;
  }

  function Plains(s: string): (ps: seq<Piece>)
    ensures |ps| == |s| && forall k | 0 <= k < |s| :: ps[k] == Plain(s[k])
  {
    seq(|s|, k requires 0 <= k < |s| => Plain(s[k]))
  }

  /** A text without ampersands and carriage returns stands for itself. */
  lemma {:induction false} PlainText(s: string)
    requires '&' !in s && '\r' !in s && '\n' !in s
    ensures AllAllowed(Plains(s), true) && TextOfAll(Plains(s)) == s && Meaning(Plains(s), true) == s
  {
    if s != "" {
      assert Plains(s)[1..] == Plains(s[1..]);
      PlainText(s[1..]);
      assert s == [s[0]] + s[1..];
    }
  }

  // Finding

  /** Only the first occurrence of a tag counts, and nothing behind a NUL. */
  lemma {:induction false} FindsFirst(r: string, k: nat, n: nat, tag: string)
    requires k <= n < |r| && tag != "" && tag[0] != NUL && tag <= r[n..]
    requires forall j | k <= j < n :: r[j] != NUL && !(tag <= r[j..])
    ensures FindTag(r, k, tag) == Some(n)
    decreases n - k
  {
    assert r[n] == r[n..][0] == tag[0];
    if k < n {
      FindsFirst(r, k + 1, n, tag);
    }
  }

  /** What is found is the first occurrence of the tag, with no NUL in front of it; and what there is, is found. */
  lemma {:induction false} FoundIsFirst(r: string, k: nat, tag: string)
    requires k <= |r| && tag != ""
    ensures match FindTag(r, k, tag) {
        case Some(n) =>
          k <= n && n + |tag| <= |r| && tag <= r[n..] && forall j | k <= j < n :: r[j] != '\0' && !(tag <= r[j..])
        case None =>
          forall n | k <= n < |r| && r[n] != '\0' && tag <= r[n..] :: exists j :: k <= j < n && r[j] == '\0'
      }
    decreases |r| - k
  {
    if k < |r| && r[k] != '\0' {
      FoundIsFirst(r, k + 1, tag);
    }
  }

  lemma Parts(e: string, tag: string, rest: string)
    ensures var text := e + tag + rest; tag <= text[|e|..] && text[..|e|] == e && |e| + |tag| <= |text|
  {
    var text := e + tag + rest;
    assert text[|e|..] == tag + rest;
  }

  /** Parse a string up to its end tag and fetch the text before it. */
  method FindGet(text: string, needs: Needs, tag: string, ghost n: nat) returns (pair: StrPair, next: Option<nat>)
    requires NUL !in tag && tag != "" && FindTag(text, 0, tag) == Some(n)
    ensures next == Some(n + |tag|)
    ensures var d := Decode(text[..n], needs);
      && pair.start + |d| < pair.buffer.Length
      && pair.buffer[pair.start..pair.start + |d|] == d && pair.buffer[pair.start + |d|] == NUL
  {
    hide FindTag, DecodeFrom;
    var buffer := new char[|text| + 1](k requires 0 <= k <= |text| => if k < |text| then text[k] else NUL);
    assert buffer[..|text|] == buffer[0..|text|] == text;
    pair := new StrPair(buffer);
    var lines;
    next, lines := pair.ParseText(0, tag, needs, false, |text|);
    assert buffer[pair.start..pair.end] == text[..n];
    pair.GetStr();
  }

  /** Fetch a text of pieces in front of an end tag that does not stand earlier. */
  method FindGetPieces(text: string, entities: bool, newlines: bool, tag: string, ghost ps: seq<Piece>,
    ghost rest: string) returns (pair: StrPair, next: Option<nat>)
    requires AllAllowed(ps, entities) && NUL !in TextOfAll(ps) && NUL !in tag && tag != ""
    requires text == TextOfAll(ps) + tag + rest
    requires forall j | 0 <= j < |TextOfAll(ps)| :: !(tag <= text[j..])
    ensures next == Some(|TextOfAll(ps)| + |tag|)
    ensures var d := Meaning(ps, newlines);
      && pair.start + |d| < pair.buffer.Length
      && pair.buffer[pair.start..pair.start + |d|] == d && pair.buffer[pair.start + |d|] == NUL
  {
    hide *;
    ghost var e := TextOfAll(ps);
    Parts(e, tag, rest);
    forall j | 0 <= j < |e| ensures text[j] != NUL {
      assert text[j] == text[..|e|][j];
    }
    FindsFirst(text, 0, |e|, tag);
    DecodePieces(ps, entities, newlines);
    pair, next := FindGet(text, Needs(entities, newlines), tag, |e|);
  }
}
