/** Strings by section 7 of RFC 8259: characters written as themselves, with a short escape, or with one or two \u
    escapes whose digits are small or capital. The reader decodes each escape to the UTF-8 form of its code, and the
    writer chooses among them. */
module JsonEscapes {
  import opened Digits
  import opened JsonStrings
  import opened Sequences
  import opened Wrappers
  import Unicode

  /** The letters of the short escapes, and the codes they stand for. */
  const LETTERS := "\"\\/bfnrt"
  const SHORT: seq<nat> := [0x22, 0x5C, 0x2F, 0x08, 0x0C, 0x0A, 0x0D, 0x09]

  /** A character as it is written: a byte, the place of its letter among the short escapes, or its code, with the
      digits that are capital and the UTF-8 form. */
  datatype Written = Raw(c: char) | Short(k: nat) | Escaped(code: nat, capital: seq<bool>, bytes: string)

  predicate Allowed(w: Written) {
    match w
    case Raw(c) => c != '\"' && c != '\\'
    case Short(k) => k < 8
    case Escaped(code, capital, bytes) =>
      code <= 0x10FFFF && !(0xD800 <= code < 0xE000) && |capital| == 8 && Unicode.IsForm(bytes, code)
  }

  function Value(w: Written): string
    requires Allowed(w)
  {
    match w
    case Raw(c) => [c]
    case Short(k) => [SHORT[k] as char]
    case Escaped(_, _, bytes) => bytes
  }

  function HexDigit(v: nat, capital: bool): char
    requires v < 16
  {
    if capital then CAPITALS[v] else SMALL[v]
  }

  /** One \u escape. */
  function Unit(u: nat, capital: seq<bool>): (text: string)
    requires u < 0x10000 && |capital| == 4
    ensures |text| == 6
  {
    ['\\', 'u', HexDigit(u / 4096, capital[0]), HexDigit(u / 256 % 16, capital[1]),
     HexDigit(u / 16 % 16, capital[2]), HexDigit(u % 16, capital[3])]
  }

  /** The characters of the text. Codes from 0x10000 on take a pair of surrogates. */
  function TextOfOne(w: Written): string
    requires Allowed(w)
  {
    match w
    case Raw(c) => [c]
    case Short(k) => ['\\', LETTERS[k]]
    case Escaped(code, capital, _) =>
      if code < 0x10000 then Unit(code, capital[..4])
      else
        Unit(0xD800 + (code - 0x10000) / 0x400, capital[..4]) +
        Unit(0xDC00 + (code - 0x10000) % 0x400, capital[4..])
  }

  predicate AllAllowed(ws: seq<Written>) {
    forall w | w in ws :: Allowed(w)
  }

  function TextOfAll(ws: seq<Written>): string
    requires AllAllowed(ws)
  {
    if ws == [] then "" else TextOfOne(ws[0]) + TextOfAll(ws[1..])
  }

  function ValueOfAll(ws: seq<Written>): string
    requires AllAllowed(ws)
  {
    if ws == [] then "" else Value(ws[0]) + ValueOfAll(ws[1..])
  }

  // The reader

  /** The reader's encoder gives the form of the code. */
  lemma CodePointIsForm(code: nat)
    requires code <= 0x10FFFF
    ensures Unicode.IsForm(CodePointToUtf8(code), code)
  {
    assert code == code / 64 * 64 + code % 64;
    assert code / 64 == code / 4096 * 64 + code / 64 % 64;
    assert code / 4096 == code / 262144 * 64 + code / 4096 % 64;
  }

  lemma DigitIsHex(v: nat, capital: bool)
    requires v < 16
    ensures HexValue(HexDigit(v, capital)) == v
    ensures HexDigit(v, capital) != '\"' && HexDigit(v, capital) != '\\'
  {
    DigitsAre(v);
  }

  lemma FourDigits(u: nat)
    requires u < 0x10000
    ensures u == u / 4096 * 4096 + u / 256 % 16 * 256 + u / 16 % 16 * 16 + u % 16
  {
    TwoDigits(u);
    TwoDigits(u / 16);
    ThreeDigits(u);
  }

  lemma TwoDigits(u: nat)
    ensures u == u / 256 * 256 + u / 16 % 16 * 16 + u % 16 && u / 256 == u / 16 / 16
  {
    assert u == 256 * (u / 16 / 16) + 16 * (u / 16 % 16) + u % 16;
  }

  lemma ThreeDigits(u: nat)
    ensures u / 4096 == u / 16 / 256
  {
    assert u == 4096 * (u / 16 / 256) + 16 * (u / 16 % 256) + u % 16;
  }

  lemma ReadUnit(u: nat, capital: seq<bool>, rest: string)
    requires u < 0x10000 && |capital| == 4
    ensures var s := Unit(u, capital) + rest;
      s[0] == '\\' && s[1] == 'u' && HexQuad(s[2..]) == Some(u) && s[6..] == rest && s[2..][4..] == rest
  {
    var s := Unit(u, capital) + rest;
    DigitIsHex(u / 4096, capital[0]);
    DigitIsHex(u / 256 % 16, capital[1]);
    DigitIsHex(u / 16 % 16, capital[2]);
    DigitIsHex(u % 16, capital[3]);
    FourDigits(u);
    hide HexDigit, HexValue;
    var t := s[2..];
    assert t[0] == s[2] && t[1] == s[3] && t[2] == s[4] && t[3] == s[5];
  }

  lemma Pair(code: nat)
    requires 0x10000 <= code <= 0x10FFFF
    ensures var (high, low) := (0xD800 + (code - 0x10000) / 0x400, 0xDC00 + (code - 0x10000) % 0x400);
      && 0xD800 <= high <= 0xDBFF && low < 0x10000
      && code == 0x10000 + high % 1024 * 1024 + low % 1024
  {
    var n := code - 0x10000;
    assert n == n / 0x400 * 0x400 + n % 0x400;
  }

  lemma ReadShort(k: nat, rest: string)
    requires k < 8
    ensures Unescape(['\\', LETTERS[k]] + rest) == Prepend([SHORT[k] as char], Unescape(rest))
  {
    var s := ['\\', LETTERS[k]] + rest;
    assert s[2..] == rest;
    assert SimpleEscape(LETTERS[k]) == Some(SHORT[k] as char) && LETTERS[k] != 'u';
  }

  lemma BytesAreEncoded(w: Written)
    requires Allowed(w) && w.Escaped?
    ensures w.bytes == CodePointToUtf8(w.code)
  {
    hide Unicode.IsForm, CodePointToUtf8;
    CodePointIsForm(w.code);
    Unicode.FormIsUnique(w.bytes, CodePointToUtf8(w.code), w.code);
  }

  lemma ReadSmall(code: nat, capital: seq<bool>, rest: string)
    requires code < 0x10000 && !(0xD800 <= code < 0xE000) && |capital| == 4
    ensures Unescape(Unit(code, capital) + rest) == Prepend(CodePointToUtf8(code), Unescape(rest))
  {
    hide CodePointToUtf8, HexQuad, Unit;
    var s := Unit(code, capital) + rest;
    ReadUnit(code, capital, rest);
    assert UnicodeEscape(s[2..]) == Some(CodePoint(code, 4));
  }

  lemma ReadLarge(code: nat, capital: seq<bool>, rest: string)
    requires 0x10000 <= code <= 0x10FFFF && |capital| == 8
    ensures var (high, low) := (0xD800 + (code - 0x10000) / 0x400, 0xDC00 + (code - 0x10000) % 0x400);
      && 0 <= high < 0x10000 && 0 <= low < 0x10000
      && Unescape(Unit(high, capital[..4]) + Unit(low, capital[4..]) + rest) ==
         Prepend(CodePointToUtf8(code), Unescape(rest))
  {
    hide CodePointToUtf8, HexQuad, Unit, UnicodeEscape;
    Pair(code);
    var high, low := 0xD800 + (code - 0x10000) / 0x400, 0xDC00 + (code - 0x10000) % 0x400;
    Regroup(Unit(high, capital[..4]), Unit(low, capital[4..]), rest);
    ReadPair(high, low, capital, rest);
  }

  lemma ReadEscaped(w: Written, rest: string)
    requires Allowed(w) && w.Escaped?
    ensures Unescape(TextOfOne(w) + rest) == Prepend(w.bytes, Unescape(rest))
  {
    hide CodePointToUtf8, Unit, Unescape, Unicode.IsForm;
    BytesAreEncoded(w);
    if w.code < 0x10000 {
      ReadSmall(w.code, w.capital[..4], rest);
    } else {
      ReadLarge(w.code, w.capital, rest);
    }
  }

  lemma ReadPair(high: nat, low: nat, capital: seq<bool>, rest: string)
    requires 0xD800 <= high <= 0xDBFF && low < 0x10000 && |capital| == 8
    ensures var s := Unit(high, capital[..4]) + (Unit(low, capital[4..]) + rest);
      && s[0] == '\\' && s[1] == 'u' && s[12..] == rest
      && UnicodeEscape(s[2..]) == Some(CodePoint(0x10000 + high % 1024 * 1024 + low % 1024, 10))
  {
    hide HexQuad, Unit;
    var second := Unit(low, capital[4..]) + rest;
    ReadUnit(high, capital[..4], second);
    ReadUnit(low, capital[4..], rest);
    var s := Unit(high, capital[..4]) + second;
    var t := s[2..];
    assert s[6..] == second && t[4..] == second;
    assert t[4] == second[0] && t[5] == second[1] && t[6..] == second[2..];
    assert s[12..] == second[6..];
  }

  /** Any character is decoded to its bytes. */
  lemma ReadOne(w: Written, rest: string)
    requires Allowed(w)
    ensures Unescape(TextOfOne(w) + rest) == Prepend(Value(w), Unescape(rest))
  {
    match w
    case Raw(c) => assert ([c] + rest)[1..] == rest;
    case Short(k) => ReadShort(k, rest);
    case Escaped(_, _, _) => ReadEscaped(w, rest);
  }

  /** Characters decoded in front of anything. */
  lemma {:induction false} UnescapeThen(ws: seq<Written>, rest: string)
    requires AllAllowed(ws)
    ensures Unescape(TextOfAll(ws) + rest) == Prepend(ValueOfAll(ws), Unescape(rest))
  {
    hide Allowed, TextOfOne, Value, Unescape;
    if ws == [] {
      assert TextOfAll(ws) + rest == rest;
      PrependTwice("", "", Unescape(rest));
    } else {
      UnescapeThen(ws[1..], rest);
      Regroup(TextOfOne(ws[0]), TextOfAll(ws[1..]), rest);
      ReadOne(ws[0], TextOfAll(ws[1..]) + rest);
      PrependTwice(Value(ws[0]), ValueOfAll(ws[1..]), Unescape(rest));
    }
  }

  /** However each of its characters is written, a string is decoded to them. */
  lemma UnescapeOfWritten(ws: seq<Written>)
    requires AllAllowed(ws)
    ensures Unescape(TextOfAll(ws)) == Some(ValueOfAll(ws))
  {
    UnescapeThen(ws, "");
    Regroup(TextOfAll(ws), "", "");
    Regroup(ValueOfAll(ws), "", "");
    hide AllAllowed;
  }

  /** What is no escape: a backslash at the end, one in front of any other character, and a \u without four digits. */
  predicate IsNoEscape(s: string) {
    && s != "" && s[0] == '\\'
    && (|s| > 1 ==>
        (s[1] !in LETTERS && s[1] != 'u') ||
        (s[1] == 'u' && (|s| < 6 || exists k | 2 <= k < 6 :: s[k] !in SMALL && s[k] !in CAPITALS)))
  }

  lemma NoEscapeIsRefused(s: string)
    requires IsNoEscape(s)
    ensures Unescape(s) == None
  {
    hide CodePointToUtf8;
    if |s| > 1 && s[1] == 'u' {
      var t := s[2..];
      if |s| >= 6 {
        var k :| 2 <= k < 6 && s[k] !in SMALL && s[k] !in CAPITALS;
        NoOtherDigits(s[k]);
        assert t[k - 2] == s[k];
      }
      assert HexQuad(t) == None;
    } else if |s| > 1 {
      NoLetter(s[1]);
    }
  }

  lemma NoLetter(c: char)
    requires c !in LETTERS
    ensures SimpleEscape(c) == None
  {
    assert LETTERS[0] == '\"' && LETTERS[1] == '\\' && LETTERS[2] == '/' && LETTERS[3] == 'b' && LETTERS[4] == 'f';
    assert LETTERS[5] == 'n' && LETTERS[6] == 'r' && LETTERS[7] == 't';
  }

  /** Behind any characters, what is no escape is refused, and so is a first surrogate without a second escape. */
  lemma EscapesAreExact(ws: seq<Written>, s: string)
    requires AllAllowed(ws) && (IsNoEscape(s) || IsLoneSurrogate(s))
    ensures Unescape(TextOfAll(ws) + s) == None
  {
    hide Unescape, IsNoEscape, IsLoneSurrogate;
    UnescapeThen(ws, s);
    if IsNoEscape(s) {
      NoEscapeIsRefused(s);
    } else {
      LoneSurrogateIsRefused(s);
    }
  }

  /** One of the first surrogates, without another \u behind it. */
  ghost predicate IsLoneSurrogate(s: string) {
    exists u: nat, capital: seq<bool>, rest: string ::
      0xD800 <= u < 0xDC00 && |capital| == 4 && s == Unit(u, capital) + rest && !("\\u" <= rest)
  }

  lemma SecondStarts(s: string)
    ensures |s| >= 2 && s[0] == '\\' && s[1] == 'u' ==> "\\u" <= s
  {
    assert |s| >= 2 ==> s[..2] == [s[0], s[1]];
  }

  lemma LoneSurrogateIsRefused(s: string)
    requires IsLoneSurrogate(s)
    ensures Unescape(s) == None
  {
    hide Unit, HexQuad, CodePointToUtf8;
    var u: nat, capital: seq<bool>, rest: string :|
      0xD800 <= u < 0xDC00 && |capital| == 4 && s == Unit(u, capital) + rest && !("\\u" <= rest);
    ReadUnit(u, capital, rest);
    var t := s[2..];
    assert |t| == 4 + |rest| && t[4..] == rest;
    SecondStarts(rest);
    assert UnicodeEscape(t) == None;
  }

  /** So the bytes of an escape are those that UTF-8 assigns to its code. */
  lemma EscapeDenotesCode(code: nat, capital: seq<bool>, bytes: string)
    requires Allowed(Escaped(code, capital, bytes))
    ensures Unescape(TextOfOne(Escaped(code, capital, bytes))) == Some(bytes) && Unicode.Decode(bytes) == Some([code])
  {
    DecodesTo(bytes, code);
    var w := Escaped(code, capital, bytes);
    hide *;
    ReadOne(w, "");
    Regroup(TextOfOne(w), "", "");
    NothingLeft(w);
  }

  lemma NothingLeft(w: Written)
    requires Allowed(w)
    ensures Prepend(Value(w), Unescape("")) == Some(Value(w))
    ensures w.Escaped? ==> Value(w) == w.bytes
  {
    Regroup(Value(w), "", "");
  }

  lemma DecodesTo(bytes: string, code: int)
    requires Unicode.IsForm(bytes, code)
    ensures Unicode.Decode(bytes) == Some([code])
  {
    NoCodes();
    hide *;
    Unicode.DecodeOne(bytes, code, "");
    Regroup(bytes, "", "");
    Regroup([code], [], []);
  }

  lemma NoCodes()
    ensures Unicode.Decode("") == Some([])
  {
  }

  /** An ideograph of three bytes, in digits of both kinds. */
  lemma Ideograph()
    ensures Unescape("\\u4e2D") == Some([0xE4 as char, 0xB8 as char, 0xAD as char])
  {
    var capital := [false, false, false, true, true, true, true, true];
    var w := Escaped(0x4E2D, capital, [0xE4 as char, 0xB8 as char, 0xAD as char]);
    assert capital[..4] == [false, false, false, true];
    assert TextOfOne(w) == "\\u4e2D";
    EscapeDenotesCode(w.code, capital, w.bytes);
  }

  // The end of the string

  function Further(n: nat, q: Option<nat>): Option<nat> {
    if q.Some? then Some(n + q.value) else None
  }

  lemma FurtherTwice(m: nat, n: nat, q: Option<nat>)
    ensures Further(m, Further(n, q)) == Further(m + n, q)
  {
  }

  lemma PlainCharPrecedesQuote(c: char, rest: string)
    requires c != '\"' && c != '\\'
    ensures ClosingQuote([c] + rest) == Further(1, ClosingQuote(rest))
  {
    assert ([c] + rest)[1..] == rest;
  }

  lemma PairPrecedesQuote(c: char, rest: string)
    ensures ClosingQuote(['\\', c] + rest) == Further(2, ClosingQuote(rest))
  {
    assert (['\\', c] + rest)[2..] == rest;
  }

  lemma TwoPrecedeQuote(c: char, d: char, rest: string)
    requires c != '\"' && c != '\\' && d != '\"' && d != '\\'
    ensures ClosingQuote([c, d] + rest) == Further(2, ClosingQuote(rest))
  {
    hide *;
    PlainCharPrecedesQuote(d, rest);
    PlainCharPrecedesQuote(c, [d] + rest);
    FurtherTwice(1, 1, ClosingQuote(rest));
    Regroup([c], [d], rest);
    assert [c] + [d] == [c, d];
  }

  lemma UnitParts(u: nat, capital: seq<bool>) returns (a: char, b: char, c: char, d: char)
    requires u < 0x10000 && |capital| == 4
    ensures Unit(u, capital) == ['\\', 'u'] + ([a, b] + [c, d])
    ensures a != '\"' && a != '\\' && b != '\"' && b != '\\' && c != '\"' && c != '\\' && d != '\"' && d != '\\'
  {
    a, b := HexDigit(u / 4096, capital[0]), HexDigit(u / 256 % 16, capital[1]);
    c, d := HexDigit(u / 16 % 16, capital[2]), HexDigit(u % 16, capital[3]);
    DigitIsHex(u / 4096, capital[0]);
    DigitIsHex(u / 256 % 16, capital[1]);
    DigitIsHex(u / 16 % 16, capital[2]);
    DigitIsHex(u % 16, capital[3]);
    hide HexDigit;
  }

  lemma UnitPrecedesQuote(u: nat, capital: seq<bool>, rest: string)
    requires u < 0x10000 && |capital| == 4
    ensures ClosingQuote(Unit(u, capital) + rest) == Further(6, ClosingQuote(rest))
  {
    hide *;
    var a, b, c, d := UnitParts(u, capital);
    TwoPrecedeQuote(c, d, rest);
    TwoPrecedeQuote(a, b, [c, d] + rest);
    PairPrecedesQuote('u', [a, b] + ([c, d] + rest));
    FurtherTwice(2, 2, ClosingQuote(rest));
    FurtherTwice(2, 4, ClosingQuote(rest));
    Regroup([a, b], [c, d], rest);
    Regroup(['\\', 'u'], [a, b] + [c, d], rest);
  }

  lemma WrittenPrecedesQuote(w: Written, rest: string)
    requires Allowed(w)
    ensures ClosingQuote(TextOfOne(w) + rest) == Further(|TextOfOne(w)|, ClosingQuote(rest))
  {
    hide ClosingQuote, Unit, Unicode.IsForm;
    match w
    case Raw(c) => PlainCharPrecedesQuote(c, rest);
    case Short(k) => PairPrecedesQuote(LETTERS[k], rest);
    case Escaped(code, capital, _) =>
      if code < 0x10000 {
        UnitPrecedesQuote(code, capital[..4], rest);
      } else {
        var high, low := 0xD800 + (code - 0x10000) / 0x400, 0xDC00 + (code - 0x10000) % 0x400;
        UnitPrecedesQuote(low, capital[4..], rest);
        UnitPrecedesQuote(high, capital[..4], Unit(low, capital[4..]) + rest);
        Regroup(Unit(high, capital[..4]), Unit(low, capital[4..]), rest);
      }
  }

  /** No quote is found among written characters. */
  lemma {:induction false} ClosingQuoteThen(ws: seq<Written>, rest: string)
    requires AllAllowed(ws)
    ensures ClosingQuote(TextOfAll(ws) + rest) == Further(|TextOfAll(ws)|, ClosingQuote(rest))
  {
    hide Allowed, TextOfOne, ClosingQuote;
    if ws == [] {
      assert TextOfAll(ws) + rest == rest;
    } else {
      ClosingQuoteThen(ws[1..], rest);
      WrittenPrecedesQuote(ws[0], TextOfAll(ws[1..]) + rest);
      Regroup(TextOfOne(ws[0]), TextOfAll(ws[1..]), rest);
    }
  }

  /** So the first unescaped quote is the one behind them, and there is none without it. */
  lemma ClosingQuoteOfWritten(ws: seq<Written>, rest: string)
    requires AllAllowed(ws)
    ensures ClosingQuote(TextOfAll(ws) + ("\"" + rest)) == Some(|TextOfAll(ws)| + 1)
    ensures ClosingQuote(TextOfAll(ws)) == None
  {
    hide AllAllowed, TextOfAll;
    ClosingQuoteThen(ws, "\"" + rest);
    ClosingQuoteThen(ws, "");
    Regroup(TextOfAll(ws), "", "");
  }

  // The writer

  /** How the writer writes a character: with a short escape where there is one, but for the slash, with an escape of
      capital digits if it is another control character, or as it is. */
  function Chosen(c: char): (w: Written)
    ensures Allowed(w) && Value(w) == [c]
  {
    if c == '\"' then Short(0) else if c == '\\' then Short(1)
    else if c == 0x08 as char then Short(3) else if c == 0x0C as char then Short(4)
    else if c == 0x0A as char then Short(5) else if c == 0x0D as char then Short(6)
    else if c == 0x09 as char then Short(7)
    else if c < 0x20 as char then Escaped(c as int, seq(8, _ => true), [c])
    else Raw(c)
  }

  function ChosenAll(s: string): (ws: seq<Written>)
    ensures AllAllowed(ws) && ValueOfAll(ws) == s
  {
    if s == "" then [] else [Chosen(s[0])] + ChosenAll(s[1..])
  }

  lemma CapitalDigit(n: nat)
    requires n < 16
    ensures UpperHex(n) == HexDigit(n, true)
  {
  }

  lemma ControlIsUnit(c: char)
    requires c < 0x20 as char
    ensures "\\u00" + [UpperHex(c as int / 16), UpperHex(c as int % 16)] == Unit(c as int, seq(4, _ => true))
  {
    var n := c as int;
    CapitalDigit(n / 16);
    CapitalDigit(n % 16);
    assert n / 4096 == 0 && n / 256 % 16 == 0 && n / 16 % 16 == n / 16;
    assert HexDigit(0, true) == '0';
  }

  lemma EscapeCharIsChosen(c: char)
    ensures EscapeChar(c) == TextOfOne(Chosen(c))
  {
    if c < 0x20 as char {
      ControlIsUnit(c);
    }
    hide Unit, UpperHex, Unicode.IsForm;
    assert seq(8, _ => true)[..4] == seq(4, _ => true);
  }

  lemma {:induction false} EscapeIsChosen(s: string)
    ensures Escape(s) == TextOfAll(ChosenAll(s))
  {
    hide Chosen, EscapeChar, TextOfOne;
    if s != "" {
      EscapeCharIsChosen(s[0]);
      EscapeIsChosen(s[1..]);
    }
  }

  /** Decoding the escaped form of any string gives the string. */
  lemma UnescapeOfEscape(s: string)
    ensures Unescape(Escape(s)) == Some(s)
  {
    hide *;
    EscapeIsChosen(s);
    UnescapeOfWritten(ChosenAll(s));
  }

  /** No escaped string contains a control character, so neither a NUL nor a line end. */
  lemma {:induction false} EscapeHasNoControl(s: string)
    ensures forall c | c in Escape(s) :: c >= ' '
  {
    if s != [] {
      EscapeHasNoControl(s[1..]);
      assert forall c | c in EscapeChar(s[0]) :: c >= ' ';
    }
  }
}
