/** String tokens: valueToQuotedStringN on one side, decodeString on the other. */
module JsonStrings {
  import opened Digits
  import opened Sequences
  import opened Wrappers

  /** isControlCharacter or NUL. */
  predicate IsControl(c: char) { c <= '\U{1F}' }

  predicate NeedsEscape(c: char) {
    c == '\"' || c == '\\' || IsControl(c)
  }

  function UpperHex(n: nat): char
    requires n < 16
  {
    if n < 10 then (n + '0' as int) as char else (n - 10 + 'A' as int) as char
  }

  /** What the writer emits for one character of a string. */
  function EscapeChar(c: char): string {
    match c
    case '\"' => "\\\""
    case '\\' => "\\\\"
    case '\U{8}' => "\\b"
    case '\U{C}' => "\\f"
    case '\n' => "\\n"
    case '\r' => "\\r"
    case '\t' => "\\t"
    case _ =>
      if IsControl(c) then "\\u00" + [UpperHex(c as int / 16), UpperHex(c as int % 16)] else [c]
  }

  function Escape(s: string): string {
    if s == [] then "" else EscapeChar(s[0]) + Escape(s[1..])
  }

  function Quote(s: string): string {
    "\"" + Escape(s) + "\""
  }

  lemma {:induction false} EscapeOfAppend(s: string, c: char)
    ensures Escape(s + [c]) == Escape(s) + EscapeChar(c)
  {
    hide EscapeChar;
    if s == [] {
      assert s + [c] == [c];
      assert Escape([]) == "";
    } else {
      EscapeOfAppend(s[1..], c);
      assert (s + [c])[1..] == s[1..] + [c];
      Regroup(EscapeChar(s[0]), Escape(s[1..]), EscapeChar(c));
    }
  }

  lemma {:induction false} EscapeOfPlain(s: string)
    requires forall k | 0 <= k < |s| :: !NeedsEscape(s[k])
    ensures Escape(s) == s
  {
    if s != [] {
      EscapeOfPlain(s[1..]);
      assert EscapeChar(s[0]) == [s[0]];
      assert s == [s[0]] + s[1..];
    }
  }

  /** strnpbrk for the characters the writer looks for, together with containsControlCharacter0. */
  method HasSpecialCharacter(value: string) returns (found: bool)
    ensures found == exists k | 0 <= k < |value| :: NeedsEscape(value[k])
  {
    var accept := "\"\\\U{8}\U{C}\n\r\t";
    for cur := 0 to |value|
      invariant forall k | 0 <= k < cur :: value[k] !in accept
    {
      for a := 0 to |accept|
        invariant forall k | 0 <= k < a :: accept[k] != value[cur]
      {
        if accept[a] == value[cur] {
          assert NeedsEscape(value[cur]);
          return true;
        }
      }
    }
    for cur := 0 to |value|
      invariant forall k | 0 <= k < cur :: !IsControl(value[k])
    {
      if IsControl(value[cur]) {
        assert NeedsEscape(value[cur]);
        return true;
      }
    }
    forall k | 0 <= k < |value| ensures !NeedsEscape(value[k]) {
      assert value[k] !in accept && accept[0] == '\"' && accept[1] == '\\';
    }
    return false;
  }

  /** The switch of valueToQuotedStringN. */
  method EscapeOne(c: char) returns (piece: string)
    ensures piece == EscapeChar(c)
  {
    match c {
      case '\"' => piece := "\\\"";
      case '\\' => piece := "\\\\";
      case '\U{8}' => piece := "\\b";
      case '\U{C}' => piece := "\\f";
      case '\n' => piece := "\\n";
      case '\r' => piece := "\\r";
      case '\t' => piece := "\\t";
      case _ =>
        if IsControl(c) {
          var code := c as int;
          piece := "\\u00" + [UpperHex(code / 16), UpperHex(code % 16)];
        } else {
          piece := [c];
        }
    }
  }

  /** valueToQuotedStringN: the text is copied when nothing in it needs an escape. */
  method ValueToQuotedString(value: string) returns (result: string)
    ensures result == Quote(value)
  {
    hide EscapeChar, Escape;
    var special := HasSpecialCharacter(value);
    if !special {
      EscapeOfPlain(value);
      return "\"" + value + "\"";
    }
    result := "\"";
    EscapeOfNothing(value);
    Regroup(result, [], []);
    for c := 0 to |value|
      invariant result == "\"" + Escape(value[..c])
    {
      assert value[..c + 1] == value[..c] + [value[c]];
      EscapeOfAppend(value[..c], value[c]);
      var piece := EscapeOne(value[c]);
      Regroup("\"", Escape(value[..c]), piece);
      result := result + piece;
    }
    assert value[..|value|] == value;
    result := result + "\"";
  }

  lemma EscapeOfNothing(value: string)
    ensures Escape(value[..0]) == ""
  {
  }

  /** codePointToUTF8; a code point beyond U+10FFFF gives the empty string. */
  function CodePointToUtf8(cp: nat): string {
    if cp <= 0x7F then [cp as char]
    else if cp <= 0x7FF then [(0xC0 + cp / 64) as char, (0x80 + cp % 64) as char]
    else if cp <= 0xFFFF then
      [(0xE0 + cp / 4096) as char, (0x80 + cp / 64 % 64) as char, (0x80 + cp % 64) as char]
    else if cp <= 0x10FFFF then
      [(0xF0 + cp / 262144) as char, (0x80 + cp / 4096 % 64) as char,
       (0x80 + cp / 64 % 64) as char, (0x80 + cp % 64) as char]
    else ""
  }

  /** Four hexadecimal digits at the start of s: decodeUnicodeEscapeSequence. */
  function HexQuad(s: string): (q: Option<nat>)
    ensures q.Some? ==> |s| >= 4 && q.value <= 0xFFFF
  {
    if |s| < 4 || HexValue(s[0]) < 0 || HexValue(s[1]) < 0 || HexValue(s[2]) < 0 || HexValue(s[3]) < 0 then None
    else Some(HexValue(s[0]) * 4096 + HexValue(s[1]) * 256 + HexValue(s[2]) * 16 + HexValue(s[3]))
  }

  /** A code point and the number of characters of its \u escape after the letter u. */
  datatype CodePoint = CodePoint(code: nat, used: nat)

  /** decodeUnicodeCodePoint: a first surrogate must be followed by a second \u escape, whose low
      ten bits are taken whatever it is. */
  function UnicodeEscape(s: string): (r: Option<CodePoint>)
    ensures r.Some? ==> 4 <= r.value.used <= |s|
  {
    match HexQuad(s)
    case None => None
    case Some(high) =>
      if !(0xD800 <= high <= 0xDBFF) then Some(CodePoint(high, 4))
      else if |s| < 10 || s[4] != '\\' || s[5] != 'u' then None
      else match HexQuad(s[6..])
        case None => None
        case Some(low) => Some(CodePoint(0x10000 + high % 1024 * 1024 + low % 1024, 10))
  }

  function SimpleEscape(c: char): Option<char> {
    match c
    case '\"' => Some('\"')
    case '/' => Some('/')
    case '\\' => Some('\\')
    case 'b' => Some('\U{8}')
    case 'f' => Some('\U{C}')
    case 'n' => Some('\n')
    case 'r' => Some('\r')
    case 't' => Some('\t')
    case _ => None
  }

  function Prepend(s: string, t: Option<string>): Option<string> {
    if t.Some? then Some(s + t.value) else None
  }

  lemma PrependTwice(s: string, t: string, u: Option<string>)
    ensures Prepend(s, Prepend(t, u)) == Prepend(s + t, u)
    ensures Prepend("", u) == u
  {
    if u.Some? {
      assert s + (t + u.value) == (s + t) + u.value;
      assert "" + u.value == u.value;
    }
  }

  /** The string denoted by the characters between the quotes of a string token. */
  function Unescape(body: string): Option<string>
    decreases |body|
  {
    if body == [] || body[0] == '\"' then Some("")
    else if body[0] != '\\' then Prepend([body[0]], Unescape(body[1..]))
    else if |body| == 1 then None
    else if body[1] != 'u' then
      match SimpleEscape(body[1])
      case Some(c) => Prepend([c], Unescape(body[2..]))
      case None => None
    else
      match UnicodeEscape(body[2..])
      case Some(cp) => Prepend(CodePointToUtf8(cp.code), Unescape(body[2 + cp.used..]))
      case None => None
  }

  /** decodeUnicodeEscapeSequence's loop over the four digits. */
  method DecodeUnicodeEscapeSequence(body: string, start: nat) returns (ok: bool, current: nat, unicode: nat)
    requires start <= |body|
    ensures ok == HexQuad(body[start..]).Some?
    ensures ok ==> current == start + 4 && unicode == HexQuad(body[start..]).value
  {
    current, unicode := start, 0;
    if |body| - current < 4 {
      return false, current, unicode;
    }
    ghost var s := body[start..];
    for index := 0 to 4
      invariant current == start + index
      invariant forall k | 0 <= k < index :: HexValue(s[k]) >= 0
      invariant unicode == (if index == 0 then 0 else if index == 1 then HexValue(s[0])
        else if index == 2 then HexValue(s[0]) * 16 + HexValue(s[1])
        else if index == 3 then HexValue(s[0]) * 256 + HexValue(s[1]) * 16 + HexValue(s[2])
        else HexValue(s[0]) * 4096 + HexValue(s[1]) * 256 + HexValue(s[2]) * 16 + HexValue(s[3]))
    {
      var c := body[current];
      assert c == s[index];
      current := current + 1;
      unicode := unicode * 16;
      if HexValue(c) < 0 {
        return false, current, unicode;
      }
      unicode := unicode + HexValue(c);
    }
    ok := true;
  }

  method DecodeUnicodeCodePoint(body: string, start: nat) returns (ok: bool, current: nat, unicode: nat)
    requires start <= |body|
    ensures ok == UnicodeEscape(body[start..]).Some?
    ensures ok ==> start <= current <= |body|
    ensures ok ==> UnicodeEscape(body[start..]) == Some(CodePoint(unicode, current - start))
  {
    ghost var s := body[start..];
    ok, current, unicode := DecodeUnicodeEscapeSequence(body, start);
    if !ok {
      return;
    }
    if 0xD800 <= unicode <= 0xDBFF {
      if |body| - current < 6 {
        return false, current, unicode;
      }
      assert body[current] == s[4] && body[current + 1] == s[5];
      if body[current] == '\\' && body[current + 1] == 'u' {
        assert body[current + 2..] == s[6..];
        var surrogatePair;
        ok, current, surrogatePair := DecodeUnicodeEscapeSequence(body, current + 2);
        if ok {
          unicode := 0x10000 + unicode % 1024 * 1024 + surrogatePair % 1024;
        }
      } else {
        return false, current, unicode;
      }
    }
  }

  /** decodeString: the loop over a string token with both its quotes. */
  method DecodeString(token: string) returns (decoded: Option<string>)
    requires |token| >= 2
    ensures decoded == Unescape(token[1..|token| - 1])
  {
    hide UnicodeEscape, CodePointToUtf8, SimpleEscape;
    var current := 1;
    var end := |token| - 1;
    var text := "";
    ghost var body := token[1..end];
    PrependTwice("", "", Unescape(body));
    while current != end
      invariant 1 <= current <= end
      invariant Unescape(body) == Prepend(text, Unescape(token[current..end]))
      decreases end - current
    {
      ghost var rest := token[current..end];
      var c := token[current];
      current := current + 1;
      assert rest[1..] == token[current..end];
      ghost var before := text;
      if c == '\"' {
        assert before + "" == before;
        return Some(text);
      } else if c == '\\' {
        if current == end {
          return None;
        }
        var escape := token[current];
        current := current + 1;
        assert rest[2..] == token[current..end];
        if escape == 'u' {
          assert token[current..end] == token[..end][current..];
          var ok, next, unicode := DecodeUnicodeCodePoint(token[..end], current);
          if !ok {
            return None;
          }
          assert rest[2 + (next - current)..] == token[next..end];
          current := next;
          text := text + CodePointToUtf8(unicode);
          PrependTwice(before, CodePointToUtf8(unicode), Unescape(token[current..end]));
        } else {
          var plain := SimpleEscape(escape);
          if plain.None? {
            return None;
          }
          text := text + [plain.value];
          PrependTwice(before, [plain.value], Unescape(token[current..end]));
        }
      } else {
        text := text + [c];
        PrependTwice(before, [c], Unescape(token[current..end]));
      }
    }
    assert text + "" == text;
    decoded := Some(text);
  }

  /** Where readString stops: the position just after the closing quote, if there is one. */
  function ClosingQuote(s: string): (r: Option<nat>)
    ensures r.Some? ==> 1 <= r.value <= |s|
    decreases |s|
  {
    if s == [] then None
    else if s[0] == '\"' then Some(1)
    else
      var step := if s[0] == '\\' && |s| > 1 then 2 else 1;
      match ClosingQuote(s[step..])
      case Some(n) => Some(step + n)
      case None => None
  }
}
