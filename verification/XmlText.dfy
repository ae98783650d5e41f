/** Text in tinyxml2: how the printer escapes it, how a run of text is found, and how entities and line ends
    are decoded in place over the parser's buffer. */
module XmlText {
  import opened Digits
  import opened Unicode
  import opened Wrappers

  const NUL := '\0'
  const LF := '\n'
  const CR := '\r'
  const INT_MAX: nat := 0x7FFF_FFFF
  const UINT_RANGE: nat := 0x1_0000_0000

  datatype Entity = Entity(pattern: string, value: char)

  const ENTITIES: seq<Entity> := [
    Entity("quot", '\"'), Entity("amp", '&'), Entity("apos", '\''), Entity("lt", '<'), Entity("gt", '>')]

  /** What a text still needs when it is fetched: NEEDS_ENTITY_PROCESSING, NEEDS_NEWLINE_NORMALIZATION. */
  datatype Needs = Needs(entities: bool, newlines: bool)

  /** One step of decoding: how many characters are read and which are written instead. None stands for
      moving the write cursor without writing. */
  datatype Step = Step(used: nat, bytes: Option<string>)

  /** The character at k of a text that is followed by NUL. */
  function At(r: string, k: nat): char {
    if k < |r| then r[k] else NUL
  }

  // Character references

  /** XMLUtil::ConvertUTF32ToUTF8. */
  function Utf8(code: nat): (bytes: string)
    ensures |bytes| <= 4 && (code == 0 ==> |bytes| == 1)
  {
    if code < 0x80 then [code as char]
    else if code < 0x800 then [(0xC0 + code / 64) as char, (0x80 + code % 64) as char]
    else if code < 0x10000 then
      [(0xE0 + code / 64 / 64) as char, (0x80 + code / 64 % 64) as char, (0x80 + code % 64) as char]
    else if code < 0x200000 then
      [(0xF0 + code / 64 / 64 / 64) as char, (0x80 + code / 64 / 64 % 64) as char,
       (0x80 + code / 64 % 64) as char, (0x80 + code % 64) as char]
    else ""
  }

  /** The bytes are the UTF-8 form of the code. */
  lemma Utf8IsExact(code: nat)
    requires code < 0x200000
    ensures IsForm(Utf8(code), code)
  {
    assert code == code / 64 * 64 + code % 64;
    assert code / 64 == code / 64 / 64 * 64 + code / 64 % 64;
    assert code / 64 / 64 == code / 64 / 64 / 64 * 64 + code / 64 / 64 % 64;
  }

  /** The method behind Utf8: it fills the bytes from the last to the first. */
  method ConvertUTF32ToUTF8(code: nat, output: array<char>) returns (length: nat)
    requires output.Length >= 4
    modifies output
    ensures length <= 4 && output[..length] == Utf8(code)
  {
    var input := code;
    if input < 0x80 {
      length := 1;
    } else if input < 0x800 {
      length := 2;
    } else if input < 0x10000 {
      length := 3;
    } else if input < 0x200000 {
      length := 4;
    } else {
      return 0;
    }
    var at := length;
    if length == 4 {
      at := at - 1;
      output[at] := (0x80 + input % 64) as char;
      input := input / 64;
    }
    if length >= 3 {
      at := at - 1;
      output[at] := (0x80 + input % 64) as char;
      input := input / 64;
    }
    if length >= 2 {
      at := at - 1;
      output[at] := (0x80 + input % 64) as char;
      input := input / 64;
    }
    at := at - 1;
    var mark := if length == 1 then 0 else if length == 2 then 0xC0 else if length == 3 then 0xE0 else 0xF0;
    output[at] := (mark + input) as char;
  }

  /** strchr: the first position from k on of c, before the terminating NUL. */
  function Find(r: string, k: nat, c: char): (p: Option<nat>)
    requires k <= |r| && c != NUL
    ensures p.Some? ==> k <= p.value < |r| && r[p.value] == c
    ensures p.Some? ==> forall j | k <= j < p.value :: r[j] != c && r[j] != NUL
    decreases |r| - k
  {
    if At(r, k) == NUL then None
    else if r[k] == c then Some(k)
    else Find(r, k + 1, c)
  }

  /** The value of a digit in base 10 or 16; -1 for a character that is none. */
  function DigitIn(base: nat, c: char): int {
    if base == 16 then HexValue(c) else if IsDigit(c) then DigitValue(c) else -1
  }

  /** Unsigned 32-bit arithmetic. */
  function Wrap32(x: nat): nat {
    x % UINT_RANGE
  }

  /** The number before position n of a reference, read from its last digit back to the mark: digits weighted
      with a 32-bit power of the base. */
  function NumberBefore(r: string, n: nat, mark: char, base: nat, mult: nat): (v: Option<nat>)
    requires n <= |r|
    ensures v.Some? && n > 0 && r[n - 1] == mark ==> v.value == 0
  {
    if n == 0 then None
    else if r[n - 1] == mark then Some(0)
    else if DigitIn(base, r[n - 1]) < 0 then None
    else
      match NumberBefore(r, n - 1, mark, base, Wrap32(mult * base))
      case None => None
      case Some(v) => Some(Wrap32(mult * DigitIn(base, r[n - 1])) + v)
  }

  /** XMLUtil::GetCharacterRef on text that starts with &#. None: the ampersand is kept as it is. */
  function CharacterRef(r: string): (s: Option<Step>)
    requires |r| >= 2 && r[1] == '#'
    ensures s.Some? ==>
      && 1 <= s.value.used <= |r| && s.value.bytes.Some? && |s.value.bytes.value| <= s.value.used
  {
    if At(r, 2) == NUL then Some(Step(1, Some("")))
    else
      var hex := r[2] == 'x';
      var start := if hex then 3 else 2;
      if At(r, start) == NUL then None
      else
        match Find(r, start, ';')
        case None => None
        case Some(n) =>
          match NumberBefore(r, n, if hex then 'x' else '#', if hex then 16 else 10, 1)
          case None => None
          case Some(code) => Some(Step(n + 1, Some(Utf8(code))))
  }

  method GetCharacterRef(buffer: array<char>, p: nat, ghost end: nat, value: array<char>)
    returns (adjusted: Option<nat>, length: nat)
    requires p + 2 <= end < buffer.Length && buffer[p + 1] == '#' && buffer[end] == NUL
    requires value != buffer && value.Length == 10
    modifies value
    ensures var r := buffer[p..end];
      match CharacterRef(r) {
        case None => adjusted.None?
        case Some(s) => adjusted == Some(p + s.used) && length <= 4 && value[..length] == s.bytes.value
      }
  {
    hide Utf8, Find, Wrap32, NumberBefore;
    length := 0;
    ghost var r := buffer[p..end];
    if buffer[p + 2] == NUL {
      return Some(p + 1), length;
    }
    var hex := buffer[p + 2] == 'x';
    var mark := if hex then 'x' else '#';
    var base := if hex then 16 else 10;
    var q := if hex then p + 3 else p + 2;
    if buffer[q] == NUL {
      return None, length;
    }
    var semicolon := FindInBuffer(buffer, q, ';', p, end);
    if semicolon.None? {
      return None, length;
    }
    var ucs := ReadDigits(buffer, semicolon.value, mark, base, p, q - 1, end);
    if ucs.None? {
      return None, length;
    }
    length := ConvertUTF32ToUTF8(ucs.value, value);
    adjusted := Some(semicolon.value + 1);
  }

  /** The loop of GetCharacterRef, from the last digit back to the mark, which stands at first. */
  method ReadDigits(buffer: array<char>, semicolon: nat, mark: char, base: nat,
    ghost p: nat, ghost first: nat, ghost end: nat)
    returns (number: Option<nat>)
    requires p <= first < semicolon <= end < buffer.Length && buffer[first] == mark
    ensures number == NumberBefore(buffer[p..end], semicolon - p, mark, base, 1)
  {
    hide Wrap32, DigitIn;
    ghost var r := buffer[p..end];
    ghost var whole := NumberBefore(r, semicolon - p, mark, base, 1);
    var ucs: nat, mult: nat := 0, 1;
    var q := semicolon - 1;
    while buffer[q] != mark
      invariant first <= q < semicolon
      invariant whole ==
        match NumberBefore(r, q - p + 1, mark, base, mult) { case None => None case Some(v) => Some(ucs + v) }
      decreases q
    {
      assert buffer[q] == r[q - p];
      var digit := DigitIn(base, buffer[q]);
      if digit < 0 {
        return None;
      }
      ucs := ucs + Wrap32(mult * digit);
      mult := Wrap32(mult * base);
      q := q - 1;
    }
    number := Some(ucs);
  }

  /** strchr on the buffer. */
  method FindInBuffer(buffer: array<char>, q: nat, c: char, ghost p: nat, ghost end: nat) returns (found: Option<nat>)
    requires p <= q <= end < buffer.Length && buffer[end] == NUL && c != NUL
    ensures match Find(buffer[p..end], q - p, c) {
        case None => found.None?
        case Some(n) => found == Some(p + n)
      }
  {
    ghost var r := buffer[p..end];
    var k := q;
    while buffer[k] != NUL && buffer[k] != c
      invariant q <= k <= end
      invariant Find(r, q - p, c) == Find(r, k - p, c)
      decreases end - k
    {
      assert buffer[k] == r[k - p];
      k := k + 1;
    }
    assert k < end ==> buffer[k] == r[k - p];
    found := if buffer[k] == c then Some(k) else None;
  }

  // Decoding

  /** The entity whose name and semicolon stand at the start of r, from the k-th of the table on. */
  function EntityAt(r: string, k: nat): (e: Option<Entity>)
    requires k <= |ENTITIES|
    ensures e.Some? ==> |e.value.pattern| + 1 <= |r|
    decreases |ENTITIES| - k
  {
    if k == |ENTITIES| then None
    else if ENTITIES[k].pattern + ";" <= r then Some(ENTITIES[k])
    else EntityAt(r, k + 1)
  }

  /** What decoding does with the text r, which is not empty. It never writes more than it reads. */
  function NextStep(r: string, needs: Needs): (s: Step)
    requires r != ""
    ensures 1 <= s.used <= |r| && (s.bytes.Some? ==> |s.bytes.value| <= s.used)
  {
    if needs.newlines && r[0] == CR then Step(if At(r, 1) == LF then 2 else 1, Some([LF]))
    else if needs.newlines && r[0] == LF then Step(if At(r, 1) == CR then 2 else 1, Some([LF]))
    else if needs.entities && r[0] == '&' then
      if At(r, 1) == '#' then
        match CharacterRef(r)
        case Some(s) => s
        case None => Step(1, Some("&"))
      else
        match EntityAt(r[1..], 0)
        case Some(e) => Step(|e.pattern| + 2, Some([e.value]))
        case None => Step(1, None)
    else Step(1, Some([r[0]]))
  }

  /** Decoding the text from position i on, with the characters written so far. An ampersand that starts nothing
      known leaves the character that stood at the write position. */
  function DecodeFrom(text: string, i: nat, out: string, needs: Needs): (d: string)
    requires |out| <= i <= |text|
    ensures |d| <= |text|
    decreases |text| - i
  {
    if i == |text| then out
    else
      var s := NextStep(text[i..], needs);
      DecodeFrom(text, i + s.used, out + (if s.bytes.Some? then s.bytes.value else [text[|out|]]), needs)
  }

  function Decode(text: string, needs: Needs): string {
    DecodeFrom(text, 0, "", needs)
  }

  lemma DecodeOneStep(text: string, i: nat, out: string, written: string, needs: Needs)
    requires |out| <= i < |text|
    requires var s := NextStep(text[i..], needs);
      written == if s.bytes.Some? then s.bytes.value else [text[|out|]]
    ensures DecodeFrom(text, i, out, needs) ==
      DecodeFrom(text, i + NextStep(text[i..], needs).used, out + written, needs)
  {
    hide NextStep;
  }

  lemma DecodeStart(text: string, needs: Needs)
    ensures Decode(text, needs) == DecodeFrom(text, 0, "", needs)
  {
  }

  lemma DecodeAll(text: string, out: string, needs: Needs)
    requires |out| <= |text|
    ensures DecodeFrom(text, |text|, out, needs) == out
  {
  }

  lemma PrefixOneMore(r: string, pattern: string, c: char)
    ensures pattern + [c] <= r <==> pattern <= r && |pattern| < |r| && r[|pattern|] == c
  {
    var longer := pattern + [c];
    if longer <= r {
      assert longer == r[..|longer|];
      assert pattern == longer[..|pattern|] == r[..|pattern|];
      assert r[|pattern|] == longer[|pattern|];
    }
    if pattern <= r && |pattern| < |r| && r[|pattern|] == c {
      assert longer == r[..|longer|];
    }
  }

  /** The first position from k on where the tag stands, before the terminating NUL. */
  function FindTag(r: string, k: nat, tag: string): (p: Option<nat>)
    requires k <= |r| && tag != ""
    ensures p.Some? ==> k <= p.value && p.value + |tag| <= |r|
    decreases |r| - k
  {
    if At(r, k) == NUL then None
    else if tag <= r[k..] then Some(k)
    else FindTag(r, k + 1, tag)
  }

  /** The number of line feeds. */
  function Lines(s: string): nat {
    if s == "" then 0 else Lines(s[..|s| - 1]) + (if s[|s| - 1] == LF then 1 else 0)
  }

  lemma NoLines()
    ensures Lines("") == 0
  {
  }

  lemma {:induction false} LinesCount(s: string)
    ensures Lines(s) == multiset(s)['\n']
  {
    if s != "" {
      LinesCount(s[..|s| - 1]);
      assert s == s[..|s| - 1] + [s[|s| - 1]];
    }
  }

  lemma LinesAppend(s: string, c: char)
    ensures Lines(s + [c]) == Lines(s) + if c == LF then 1 else 0
  {
    assert (s + [c])[..|s|] == s;
  }

  lemma FindTagStep(r: string, k: nat, tag: string)
    requires k <= |r| && tag != ""
    ensures At(r, k) == NUL ==> FindTag(r, k, tag) == None
    ensures At(r, k) != NUL ==> FindTag(r, k, tag) == if tag <= r[k..] then Some(k) else FindTag(r, k + 1, tag)
  {
  }
}
