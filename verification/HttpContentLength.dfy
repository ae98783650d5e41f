/** The Content-Length value: s_header_value_start and s_header_value in state h_content_length. */
module HttpContentLength {
  import opened Digits
  import opened HttpBody

  datatype Outcome =
    | Length(value: nat)
    | InvalidLength
    | UnexpectedLength
    | InvalidToken

  /** IS_HEADER_CHAR, for a parser that is not lenient. */
  predicate IsHeaderChar(c: char) {
    c == '\r' || c == '\n' || c == '\t' || (c > '\U{1F}' && c != '\U{7F}')
  }

  /** Numbers from here on are beyond the parser's conservative limit. */
  const LENGTH_LIMIT := ABSENT - 5

  function WithoutSpaces(s: string): (r: string)
    ensures |r| <= |s|
  {
    if s == "" then ""
    else WithoutSpaces(s[..|s| - 1]) + (if s[|s| - 1] == ' ' then "" else [s[|s| - 1]])
  }

  /** A value that is accepted: a digit, then digits and spaces. The spaces do not end the number. */
  predicate WellFormed(value: string) {
    value != "" && IsDigit(value[0]) && AllDigits(WithoutSpaces(value))
  }

  lemma {:induction false} PrefixWellFormed(value: string, k: nat)
    requires 0 < k <= |value| && WellFormed(value)
    ensures WellFormed(value[..k])
    ensures Numeral(WithoutSpaces(value[..k])) <= Numeral(WithoutSpaces(value))
  {
    if k < |value| {
      var init, c := value[..|value| - 1], value[|value| - 1];
      var d := WithoutSpaces(init);
      if c != ' ' {
        assert WithoutSpaces(value)[..|d|] == d;
        assert forall j | 0 <= j < |d| :: d[j] == WithoutSpaces(value)[j];
      } else {
        assert WithoutSpaces(value) == d;
      }
      PrefixWellFormed(init, k);
      assert init[..k] == value[..k];
    } else {
      assert value[..k] == value;
    }
  }

  lemma FirstCharacter(value: string)
    requires value != ""
    ensures WellFormed(value) ==> IsDigit(value[0])
    ensures IsDigit(value[0]) ==>
      WellFormed(value[..1]) && Numeral(WithoutSpaces(value[..1])) == DigitValue(value[0])
  {
    if IsDigit(value[0]) {
      assert value[..1][..0] == "" && [value[0]][..0] == "";
      assert WithoutSpaces(value[..1]) == [value[0]];
    }
  }

  /** What one more character does to the digits read so far. */
  lemma NextCharacter(value: string, p: nat)
    requires 0 < p < |value| && WellFormed(value[..p])
    ensures var (digits, more) := (WithoutSpaces(value[..p]), WithoutSpaces(value[..p + 1]));
            && more == (if value[p] == ' ' then digits else digits + [value[p]])
            && (WellFormed(value[..p + 1]) <==> value[p] == ' ' || IsDigit(value[p]))
            && (IsDigit(value[p]) ==> Numeral(more) == 10 * Numeral(digits) + DigitValue(value[p]))
  {
    var digits := WithoutSpaces(value[..p]);
    var more := digits + [value[p]];
    assert value[..p + 1][..p] == value[..p];
    assert digits + "" == digits;
    assert more[..|digits|] == digits && more[|digits|] == value[p];
  }

  lemma {:induction false} NoSpaces(s: string)
    requires ' ' !in s
    ensures WithoutSpaces(s) == s
  {
    if s != "" {
      NoSpaces(s[..|s| - 1]);
    }
  }

  /** A value of digits alone is well-formed and stands for its number. */
  lemma PlainNumber(digits: seq<nat>, written: string)
    requires AreDigits(10, digits, written) && digits != []
    ensures WellFormed(written) && Numeral(WithoutSpaces(written)) == NumberOf(10, digits)
  {
    NumeralOfWritten(digits, written);
    hide Numeral, NumberOf, AreDigits;
    NoSpaces(written);
  }

  predicate EndsLine(c: char) { c == '\r' || c == '\n' }

  /** The characters in front of the first line end. */
  function FirstLine(s: string): (line: string)
    ensures line <= s && (|line| < |s| ==> EndsLine(s[|line|])) && forall k | 0 <= k < |line| :: !EndsLine(s[k])
  {
    if s == "" || EndsLine(s[0]) then "" else [s[0]] + FirstLine(s[1..])
  }

  /** Reads text that starts with a value, up to the end of the line. When a length is returned it is exactly the
      number the digits denote; it is below the value that stands for no length, and a value is refused exactly
      when it is malformed or its number is 2^64 - 6 or more. No step exceeds 64 bits unnoticed. */
  method ReadContentLength(text: string, seenBefore: bool) returns (r: Outcome)
    requires text != "" && !EndsLine(text[0])
    ensures var value := FirstLine(text);
      && (r.Length? <==> !seenBefore && WellFormed(value) && Numeral(WithoutSpaces(value)) < 0xFFFF_FFFF_FFFF_FFFA)
      && (r.Length? ==> r.value == Numeral(WithoutSpaces(value)))
    ensures r.UnexpectedLength? <==> seenBefore && IsDigit(text[0])
  {
    hide WithoutSpaces, Numeral, AllDigits, FirstLine;
    ghost var value := FirstLine(text);
    assert value != "" && value[0] == text[0];
    FirstCharacter(value);
    if !IsDigit(text[0]) {
      return InvalidLength;
    }
    if seenBefore {
      return UnexpectedLength;
    }
    var contentLength := DigitValue(text[0]);
    var p := 1;
    while p < |text| && !EndsLine(text[p])
      invariant p <= |value|
      invariant WellFormed(value[..p])
      invariant contentLength == Numeral(WithoutSpaces(value[..p])) < LENGTH_LIMIT
      decreases |text| - p
    {
      var ch := text[p];
      assert p < |value| && value[p] == ch;
      NextCharacter(value, p);
      if WellFormed(value) {
        PrefixWellFormed(value, p + 1);
      }
      if !IsHeaderChar(ch) {
        return InvalidToken;
      }
      if ch != ' ' {
        if !IsDigit(ch) {
          return InvalidLength;
        }
        if (ABSENT - 10) / 10 < contentLength {
          return InvalidLength;
        }
        contentLength := contentLength * 10 + DigitValue(ch);
      }
      p := p + 1;
    }
    assert value[..p] == value;
    r := Length(contentLength);
  }

  /** Section 3.3.2 of RFC 7230: digits, with white space only at the end of the value. */
  ghost predicate Conforms(value: string) {
    exists k :: 0 < k <= |value| && AllDigits(value[..k]) && forall j | k <= j < |value| :: value[j] == ' '
  }

  /** An accepted value conforms exactly when nothing but spaces follows a space. */
  lemma {:induction false} AcceptedConforms(value: string)
    requires WellFormed(value)
    ensures Conforms(value) <==> forall i, j | 0 <= i < j < |value| && value[i] == ' ' :: value[j] == ' '
  {
    DigitsAndSpaces(value);
    if forall i, j | 0 <= i < j < |value| && value[i] == ' ' :: value[j] == ' ' {
      var k := FirstSpace(value);
      assert AllDigits(value[..k]);
    }
    if Conforms(value) {
      var k :| 0 < k <= |value| && AllDigits(value[..k]) && forall j | k <= j < |value| :: value[j] == ' ';
      forall i, j | 0 <= i < j < |value| && value[i] == ' ' ensures value[j] == ' ' {
        assert i < k ==> IsDigit(value[..k][i]);
      }
    }
  }

  lemma {:induction false} DigitsAndSpaces(value: string)
    requires AllDigits(WithoutSpaces(value))
    ensures forall j | 0 <= j < |value| :: IsDigit(value[j]) || value[j] == ' '
  {
    if value != "" {
      var init, digits := value[..|value| - 1], WithoutSpaces(value);
      assert WithoutSpaces(init) == digits[..|WithoutSpaces(init)|];
      assert forall j | 0 <= j < |WithoutSpaces(init)| :: WithoutSpaces(init)[j] == digits[j];
      DigitsAndSpaces(init);
      assert value[|value| - 1] != ' ' ==> digits[|digits| - 1] == value[|value| - 1];
    }
  }

  lemma {:induction false} FirstSpace(value: string) returns (k: nat)
    ensures k <= |value| && (forall j | 0 <= j < k :: value[j] != ' ') && (k < |value| ==> value[k] == ' ')
  {
    if value == "" || value[0] == ' ' {
      k := 0;
    } else {
      k := FirstSpace(value[1..]);
      k := k + 1;
    }
  }

  /** A value with a space inside: 1 2 is read as 12. */
  method SpaceInside() returns (r: Outcome)
    ensures r == Length(12) && !Conforms("1 2")
  {
    hide WithoutSpaces, Numeral, AllDigits, Conforms;
    DigitsOfExample();
    NumberOfExample();
    var value := "1 2";
    assert value[0] == '1' && value[1] == ' ' && value[2] == '2';
    AcceptedConforms(value);
    assert FirstLine(value) == value by { NoLineEnd(value); }
    r := ReadContentLength(value, false);
  }

  lemma NoLineEnd(s: string)
    requires forall k | 0 <= k < |s| :: !EndsLine(s[k])
    ensures FirstLine(s) == s
  {
  }

  lemma DigitsOfExample()
    ensures WithoutSpaces("1 2") == "12"
  {
    assert "1 2"[..2] == "1 " && "1 "[..1] == "1" && "1"[..0] == "";
    assert WithoutSpaces("1") == "1" && WithoutSpaces("1 ") == "1";
  }

  lemma NumberOfExample()
    ensures AllDigits("12") && Numeral("12") == 12
  {
    assert "12"[..1] == "1" && "1"[..0] == "";
    assert Numeral("1") == 1;
  }
}
