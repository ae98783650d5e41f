/** Integer tokens: uintToString and valueToString on one side, decodeNumber on the other. */
module JsonNumbers {
  import opened Digits
  import opened Sequences
  import opened Wrappers
  import opened JsonValue

  /** uintToStringBufferSize: three characters for each of the eight bytes of a LargestUInt, and one. */
  const BUFFER_SIZE := 25

  /** Decimal notation of a signed number: what valueToString returns. */
  function Signed(n: int): string {
    if n < 0 then ['-'] + Decimal(-n) else Decimal(n)
  }

  function Power10(k: nat): nat { if k == 0 then 1 else 10 * Power10(k - 1) }

  lemma {:induction false} DecimalLength(n: nat, k: nat)
    requires k >= 1 && n < Power10(k)
    ensures 1 <= |Decimal(n)| <= k
  {
    if n >= 10 {
      assert k > 1;
      DecimalLength(n / 10, k - 1);
    }
  }

  lemma DecimalFitsBuffer(n: nat)
    requires n <= MAX_UINT64
    ensures |Decimal(n)| <= 20
  {
    assert Power10(20) == 1_0000_0000_0000_0000_0000 by {
      assert Power10(5) == 1_00000;
      assert Power10(10) == 1_00000_00000;
      assert Power10(15) == 1_00000_00000_00000;
    }
    DecimalLength(n, 20);
  }

  /** Writes the digits of value, and a terminating NUL, downwards from position current. */
  method UIntToString(value: nat, buffer: array<char>, current: nat) returns (start: nat)
    requires value <= MAX_UINT64
    requires 21 <= current <= buffer.Length
    modifies buffer
    ensures start == current - 1 - |Decimal(value)|
    ensures buffer[start..current] == Decimal(value) + ['\0']
    ensures buffer[..start] == old(buffer[..start])
    ensures buffer[current..] == old(buffer[current..])
  {
    hide Decimal;
    DecimalFitsBuffer(value);
    start := current - 1;
    buffer[start] := '\0';
    var v := value;
    start := start - 1;
    buffer[start] := Digit(v % 10);
    v := v / 10;
    LastDigit(value);
    assert buffer[start..current] == [Digit(value % 10)] + ['\0'];
    Regroup(Decimal(v), [Digit(value % 10)], ['\0']);
    while v != 0
      invariant 0 <= start <= current - 2
      invariant v == 0 ==> buffer[start..current] == Decimal(value) + ['\0']
      invariant v != 0 ==> |Decimal(v)| <= start && Decimal(v) + buffer[start..current] == Decimal(value) + ['\0']
      invariant buffer[..start] == old(buffer[..start])
      invariant buffer[current..] == old(buffer[current..])
      decreases v
    {
      ghost var was := buffer[start..current];
      ghost var w := v;
      LastDigit(w);
      start := start - 1;
      buffer[start] := Digit(v % 10);
      v := v / 10;
      assert buffer[start..current] == [Digit(w % 10)] + was;
      Regroup(Decimal(v), [Digit(w % 10)], was);
    }
  }

  lemma LastDigit(n: nat)
    ensures Decimal(n) != ""
    ensures Decimal(n) == if n / 10 == 0 then [Digit(n % 10)] else Decimal(n / 10) + [Digit(n % 10)]
  {
  }

  /** The decimal notation of any number of either integer payload; the buffer is never underrun. */
  method ValueToString(value: int) returns (text: string)
    requires MIN_INT64 <= value <= MAX_UINT64
    ensures text == Signed(value)
  {
    hide Decimal, Signed;
    SignedDigits(value);
    var buffer := new char[BUFFER_SIZE];
    var current;
    if value < 0 {
      DecimalFitsBuffer(-value);
      current := UIntToString(-value, buffer, BUFFER_SIZE);
      current := current - 1;
      ghost var digits := buffer[current + 1..];
      buffer[current] := '-';
      assert buffer[current..] == ['-'] + digits;
    } else {
      DecimalFitsBuffer(value);
      current := UIntToString(value, buffer, BUFFER_SIZE);
    }
    assert current >= 0;
    assert buffer[current..BUFFER_SIZE] == Signed(value) + ['\0'];
    text := buffer[current..BUFFER_SIZE - 1];
    assert text == buffer[current..BUFFER_SIZE][..|Signed(value)|];
  }

  lemma SignedDigits(n: int)
    ensures Signed(n) == if n < 0 then ['-'] + Decimal(-n) else Decimal(n)
  {
  }

  /** The magnitude limit of decodeNumber: 2^63 behind a minus sign, 2^64 - 1 otherwise. */
  function MaxMagnitude(negative: bool): nat {
    if negative then MAX_INT64 + 1 else MAX_UINT64
  }

  function TokenDigits(token: string): string {
    if token != [] && token[0] == '-' then token[1..] else token
  }

  /** A number token is decoded as an integer exactly when nothing but digits follows the optional
      sign and their number fits; otherwise the source falls back to a double. */
  function IntegerOfToken(token: string): Option<Value> {
    var negative := token != [] && token[0] == '-';
    var digits := TokenDigits(token);
    if AllDigits(digits) && Numeral(digits) <= MaxMagnitude(negative) then
      var n: int := Numeral(digits);
      Some(ReadInteger(if negative then -n else n))
    else None
  }

  /** The loop of decodeNumber: it never computes a product or sum beyond the limit. */
  method DecodeNumber(token: string) returns (decoded: Option<Value>)
    ensures decoded == IntegerOfToken(token)
  {
    hide Numeral, AllDigits;
    var current := 0;
    var isNegative := token != [] && token[0] == '-';
    if isNegative {
      current := 1;
    }
    var maxIntegerValue := MaxMagnitude(isNegative);
    var threshold := maxIntegerValue / 10;
    var value: int := 0;
    ghost var first := current;
    ghost var digits := TokenDigits(token);
    assert digits == token[first..];
    NoDigitsYet(digits);
    while current < |token|
      invariant first <= current <= |token|
      invariant AllDigits(digits[..current - first]) && value == Numeral(digits[..current - first])
      invariant 0 <= value <= maxIntegerValue
    {
      var c := token[current];
      ghost var k := current - first;
      assert digits[k] == c;
      NextDigit(digits, k);
      current := current + 1;
      if !IsDigit(c) {
        return None;
      }
      var digit := DigitValue(c);
      if value >= threshold {
        if value > threshold || current != |token| || digit > maxIntegerValue % 10 {
          if AllDigits(digits) {
            NumeralOfPrefix(digits, k + 1);
          }
          return None;
        }
      }
      assert value * 10 + digit <= maxIntegerValue;
      value := value * 10 + digit;
    }
    assert digits[..current - first] == digits;
    if isNegative && value == maxIntegerValue {
      decoded := Some(Int(MIN_INT64));
    } else if isNegative {
      decoded := Some(Int(-value));
    } else if value <= MAX_INT32 {
      decoded := Some(Int(value));
    } else {
      decoded := Some(UInt(value));
    }
  }

  lemma NoDigitsYet(digits: string)
    ensures AllDigits(digits[..0]) && Numeral(digits[..0]) == 0
  {
  }

  lemma NextDigit(digits: string, k: nat)
    requires k < |digits| && AllDigits(digits[..k])
    ensures AllDigits(digits[..k + 1]) <==> IsDigit(digits[k])
    ensures AllDigits(digits) ==> IsDigit(digits[k])
    ensures IsDigit(digits[k]) ==> Numeral(digits[..k + 1]) == 10 * Numeral(digits[..k]) + DigitValue(digits[k])
  {
    assert digits[..k + 1] == digits[..k] + [digits[k]] && digits[..k + 1][..k] == digits[..k];
  }

  /** Integer decoding inverts printing for every number of either payload. */
  lemma DecodeOfPrinted(n: int)
    requires MIN_INT64 <= n <= MAX_UINT64
    ensures IntegerOfToken(Signed(n)) == Some(ReadInteger(n))
  {
    if n < 0 {
      NumeralOfDecimal(-n);
      assert TokenDigits(Signed(n)) == Decimal(-n);
    } else {
      NumeralOfDecimal(n);
      assert TokenDigits(Signed(n)) == Decimal(n);
    }
  }
}
