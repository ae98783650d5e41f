/** UTF-8 by its definition in section 3 of RFC 3629: a decoder, to say what encoders have to give. */
module Unicode {
  import opened Wrappers

  /** How many bytes a character has, by its first byte; 0 for a byte that starts none. */
  function LengthBy(first: char): (n: nat)
    ensures n <= 4
  {
    var b := first as int;
    if b < 0x80 then 1 else if b < 0xC0 then 0 else if b < 0xE0 then 2 else if b < 0xF0 then 3
    else if b < 0xF8 then 4 else 0
  }

  /** The number in the free bits of the first byte and of the others. */
  function CodeOf(bytes: string): int
    requires 1 <= |bytes| <= 4
  {
    var low := k requires 1 <= k < |bytes| => bytes[k] as int - 0x80;
    if |bytes| == 1 then bytes[0] as int
    else if |bytes| == 2 then (bytes[0] as int - 0xC0) * 64 + low(1)
    else if |bytes| == 3 then (bytes[0] as int - 0xE0) * 64 * 64 + low(1) * 64 + low(2)
    else (bytes[0] as int - 0xF0) * 64 * 64 * 64 + low(1) * 64 * 64 + low(2) * 64 + low(3)
  }

  /** The first code that needs a number of bytes. */
  function FirstCode(n: nat): nat {
    if n <= 1 then 0 else if n == 2 then 0x80 else if n == 3 then 0x800 else if n == 4 then 0x10000 else 0x200000
  }

  /** The bytes are the form of a code: the first says how many, the others go on, and there is no shorter form. */
  predicate IsForm(bytes: string, code: int) {
    && 1 <= |bytes| <= 4 && LengthBy(bytes[0]) == |bytes|
    && (forall k | 1 <= k < |bytes| :: 0x80 <= bytes[k] as int < 0xC0)
    && CodeOf(bytes) == code && FirstCode(|bytes|) <= code
  }

  /** The codes of a text of well-formed characters. */
  function Decode(s: string): (codes: Option<seq<int>>)
    decreases |s|
  {
    if s == "" then Some([])
    else
      var n := LengthBy(s[0]);
      if n == 0 || |s| < n || !IsForm(s[..n], CodeOf(s[..n])) then None
      else
        match Decode(s[n..])
        case None => None
        case Some(codes) => Some([CodeOf(s[..n])] + codes)
  }

  lemma DecodeOne(bytes: string, code: int, rest: string)
    requires IsForm(bytes, code) && Decode(rest).Some?
    ensures Decode(bytes + rest) == Some([code] + Decode(rest).value)
  {
    var s := bytes + rest;
    assert s[0] == bytes[0] && s[..|bytes|] == bytes && s[|bytes|..] == rest;
    hide CodeOf, LengthBy;
  }

  lemma CodeIsBelow(bytes: string, code: int)
    requires IsForm(bytes, code)
    ensures code < FirstCode(|bytes| + 1)
  {
  }

  /** A form goes on with digits in base 64. */
  lemma FormDigits(s: string, code: int)
    requires IsForm(s, code)
    ensures FirstCode(|s|) <= code < FirstCode(|s| + 1) && 1 <= |s| <= 4 && CodeOf(s) == code
    ensures forall k | 1 <= k < |s| :: 0 <= s[k] as int - 0x80 < 64
  {
    CodeIsBelow(s, code);
  }

  lemma SameLength(m: nat, n: nat, code: int)
    requires 1 <= m <= 4 && 1 <= n <= 4
    requires FirstCode(m) <= code < FirstCode(m + 1) && FirstCode(n) <= code < FirstCode(n + 1)
    ensures m == n
  {
  }

  /** Numbers with the same last digit in base 64. */
  lemma LastDigit(h: int, x: int, h': int, x': int)
    requires 0 <= x < 64 && 0 <= x' < 64 && h * 64 + x == h' * 64 + x'
    ensures h == h' && x == x'
  {
  }

  lemma SameBytes(a: string, b: string)
    requires |a| == |b| && 1 <= |a| <= 4 && CodeOf(a) == CodeOf(b)
    requires forall k | 1 <= k < |a| :: 0 <= a[k] as int - 0x80 < 64 && 0 <= b[k] as int - 0x80 < 64
    ensures a == b
  {
    var (h, h') := (a[0] as int, b[0] as int);
    if |a| == 2 {
      LastDigit(h - 0xC0, a[1] as int - 0x80, h' - 0xC0, b[1] as int - 0x80);
    } else if |a| == 3 {
      var (x, x') := ((h - 0xE0) * 64 + a[1] as int - 0x80, (h' - 0xE0) * 64 + b[1] as int - 0x80);
      LastDigit(x, a[2] as int - 0x80, x', b[2] as int - 0x80);
      LastDigit(h - 0xE0, a[1] as int - 0x80, h' - 0xE0, b[1] as int - 0x80);
    } else if |a| == 4 {
      var (x, x') := ((h - 0xF0) * 64 + a[1] as int - 0x80, (h' - 0xF0) * 64 + b[1] as int - 0x80);
      LastDigit(x * 64 + a[2] as int - 0x80, a[3] as int - 0x80, x' * 64 + b[2] as int - 0x80, b[3] as int - 0x80);
      LastDigit(x, a[2] as int - 0x80, x', b[2] as int - 0x80);
      LastDigit(h - 0xF0, a[1] as int - 0x80, h' - 0xF0, b[1] as int - 0x80);
    }
  }

  /** A code has only one form. */
  lemma FormIsUnique(a: string, b: string, code: int)
    requires IsForm(a, code) && IsForm(b, code)
    ensures a == b
  {
    hide *;
    FormDigits(a, code);
    FormDigits(b, code);
    SameLength(|a|, |b|, code);
    SameBytes(a, b);
  }
}
