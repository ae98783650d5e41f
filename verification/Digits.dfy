/** Digits and the numbers they denote. */
module Digits {

  predicate IsDigit(c: char) { '0' <= c <= '9' }

  predicate AllDigits(s: string) { forall k | 0 <= k < |s| :: IsDigit(s[k]) }

  function DigitValue(c: char): nat
    requires IsDigit(c)
  {
    c as int - '0' as int
  }

  function Digit(n: nat): char
    requires n < 10
  {
    (n + '0' as int) as char
  }

  /** The number a string of digits denotes, most significant digit first; the empty string denotes 0. */
  function Numeral(s: string): nat
    requires AllDigits(s)
  {
    if s == [] then 0 else 10 * Numeral(s[..|s| - 1]) + DigitValue(s[|s| - 1])
  }

  /** Decimal notation without leading zeros. */
  function Decimal(n: nat): string {
    if n < 10 then [Digit(n)] else Decimal(n / 10) + [Digit(n % 10)]
  }

  /** Reading the digits of n gives n, and there is no leading zero. */
  lemma {:induction false} NumeralOfDecimal(n: nat)
    ensures AllDigits(Decimal(n)) && Decimal(n) != [] && Numeral(Decimal(n)) == n
    ensures Decimal(n)[0] == '0' <==> n == 0
  {
    if n >= 10 {
      NumeralOfDecimal(n / 10);
      var s := Decimal(n);
      assert s[..|s| - 1] == Decimal(n / 10);
    }
  }

  lemma {:induction false} NumeralOfPrefix(s: string, k: nat)
    requires AllDigits(s) && k <= |s|
    ensures Numeral(s[..k]) <= Numeral(s)
    ensures k < |s| ==> 10 * Numeral(s[..k]) <= Numeral(s)
  {
    if k < |s| {
      NumeralOfPrefix(s[..|s| - 1], k);
      assert s[..|s| - 1][..k] == s[..k];
    } else {
      assert s[..k] == s;
    }
  }

  /** Number of digits at the start of s. */
  function DigitRun(s: string): (n: nat)
    ensures n <= |s|
  {
    if s != [] && IsDigit(s[0]) then 1 + DigitRun(s[1..]) else 0
  }

  lemma {:induction false} DigitRunIsDigits(s: string)
    ensures AllDigits(s[..DigitRun(s)])
    ensures DigitRun(s) < |s| ==> !IsDigit(s[DigitRun(s)])
  {
    if s != [] && IsDigit(s[0]) {
      DigitRunIsDigits(s[1..]);
      assert forall k | 1 <= k < DigitRun(s) :: s[k] == s[1..][..DigitRun(s[1..])][k - 1];
    }
  }

  lemma {:induction false} DigitRunOfDigits(s: string, rest: string)
    requires AllDigits(s) && (rest == "" || !IsDigit(rest[0]))
    ensures DigitRun(s + rest) == |s|
  {
    if s == "" {
      assert s + rest == rest;
    } else {
      DigitRunOfDigits(s[1..], rest);
      assert (s + rest)[1..] == s[1..] + rest;
    }
  }

  lemma {:induction false} DigitRunCovers(s: string, m: nat)
    requires m <= |s| && AllDigits(s[..m])
    ensures m <= DigitRun(s)
    ensures m == DigitRun(s) <==> m == |s| || !IsDigit(s[m])
  {
    if m > 0 {
      assert s[0] == s[..m][0];
      assert s[1..][..m - 1] == s[..m][1..];
      DigitRunCovers(s[1..], m - 1);
    }
  }

  /** The value of a hexadecimal digit; -1 for a character that is none. */
  function HexValue(c: char): (v: int)
    ensures -1 <= v < 16
  {
    if '0' <= c <= '9' then c as int - '0' as int
    else if 'a' <= c <= 'f' then c as int - 'a' as int + 10
    else if 'A' <= c <= 'F' then c as int - 'A' as int + 10
    else -1
  }

  const SMALL := "0123456789abcdef"
  const CAPITALS := "0123456789ABCDEF"

  /** The digits themselves, as characters. */
  lemma DigitsAre(v: nat)
    requires v < 16
    ensures HexValue(SMALL[v]) == v == HexValue(CAPITALS[v])
    ensures v < 10 ==> IsDigit(SMALL[v]) && DigitValue(SMALL[v]) == v && Digit(v) == SMALL[v]
  {
  }

  lemma NoOtherDigits(c: char)
    ensures HexValue(c) == -1 <==> c !in SMALL && c !in CAPITALS
    ensures IsDigit(c) <==> c in SMALL[..10]
  {
    if HexValue(c) != -1 {
      DigitsAre(HexValue(c));
      assert c == SMALL[HexValue(c)] || c == CAPITALS[HexValue(c)];
    }
    if IsDigit(c) {
      assert c == SMALL[..10][DigitValue(c)];
    }
    if v: nat :| v < 16 && (c == SMALL[v] || c == CAPITALS[v]) {
      DigitsAre(v);
    }
    if v: nat :| v < 10 && c == SMALL[..10][v] {
      DigitsAre(v);
    }
  }

  /** The number a list of digits denotes, most significant digit first. */
  function NumberOf(base: nat, digits: seq<nat>): nat {
    if digits == [] then 0 else base * NumberOf(base, digits[..|digits| - 1]) + digits[|digits| - 1]
  }

  /** The digits are written with these characters. */
  predicate AreDigits(base: nat, digits: seq<nat>, written: string)
    requires base <= 16
  {
    && |written| == |digits| && (forall k | 0 <= k < |digits| :: digits[k] < base)
    && forall k | 0 <= k < |digits| :: written[k] == SMALL[digits[k]] || written[k] == CAPITALS[digits[k]]
  }

  /** So the numeral of a string of digits is the number they denote. */
  lemma {:induction false} NumeralOfWritten(digits: seq<nat>, written: string)
    requires AreDigits(10, digits, written)
    ensures AllDigits(written) && Numeral(written) == NumberOf(10, digits)
  {
    if digits != [] {
      var n := |digits| - 1;
      NumeralOfWritten(digits[..n], written[..n]);
      assert written == written[..n] + [written[n]];
      assert CAPITALS[digits[n]] == SMALL[digits[n]];
      DigitsAre(digits[n]);
      hide IsDigit;
    }
  }

  /** The digits of a number, without leading zeros. */
  function DigitsOf(n: nat): (digits: seq<nat>)
    ensures digits != [] && forall k | 0 <= k < |digits| :: digits[k] < 10
  {
    if n < 10 then [n] else DigitsOf(n / 10) + [n % 10]
  }

  /** Decimal notation consists of the digits of the number. */
  lemma {:induction false} DecimalIsDigits(n: nat)
    ensures AreDigits(10, DigitsOf(n), Decimal(n)) && NumberOf(10, DigitsOf(n)) == n
    ensures DigitsOf(n)[0] == 0 <==> n == 0
  {
    DigitsAre(n % 10);
    if n >= 10 {
      DecimalIsDigits(n / 10);
      assert DigitsOf(n)[..|DigitsOf(n)| - 1] == DigitsOf(n / 10);
    } else {
      assert DigitsOf(n)[..0] == [];
    }
  }
}
