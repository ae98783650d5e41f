/** The numbers that character references stand for. The reader weighs the digits with a 32-bit power of the
    base and cuts every weighted digit to 32 bits, so a number is read exactly as long as it fits 32 bits,
    whatever zeros lead it. */
module XmlReferences {
  import opened Wrappers
  import opened Sequences
  import opened XmlText

  ghost predicate DigitsIn(base: nat, ds: string) {
    forall k | 0 <= k < |ds| :: DigitIn(base, ds[k]) >= 0
  }

  /** The number a string of digits denotes, most significant digit first. */
  function NumeralIn(base: nat, ds: string): nat
    requires DigitsIn(base, ds)
  {
    if ds == "" then 0 else base * NumeralIn(base, ds[..|ds| - 1]) + DigitIn(base, ds[|ds| - 1])
  }

  lemma WeightModulo(m: nat, x: nat)
    ensures Wrap32(Wrap32(m) * x) == Wrap32(m * x)
  {
    hide *;
    var q := QuotientOf(m);
    Expand(UINT_RANGE, q, Wrap32(m), x);
    Remainder(q * x, Wrap32(m) * x);
  }

  lemma QuotientOf(m: nat) returns (q: nat)
    ensures m == UINT_RANGE * q + Wrap32(m)
  {
    q := m / UINT_RANGE;
  }

  lemma Expand(a: nat, q: nat, l: nat, x: nat)
    ensures (a * q + l) * x == a * (q * x) + l * x
  {
  }

  lemma Remainder(q: nat, x: nat)
    ensures Wrap32(UINT_RANGE * q + x) == Wrap32(x)
  {
  }

  /** A number weighted in 32-bit arithmetic. */
  function Weigh(weight: nat, x: nat): nat {
    Wrap32(weight * x)
  }

  function PowerOf10(j: nat): (m: nat)
    ensures m > 0
  {
    if j == 0 then 1 else 10 * PowerOf10(j - 1)
  }

  /** What is read of decimal digits, the last of which has the weight 10^j: every weighted digit is cut to 32
      bits, their sum is not. */
  function DecimalRead(ds: string, j: nat): nat
    requires DigitsIn(10, ds)
  {
    if ds == "" then 0
    else Weigh(PowerOf10(j), DigitIn(10, ds[|ds| - 1])) + DecimalRead(ds[..|ds| - 1], j + 1)
  }

  /** The decimal digits between the mark and position n, read backwards with the weight 10^j. */
  lemma {:induction false} DecimalIsRead(r: string, start: nat, n: nat, j: nat)
    requires 0 < start <= n <= |r| && r[start - 1] == '#' && DigitsIn(10, r[start..n])
    ensures NumberBefore(r, n, '#', 10, Wrap32(PowerOf10(j))) == Some(DecimalRead(r[start..n], j))
  {
    if start < n {
      hide PowerOf10, DigitIn, NumberBefore, Wrap32, DigitsIn, DecimalRead;
      LastDecimal(r, start, n, j);
      DecimalIsRead(r, start, n - 1, j + 1);
      WeightStep(r, n, '#', 10, PowerOf10(j), DecimalRead(r[start..n - 1], j + 1));
    } else {
      assert r[start..n] == "";
    }
  }

  lemma LastDecimal(r: string, start: nat, n: nat, j: nat)
    requires start < n <= |r| && DigitsIn(10, r[start..n])
    ensures DigitsIn(10, r[start..n - 1]) && DigitIn(10, r[n - 1]) >= 0 && r[n - 1] != '#'
    ensures DecimalRead(r[start..n], j) ==
      Weigh(PowerOf10(j), DigitIn(10, r[n - 1])) + DecimalRead(r[start..n - 1], j + 1)
    ensures PowerOf10(j + 1) == 10 * PowerOf10(j)
  {
    var ds := r[start..n];
    SplitSlice(r, start, n - 1, n);
    assert r[n - 1] == ds[|ds| - 1];
    hide Weigh, Wrap32;
  }

  /** One digit more of a number, with a weight cut to 32 bits. */
  lemma WeightStep(r: string, n: nat, mark: char, base: nat, m: nat, v: nat)
    requires 0 < n <= |r| && r[n - 1] != mark && DigitIn(base, r[n - 1]) >= 0
    requires NumberBefore(r, n - 1, mark, base, Wrap32(base * m)) == Some(v)
    ensures NumberBefore(r, n, mark, base, Wrap32(m)) == Some(Weigh(m, DigitIn(base, r[n - 1])) + v)
  {
    hide Wrap32, DigitIn;
    WeightModulo(m, base);
    WeightModulo(m, DigitIn(base, r[n - 1]));
  }

  lemma WeightedDigit(m: nat, high: nat, d: nat)
    requires m * (10 * high + d) < UINT_RANGE
    ensures Weigh(m, d) == m * d
    ensures 10 * m * high < UINT_RANGE && m * d + 10 * m * high == m * (10 * high + d)
  {
    assert m * (10 * high + d) == 10 * m * high + m * d;
    assert 10 * m * high >= 0;
  }

  /** A number below 2^32 is read exactly. */
  lemma {:induction false} DecimalIsExact(ds: string, j: nat)
    requires DigitsIn(10, ds) && PowerOf10(j) * NumeralIn(10, ds) < UINT_RANGE
    ensures DecimalRead(ds, j) == PowerOf10(j) * NumeralIn(10, ds)
  {
    if ds != "" {
      var high := ds[..|ds| - 1];
      WeightedDigit(PowerOf10(j), NumeralIn(10, high), DigitIn(10, ds[|ds| - 1]));
      DecimalIsExact(high, j + 1);
    }
  }

  function PowerOf16(j: nat): (m: nat)
    ensures m > 0
  {
    if j == 0 then 1 else 16 * PowerOf16(j - 1)
  }

  lemma {:induction false} PowersMultiply(i: nat, j: nat)
    ensures PowerOf16(i) * PowerOf16(j) == PowerOf16(i + j)
  {
    if i > 0 {
      PowersMultiply(i - 1, j);
      assert PowerOf16(i) * PowerOf16(j) == 16 * (PowerOf16(i - 1) * PowerOf16(j));
    }
  }

  lemma EighthPower()
    ensures PowerOf16(8) == UINT_RANGE
  {
    assert PowerOf16(4) == 0x1_0000;
    PowersMultiply(4, 4);
  }

  lemma Scaled(a: nat, k: nat, q: nat, h: nat)
    requires h < k && a * k == UINT_RANGE
    ensures a * (k * q + h) == UINT_RANGE * q + a * h && a * h <= UINT_RANGE - a
  {
    hide *;
    Product(a, k, q, h);
    Times(a * k, UINT_RANGE, q);
    Below(a, h, k);
  }

  lemma Product(a: nat, k: nat, q: nat, h: nat)
    ensures a * (k * q + h) == (a * k) * q + a * h
  {
    assert a * (k * q + h) == a * (k * q) + a * h;
  }

  lemma Times(x: nat, y: nat, q: nat)
    requires x == y
    ensures x * q == y * q
  {
  }

  lemma Below(a: nat, h: nat, k: nat)
    requires h < k
    ensures a * h <= a * k - a
  {
    assert a * h <= a * (k - 1);
  }

  lemma HexDigitIn(m: nat, k: nat, high: nat, d: nat)
    requires 16 * m * k == UINT_RANGE && m > 0 && k > 0 && d < 16
    ensures Wrap32(m * d) + Wrap32(16 * m * high) == Wrap32(m * (16 * high + d))
  {
    hide *;
    var q, h := Divided(high, k);
    Scaled(16 * m, k, q, h);
    Distributed(m, high, d);
    Remainders(q, 16 * m * h, m * d);
  }

  lemma Divided(high: nat, k: nat) returns (q: nat, h: nat)
    requires k > 0
    ensures high == k * q + h && h < k
  {
    q, h := high / k, high % k;
  }

  lemma Distributed(m: nat, high: nat, d: nat)
    requires m > 0 && d < 16
    ensures m * (16 * high + d) == 16 * m * high + m * d && m * d < 16 * m
  {
    assert m * (16 * high + d) == m * (16 * high) + m * d;
    assert m * d <= m * 15;
  }

  lemma Remainders(q: nat, x: nat, low: nat)
    requires x + low < UINT_RANGE
    ensures Wrap32(low) + Wrap32(UINT_RANGE * q + x) == Wrap32(UINT_RANGE * q + x + low)
  {
    hide *;
    WrapIsRest(0, low);
    WrapIsRest(q, x);
    WrapIsRest(q, x + low);
  }

  lemma WrapIsRest(q: nat, x: nat)
    requires x < UINT_RANGE
    ensures Wrap32(UINT_RANGE * q + x) == x
  {
  }

  lemma Assoc(a: nat, b: nat, c: nat)
    ensures a * b * c == a * (b * c)
  {
  }

  /** Powers below 2^32 divide it; the others vanish in 32 bits. */
  lemma LowPower(j: nat)
    requires j < 8
    ensures 16 * PowerOf16(j) * PowerOf16(7 - j) == UINT_RANGE
  {
    EighthPower();
    PowersMultiply(j, 7 - j);
    Assoc(16, PowerOf16(j), PowerOf16(7 - j));
  }

  lemma HighPower(j: nat)
    requires j >= 8
    ensures Wrap32(PowerOf16(j)) == 0
  {
    EighthPower();
    PowersMultiply(8, j - 8);
  }

  lemma Vanishes(m: nat, x: nat)
    requires Wrap32(m) == 0
    ensures Wrap32(m * x) == 0
  {
    WeightModulo(m, x);
  }

  /** Hexadecimal digits weighted with powers of 16 do not meet, so the sum wraps as a whole. */
  lemma HexDigit(j: nat, high: nat, d: nat)
    requires d < 16
    ensures var m := PowerOf16(j);
      Wrap32(m * d) + Wrap32(16 * m * high) == Wrap32(m * (16 * high + d))
  {
    hide *;
    var m := PowerOf16(j);
    if j < 8 {
      LowPower(j);
      HexDigitIn(m, PowerOf16(7 - j), high, d);
    } else {
      HighPower(j);
      Vanishes(m, d);
      Vanishes(m, 16 * high);
      Vanishes(m, 16 * high + d);
      Distributed(m, high, d);
      Distributed(m, high, 0);
    }
  }

  /** The hexadecimal digits between the mark and position n, read backwards with the weight 16^j. */
  lemma {:induction false} HexIsModular(r: string, start: nat, n: nat, j: nat)
    requires 0 < start <= n <= |r| && r[start - 1] == 'x' && DigitsIn(16, r[start..n])
    ensures NumberBefore(r, n, 'x', 16, Wrap32(PowerOf16(j))) ==
      Some(Weigh(PowerOf16(j), NumeralIn(16, r[start..n])))
  {
    if start < n {
      hide PowerOf16, NumberBefore, Weigh, DigitIn, DigitsIn, NumeralIn;
      LastHex(r, start, n);
      HexIsModular(r, start, n - 1, j + 1);
      HexStep(r, n, j, NumeralIn(16, r[start..n - 1]));
    } else {
      assert r[start..n] == "" && Weigh(PowerOf16(j), 0) == 0;
    }
  }

  lemma LastHex(r: string, start: nat, n: nat)
    requires start < n <= |r| && DigitsIn(16, r[start..n])
    ensures DigitsIn(16, r[start..n - 1]) && DigitIn(16, r[n - 1]) >= 0
    ensures NumeralIn(16, r[start..n]) == 16 * NumeralIn(16, r[start..n - 1]) + DigitIn(16, r[n - 1])
  {
    SplitSlice(r, start, n - 1, n);
    assert r[n - 1] == r[start..n][n - 1 - start];
  }

  lemma HexStep(r: string, n: nat, j: nat, number: nat)
    requires 0 < n <= |r| && DigitIn(16, r[n - 1]) >= 0
    requires NumberBefore(r, n - 1, 'x', 16, Wrap32(PowerOf16(j + 1))) == Some(Weigh(PowerOf16(j + 1), number))
    ensures NumberBefore(r, n, 'x', 16, Wrap32(PowerOf16(j))) ==
      Some(Weigh(PowerOf16(j), 16 * number + DigitIn(16, r[n - 1])))
  {
    var m := PowerOf16(j);
    assert r[n - 1] != 'x' && PowerOf16(j + 1) == 16 * m;
    hide PowerOf16, DigitIn, Wrap32, NumberBefore;
    WeightStep(r, n, 'x', 16, m, Weigh(16 * m, number));
    HexDigit(j, number, DigitIn(16, r[n - 1]));
  }

  /** The characters up to position n of a text are digits. */
  lemma NotYet(base: nat, r: string, start: nat, n: nat)
    requires (base == 10 || base == 16) && start <= n <= |r| && DigitsIn(base, r[start..n])
    ensures forall k | start <= k < n :: r[k] != ';' && r[k] != NUL
    ensures base == 10 ==> forall k | start <= k < n :: r[k] != 'x'
  {
    forall k | start <= k < n ensures r[k] != ';' && r[k] != NUL && (base == 10 ==> r[k] != 'x') {
      assert r[k] == r[start..n][k - start];
    }
  }

  /** A decimal reference that ends at the semicolon at n: the UTF-8 form of what is read is put in its place. */
  lemma DecimalReference(r: string, n: nat)
    requires 2 < n < |r| && "&#" <= r && r[n] == ';' && DigitsIn(10, r[2..n])
    ensures CharacterRef(r) == Some(Step(n + 1, Some(Utf8(DecimalRead(r[2..n], 0)))))
  {
    NotYet(10, r, 2, n);
    FindFirst(r, 2, n, ';');
    DecimalIsRead(r, 2, n, 0);
    assert PowerOf10(0) == 1 == Wrap32(1);
    hide Utf8, Find, NumberBefore, NumeralIn, DigitsIn, DecimalRead, Wrap32, PowerOf10;
  }

  /** A hexadecimal reference that ends at the semicolon at n: its number is taken modulo 2^32 first. */
  lemma HexReference(r: string, n: nat)
    requires 3 < n < |r| && "&#x" <= r && r[n] == ';' && DigitsIn(16, r[3..n])
    ensures CharacterRef(r) == Some(Step(n + 1, Some(Utf8(Wrap32(NumeralIn(16, r[3..n]))))))
  {
    NotYet(16, r, 3, n);
    FindFirst(r, 3, n, ';');
    HexIsModular(r, 3, n, 0);
    assert PowerOf16(0) == 1 == Wrap32(1);
    hide Wrap32, PowerOf16;
    hide Utf8, Find, NumberBefore, NumeralIn, DigitsIn;
  }

  /** Different codes have different forms, but that all codes too large for four bytes have the empty one. */
  lemma Utf8Same(a: nat, b: nat)
    ensures Utf8(a) == Utf8(b) <==> a == b || (a >= 0x200000 && b >= 0x200000)
  {
    if a < 0x200000 {
      Utf8IsExact(a);
    }
    if b < 0x200000 {
      Utf8IsExact(b);
    }
  }

  /** So a hexadecimal reference is read exactly unless it is beyond 32 bits and its lower 32 bits are a code. */
  lemma HexIsExactIff(r: string, n: nat)
    requires 3 < n < |r| && "&#x" <= r && r[n] == ';' && DigitsIn(16, r[3..n])
    ensures var number := NumeralIn(16, r[3..n]);
      CharacterRef(r) == Some(Step(n + 1, Some(Utf8(number)))) <==>
        number < UINT_RANGE || Wrap32(number) >= 0x200000
  {
    HexReference(r, n);
    Utf8AfterWrap(NumeralIn(16, r[3..n]));
    hide *;
  }

  /** A decimal reference is read exactly unless it is beyond 32 bits and what is read of it is a code. */
  lemma DecimalIsExactIff(r: string, n: nat)
    requires 2 < n < |r| && "&#" <= r && r[n] == ';' && DigitsIn(10, r[2..n])
    ensures var number := NumeralIn(10, r[2..n]);
      CharacterRef(r) == Some(Step(n + 1, Some(Utf8(number)))) <==>
        number < UINT_RANGE || DecimalRead(r[2..n], 0) >= 0x200000
  {
    hide Utf8, CharacterRef, NumeralIn, DigitsIn, DecimalRead;
    var ds := r[2..n];
    DecimalReference(r, n);
    Utf8Same(NumeralIn(10, ds), DecimalRead(ds, 0));
    if NumeralIn(10, ds) < UINT_RANGE {
      assert PowerOf10(0) == 1;
      DecimalIsExact(ds, 0);
    }
  }

  /** A one and k zeros: the reader sees 10^k modulo 2^32. */
  lemma {:induction false} OneAndZeros(ds: string, j: nat)
    requires DigitsIn(10, ds) && ds != "" && ds[0] == '1' && forall k | 0 < k < |ds| :: ds[k] == '0'
    ensures DecimalRead(ds, j) == Wrap32(PowerOf10(j + |ds| - 1))
    decreases |ds|
  {
    if |ds| == 1 {
      assert Weigh(PowerOf10(j), 1) == Wrap32(PowerOf10(j));
      assert DecimalRead(ds[..0], j + 1) == 0;
    } else {
      OneAndZeros(ds[..|ds| - 1], j + 1);
      assert Weigh(PowerOf10(j), 0) == 0;
    }
  }

  lemma VanishingPower()
    ensures Wrap32(PowerOf10(32)) == 0
  {
    hide Wrap32;
    assert PowerOf10(8) == 100_000_000;
    assert PowerOf10(16) == 10_000_000_000_000_000;
    assert PowerOf10(24) == 1_000_000_000_000_000_000_000_000;
    assert PowerOf10(32) == 100_000_000_000_000_000_000_000_000_000_000;
    assert PowerOf10(32) == UINT_RANGE * 23_283_064_365_386_962_890_625;
    MultipleVanishes(23_283_064_365_386_962_890_625);
  }

  lemma MultipleVanishes(x: nat)
    ensures Wrap32(UINT_RANGE * x) == 0
  {
  }

  /** The reference to 10^32, of one one and 32 zeros, becomes a single NUL. */
  lemma {:induction false} VanishingReference(r: string)
    requires |r| == 36 && "&#1" <= r && r[35] == ';' && forall k | 3 <= k < 35 :: r[k] == '0'
    ensures CharacterRef(r) == Some(Step(36, Some([NUL])))
  {
    hide CharacterRef, Wrap32, PowerOf10, DecimalRead;
    assert r[..3] == "&#1" && r[0] == '&' && r[1] == '#' && r[2] == '1' && r[..2] == "&#";
    var ds := r[2..35];
    assert DigitsIn(10, ds) && ds[0] == '1' && |ds| == 33;
    OneAndZeros(ds, 0);
    VanishingPower();
    DecimalReference(r, 35);
    assert Utf8(0) == [NUL];
  }

  /** A reference beyond 32 bits: &#x100000041; becomes an A. */
  lemma WrappedReference()
    ensures CharacterRef("&#x100000041;") == Some(Step(13, Some("A")))
  {
    hide CharacterRef, NumeralIn, DigitsIn;
    var r := "&#x100000041;";
    assert r[..3] == "&#x" && r[3..12] == "100000041";
    NumeralOfExample();
    HexReference(r, 12);
  }

  lemma NumeralOfExample()
    ensures DigitsIn(16, "100000041") && NumeralIn(16, "100000041") == 0x1_0000_0041
  {
    hide NumeralIn, DigitsIn;
    NoDigits(16);
    DigitBehind("", '1', "1");
    DigitBehind("1", '0', "10");
    DigitBehind("10", '0', "100");
    DigitBehind("100", '0', "1000");
    DigitBehind("1000", '0', "10000");
    DigitBehind("10000", '0', "100000");
    DigitBehind("100000", '0', "1000000");
    DigitBehind("1000000", '4', "10000004");
    DigitBehind("10000004", '1', "100000041");
  }

  lemma NoDigits(base: nat)
    ensures DigitsIn(base, "") && NumeralIn(base, "") == 0
  {
  }

  lemma DigitBehind(ds: string, c: char, longer: string)
    requires DigitsIn(16, ds) && DigitIn(16, c) >= 0 && longer == ds + [c]
    ensures DigitsIn(16, longer) && NumeralIn(16, longer) == 16 * NumeralIn(16, ds) + DigitIn(16, c)
  {
    assert longer[..|longer| - 1] == ds;
  }

  lemma Utf8AfterWrap(number: nat)
    ensures Utf8(Wrap32(number)) == Utf8(number) <==> number < UINT_RANGE || Wrap32(number) >= 0x200000
  {
    Utf8Same(number, Wrap32(number));
    hide Utf8;
  }

  lemma {:induction false} FindFirst(r: string, k: nat, n: nat, c: char)
    requires k <= n < |r| && r[n] == c != NUL && forall j | k <= j < n :: r[j] != c && r[j] != NUL
    ensures Find(r, k, c) == Some(n)
    decreases n - k
  {
    if k < n {
      FindFirst(r, k + 1, n, c);
    }
  }
}
