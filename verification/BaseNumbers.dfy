/** Both codes as numbers: a block is a number in base 256, and its keys stand for the digits of that number in base 64
    or base 32, with zero bits behind the last byte. */
module BaseNumbers {
  import opened Bytes
  import opened Digits
  import Base32
  import Base64

  lemma NumberAppend(base: nat, digits: seq<nat>, d: nat)
    ensures NumberOf(base, digits + [d]) == base * NumberOf(base, digits) + d
  {
    assert (digits + [d])[..|digits|] == digits;
  }

  lemma NumberOfThree(base: nat, a: nat, b: nat, c: nat)
    ensures NumberOf(base, [a, b, c]) == base * (base * a + b) + c
  {
    NumberAppend(base, [], a);
    NumberAppend(base, [a], b);
    NumberAppend(base, [a, b], c);
    assert [] + [a] == [a] && [a] + [b] == [a, b] && [a, b] + [c] == [a, b, c];
    assert NumberOf(base, []) == 0;
  }

  lemma NumberOfMore(base: nat, digits: seq<nat>, a: nat, b: nat)
    ensures NumberOf(base, digits + [a, b]) == base * (base * NumberOf(base, digits) + a) + b
  {
    hide NumberOf;
    NumberAppend(base, digits, a);
    NumberAppend(base, digits + [a], b);
    assert digits + [a] + [b] == digits + [a, b];
  }

  lemma Parts64(a: byte, b: byte, c: byte)
    ensures 64 * (64 * (64 * (a / 4) + (a % 4 * 16 + b / 16)) + (b % 16 * 4 + c / 64)) + c % 64 ==
      256 * (256 * a + b) + c
  {
  }

  /** The groups of three bytes. */
  function Groups64(a: byte, b: byte, c: byte): (digits: seq<nat>)
    ensures |digits| == 4 && forall k | 0 <= k < 4 :: digits[k] < 64
  {
    [Base64.Group0(a), Base64.Group1(a, b), Base64.Group2(b, c)] + [Base64.Group3(c)]
  }

  lemma NumberOfFour(base: nat, a: nat, b: nat, c: nat, d: nat)
    ensures NumberOf(base, [a, b, c] + [d]) == base * (base * (base * a + b) + c) + d
  {
    hide *;
    NumberOfThree(base, a, b, c);
    NumberAppend(base, [a, b, c], d);
  }

  lemma GroupValues64(a: byte, b: byte, c: byte) returns (p: nat, q: nat, r: nat, s: nat)
    ensures Groups64(a, b, c) == [p, q, r] + [s]
    ensures 64 * (64 * (64 * p + q) + r) + s == 256 * (256 * a + b) + c
  {
    p, q, r, s := a / 4, a % 4 * 16 + b / 16, b % 16 * 4 + c / 64, c % 64;
    Parts64(a, b, c);
  }

  lemma GroupsAreDigits64(a: byte, b: byte, c: byte)
    ensures NumberOf(64, Groups64(a, b, c)) == NumberOf(256, [a, b, c])
  {
    hide *;
    NumberOfThree(256, a, b, c);
    var p, q, r, s := GroupValues64(a, b, c);
    NumberOfFour(64, p, q, r, s);
  }

  /** Base64 by section 4 of RFC 4648: the groups are the digits of the number of three bytes; equals signs stand for
      the groups without a bit of a byte. */
  lemma Encodes64(keys: seq<byte>, s: seq<byte>) returns (digits: seq<nat>)
    requires |keys| == 64 && s != []
    ensures |digits| == 4 && forall k | 0 <= k < 4 :: digits[k] < 64
    ensures NumberOf(64, digits) == NumberOf(256, [Pad(s, 0), Pad(s, 1), Pad(s, 2)])
    ensures Base64.Encoded(keys, s) ==
      [keys[digits[0]], keys[digits[1]],
       if |s| == 1 then 61 else keys[digits[2]],
       if |s| <= 2 then 61 else keys[digits[3]]] + if |s| <= 3 then [] else Base64.Encoded(keys, s[3..])
  {
    hide NumberOf, Base64.Group0, Base64.Group1, Base64.Group2, Base64.Group3;
    var a, b, c := Pad(s, 0), Pad(s, 1), Pad(s, 2);
    digits := Groups64(a, b, c);
    GroupsAreDigits64(a, b, c);
    assert Base64.Encoded(keys, []) == [];
  }

  lemma HighParts32(a: byte, b: byte)
    ensures 32 * (32 * (32 * (a / 8) + (a % 8 * 4 + b / 64)) + b % 64 / 2) + b % 2 * 16 == (256 * a + b) * 16
  {
  }

  lemma LowParts32(n: nat, c: byte, d: byte, e: byte)
    ensures 32 * (32 * (32 * (32 * (n * 16 + c / 16) + (c % 16 * 2 + d / 128)) + d % 128 / 4) + (d % 4 * 8 + e / 32))
      + e % 32 == 256 * (256 * (256 * n + c) + d) + e
  {
  }

  function Groups32(a: byte, b: byte, c: byte, d: byte, e: byte): (digits: seq<nat>)
    ensures |digits| == 8 && forall k | 0 <= k < 8 :: digits[k] < 32
  {
    [Base32.Group0(a), Base32.Group1(a, b), Base32.Group2(b)] + [Base32.Group3(b, c), Base32.Group4(c, d)] +
    [Base32.Group5(d), Base32.Group6(d, e)] + [Base32.Group7(e)]
  }

  lemma NumberOfFive(base: nat, a: nat, b: nat, c: nat, d: nat, e: nat)
    ensures NumberOf(base, [a, b, c, d, e]) == base * (base * (base * (base * a + b) + c) + d) + e
  {
    hide NumberOf;
    NumberOfThree(base, a, b, c);
    NumberOfMore(base, [a, b, c], d, e);
    assert [a, b, c] + [d, e] == [a, b, c, d, e];
  }

  lemma NumberOfEight(base: nat, a: nat, b: nat, c: nat, d: nat, e: nat, f: nat, g: nat, h: nat)
    ensures NumberOf(base, [a, b, c] + [d, e] + [f, g] + [h]) ==
      base * (base * (base * (base * (base * (base * (base * a + b) + c) + d) + e) + f) + g) + h
  {
    hide *;
    NumberOfThree(base, a, b, c);
    NumberOfMore(base, [a, b, c], d, e);
    NumberOfMore(base, [a, b, c] + [d, e], f, g);
    NumberAppend(base, [a, b, c] + [d, e] + [f, g], h);
  }

  lemma GroupsAreDigits32(a: byte, b: byte, c: byte, d: byte, e: byte)
    ensures NumberOf(32, Groups32(a, b, c, d, e)) == NumberOf(256, [a, b, c, d, e])
  {
    hide NumberOf;
    HighParts32(a, b);
    LowParts32(256 * a + b, c, d, e);
    NumberOfFive(256, a, b, c, d, e);
    NumberOfEight(32, a / 8, a % 8 * 4 + b / 64, b % 64 / 2, b % 2 * 16 + c / 16, c % 16 * 2 + d / 128, d % 128 / 4,
      d % 4 * 8 + e / 32, e % 32);
  }

  lemma BlockOfGroups32(keys: seq<byte>, s: seq<byte>)
    requires |keys| == 32 && s != []
    ensures var digits := Groups32(Pad(s, 0), Pad(s, 1), Pad(s, 2), Pad(s, 3), Pad(s, 4));
      var n := if |s| < 5 then (8 * |s| + 4) / 5 else 8;
      n <= 8 && Base32.Block(keys, s) == seq(n, k requires 0 <= k < n => keys[digits[k]])
  {
    hide Base32.Group0, Base32.Group1, Base32.Group2, Base32.Group3, Base32.Group4, Base32.Group5;
    hide Base32.Group6, Base32.Group7, Base32.Small;
    var n := if |s| < 5 then (8 * |s| + 4) / 5 else 8;
    assert Base32.GroupCount(|s|) == n;
    assert Base32.Groups(s) == Groups32(Pad(s, 0), Pad(s, 1), Pad(s, 2), Pad(s, 3), Pad(s, 4))[..n];
  }

  lemma OneBlock32(keys: seq<byte>, s: seq<byte>)
    requires |keys| == 32 && s != []
    ensures Base32.Encoded(keys, s) == Base32.Block(keys, s) + if |s| <= 5 then [] else Base32.Encoded(keys, s[5..])
  {
    hide Base32.Block;
    assert Base32.Encoded(keys, []) == [];
  }

  /** Base32 without padding: the groups are the digits of the number of five bytes, and a block of fewer bytes takes
      as many of them as it has bits for. */
  lemma Encodes32(keys: seq<byte>, s: seq<byte>) returns (digits: seq<nat>)
    requires |keys| == 32 && s != []
    ensures |digits| == 8 && forall k | 0 <= k < 8 :: digits[k] < 32
    ensures NumberOf(32, digits) == NumberOf(256, [Pad(s, 0), Pad(s, 1), Pad(s, 2), Pad(s, 3), Pad(s, 4)])
    ensures var n := if |s| < 5 then (8 * |s| + 4) / 5 else 8;
      n <= 8 && Base32.Encoded(keys, s) ==
      seq(n, k requires 0 <= k < n => keys[digits[k]]) + if |s| <= 5 then [] else Base32.Encoded(keys, s[5..])
  {
    digits := Groups32(Pad(s, 0), Pad(s, 1), Pad(s, 2), Pad(s, 3), Pad(s, 4));
    hide NumberOf, Groups32, Base32.Block, Base32.Encoded, Pad;
    GroupsAreDigits32(Pad(s, 0), Pad(s, 1), Pad(s, 2), Pad(s, 3), Pad(s, 4));
    BlockOfGroups32(keys, s);
    OneBlock32(keys, s);
  }
}
