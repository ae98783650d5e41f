/** Base32 with an alphabet of the user's: five bytes become eight keys. */
module Base32 {
  import opened Bytes
  import opened Sequences

  const KEYS := 32
  const DEFAULT_KEYS: seq<byte> := [
    48, 49, 50, 51, 52, 53, 54, 55, 56, 57, 97, 98, 99, 100, 102, 104,
    105, 106, 107, 108, 109, 111, 113, 114, 115, 116, 117, 118, 119, 120, 121, 122]

  ghost predicate Small(values: seq<int>) {
    forall k | 0 <= k < |values| :: 0 <= values[k] < KEYS
  }

  type small = x: int | 0 <= x < KEYS

  // The five-bit groups of the bytes a, b, c, d, e
  function Group0(a: byte): small { a / 8 }
  function Group1(a: byte, b: byte): small { a % 8 * 4 + b / 64 }
  function Group2(b: byte): (g: small) ensures b == 0 ==> g == 0 { b % 64 / 2 }
  function Group3(b: byte, c: byte): (g: small) ensures b == c == 0 ==> g == 0 { b % 2 * 16 + c / 16 }
  function Group4(c: byte, d: byte): (g: small) ensures c == d == 0 ==> g == 0 { c % 16 * 2 + d / 128 }
  function Group5(d: byte): (g: small) ensures d == 0 ==> g == 0 { d % 128 / 4 }
  function Group6(d: byte, e: byte): (g: small) ensures d == e == 0 ==> g == 0 { d % 4 * 8 + e / 32 }
  function Group7(e: byte): (g: small) ensures e == 0 ==> g == 0 { e % 32 }

  /** How many groups a number of bytes needs. */
  function GroupCount(n: nat): nat {
    if n == 0 then 0 else if n == 1 then 2 else if n == 2 then 4 else if n == 3 then 5 else if n == 4 then 7 else 8
  }

  /** base32_encrypt without the keys: the groups of the first five bytes of s. */
  function Groups(s: seq<byte>): (g: seq<byte>)
    ensures |g| == GroupCount(|s|) && Small(g)
  {
    var a, b, c, d, e := Pad(s, 0), Pad(s, 1), Pad(s, 2), Pad(s, 3), Pad(s, 4);
    [Group0(a), Group1(a, b), Group2(b), Group3(b, c),
     Group4(c, d), Group5(d), Group6(d, e), Group7(e)][..GroupCount(|s|)]
  }

  // The bytes of the groups; the index of a byte that is no key need not be a group
  function Octet0(p: byte, q: byte): byte { Or(p * 8 % 256, q / 4) }
  function Octet1(q: byte, r: byte, s: byte): byte { Or(Or(q % 4 * 64, r * 2 % 256), s / 16) }
  function Octet2(s: byte, t: byte): byte { Or(s % 16 * 16, t / 2) }
  function Octet3(t: byte, u: byte, v: byte): byte { Or(Or(t % 2 * 128, u * 4 % 256), v / 8) }
  function Octet4(v: byte, w: byte): byte { Or(v % 8 * 32, w) }

  /** The bytes of groups are sums of their parts. */
  lemma OctetSums(p: small, q: small)
    ensures Octet0(p, q) == p * 8 + q / 4 && Octet2(p, q) == p % 16 * 16 + q / 2 && Octet4(p, q) == p % 8 * 32 + q
  {
    hide Or;
    PowersOf2();
    OrOfShifted(3, p, q / 4);
    OrOfShifted(4, p % 16, q / 2);
    OrOfShifted(5, p % 8, q);
  }

  lemma OctetSums3(p: small, q: small, r: small)
    ensures Octet1(p, q, r) == p % 4 * 64 + q * 2 + r / 16 && Octet3(p, q, r) == p % 2 * 128 + q * 4 + r / 8
  {
    hide Or;
    PowersOf2();
    OrOfShifted(6, p % 4, q * 2);
    OrOfShifted(1, p % 4 * 32 + q, r / 16);
    OrOfShifted(7, p % 2, q * 4);
    OrOfShifted(2, p % 2 * 32 + q, r / 8);
  }

  lemma PowersOf2()
    ensures Power2(1) == 2 && Power2(2) == 4 && Power2(3) == 8 && Power2(4) == 16
    ensures Power2(5) == 32 && Power2(6) == 64 && Power2(7) == 128
  {
  }

  /** base32_decrypt without the index: the bytes of the first eight groups of g. After two, four and five groups
      there is one byte more if it is not 0, and seven groups count like eight. */
  function Octets(g: seq<byte>): (s: seq<byte>)
    ensures |s| <= 5 && (|g| >= 7 ==> |s| == 5)
  {
    var o := [Octet0(Pad(g, 0), Pad(g, 1)), Octet1(Pad(g, 1), Pad(g, 2), Pad(g, 3)), Octet2(Pad(g, 3), Pad(g, 4)),
              Octet3(Pad(g, 4), Pad(g, 5), Pad(g, 6)), Octet4(Pad(g, 6), Pad(g, 7))];
    var n := |g|;
    o[..if n == 0 then 0
        else if n == 1 then 1
        else if n == 2 then (if o[1] == 0 then 1 else 2)
        else if n == 3 then 2
        else if n == 4 then (if o[2] == 0 then 2 else 3)
        else if n == 5 then (if o[3] == 0 then 3 else 4)
        else if n == 6 then 4
        else 5]
  }

  lemma GroupParts(a: byte, b: byte)
    ensures Group1(a, b) / 4 == a % 8 && Group1(a, b) % 4 == b / 64
    ensures Group3(a, b) / 16 == a % 2 && Group3(a, b) % 16 == b / 16
    ensures Group4(a, b) / 2 == a % 16 && Group4(a, b) % 2 == b / 128
    ensures Group6(a, b) / 8 == a % 4 && Group6(a, b) % 8 == b / 32
    ensures Group0(a) == a / 8 && Group2(a) == a % 64 / 2 && Group5(a) == a % 128 / 4 && Group7(a) == a % 32
  {
    SplitGroup(4, a % 8, b / 64);
    SplitGroup(16, a % 2, b / 16);
    SplitGroup(2, a % 16, b / 128);
    SplitGroup(8, a % 4, b / 32);
  }

  /** A byte from its bits. */
  lemma Parts(b: nat)
    ensures b / 8 * 8 + b % 8 == b && b / 16 * 16 + b % 16 == b && b / 32 * 32 + b % 32 == b
    ensures b / 64 * 64 + b % 64 / 2 * 2 + b % 2 == b
    ensures b / 128 * 128 + b % 128 / 4 * 4 + b % 4 == b
  {
    LowBits(64, 2, b);
    LowBits(128, 4, b);
  }

  lemma LowBits(w: nat, v: nat, b: nat)
    requires (w == 64 && v == 2) || (w == 128 && v == 4)
    ensures b % w % v == b % v
  {
    if w == 64 {
      Evens(32 * (b / 64), b % 64);
    } else {
      Fours(32 * (b / 128), b % 128);
    }
  }

  lemma Evens(k: nat, x: nat)
    ensures (2 * k + x) % 2 == x % 2
  {
  }

  lemma Fours(k: nat, x: nat)
    ensures (4 * k + x) % 4 == x % 4
  {
  }

  lemma FirstByte(a: byte, b: byte)
    ensures Octet0(Group0(a), Group1(a, b)) == a
  {
    hide *;
    OctetSums(Group0(a), Group1(a, b));
    GroupParts(a, b);
    Parts(a);
  }

  lemma SecondByte(a: byte, b: byte, c: byte)
    ensures Octet1(Group1(a, b), Group2(b), Group3(b, c)) == b
  {
    hide *;
    OctetSums3(Group1(a, b), Group2(b), Group3(b, c));
    GroupParts(a, b);
    GroupParts(b, c);
    Parts(b);
  }

  lemma ThirdByte(b: byte, c: byte, d: byte)
    ensures Octet2(Group3(b, c), Group4(c, d)) == c
  {
    hide *;
    OctetSums(Group3(b, c), Group4(c, d));
    GroupParts(b, c);
    GroupParts(c, d);
    Parts(c);
  }

  lemma FourthByte(c: byte, d: byte, e: byte)
    ensures Octet3(Group4(c, d), Group5(d), Group6(d, e)) == d
  {
    hide *;
    OctetSums3(Group4(c, d), Group5(d), Group6(d, e));
    GroupParts(c, d);
    GroupParts(d, e);
    Parts(d);
  }

  lemma FifthByte(d: byte, e: byte)
    ensures Octet4(Group6(d, e), Group7(e)) == e
  {
    hide *;
    OctetSums(Group6(d, e), Group7(e));
    GroupParts(d, e);
    GroupParts(e, e);
    Parts(e);
  }

  /** The groups that are cut off are 0. */
  lemma PaddedGroups(s: seq<byte>)
    ensures var a, b, c, d, e := Pad(s, 0), Pad(s, 1), Pad(s, 2), Pad(s, 3), Pad(s, 4);
      var g := Groups(s);
      s == [] || (
      && Pad(g, 0) == Group0(a) && Pad(g, 1) == Group1(a, b) && Pad(g, 2) == Group2(b) && Pad(g, 3) == Group3(b, c)
      && Pad(g, 4) == Group4(c, d) && Pad(g, 5) == Group5(d) && Pad(g, 6) == Group6(d, e) && Pad(g, 7) == Group7(e))
  {
    hide Group0, Group1, Group2, Group3, Group4, Group5, Group6, Group7, Small;
    assert |s| >= 5 ==> GroupCount(|s|) == 8;
  }

  /** The bytes of a block come back from its groups; four bytes come back with a zero behind them. */
  lemma {:induction false} OctetsOfGroups(s: seq<byte>)
    requires 1 <= |s| <= 5
    ensures Octets(Groups(s)) == if |s| == 4 then s + [0] else s
  {
    hide Small, Groups, Group0, Group1, Group2, Group3, Group4, Group5, Group6, Group7;
    hide Octet0, Octet1, Octet2, Octet3, Octet4;
    var a, b, c, d, e := Pad(s, 0), Pad(s, 1), Pad(s, 2), Pad(s, 3), Pad(s, 4);
    FirstByte(a, b);
    SecondByte(a, b, c);
    ThirdByte(b, c, d);
    FourthByte(c, d, e);
    FifthByte(d, e);
    PaddedGroups(s);
    assert s + [0] == if |s| == 4 then [a, b, c, d, e] else s + [0];
  }

  /** The keys of one block. */
  function Block(keys: seq<byte>, s: seq<byte>): (block: seq<byte>)
    requires |keys| == KEYS
    ensures |block| == GroupCount(|s|)
  {
    Keyed(keys, Groups(s))
  }

  /** The encoding of s. */
  function Encoded(keys: seq<byte>, s: seq<byte>): seq<byte>
    requires |keys| == KEYS
    decreases |s|
  {
    if s == [] then [] else Block(keys, s) + Encoded(keys, Tail(s, 5))
  }

  /** The decoding of t. The index of a byte that is no key is whatever the memory holds. */
  function Decoded(index: seq<byte>, t: seq<byte>): seq<byte>
    requires |index| == 256
    decreases |t|
  {
    if t == [] then [] else Octets(Values(index, Head(t, 8))) + Decoded(index, Tail(t, 8))
  }

  /** The values of encoded text are small. */
  lemma {:induction false} EncodedIsSmall(index: seq<byte>, keys: seq<byte>, s: seq<byte>)
    requires |keys| == KEYS && |index| == 256 && Inverts(index, keys)
    ensures Small(Values(index, Encoded(keys, s)))
    decreases |s|
  {
    if s != [] {
      EncodedIsSmall(index, keys, Tail(s, 5));
      var block, rest := Block(keys, s), Encoded(keys, Tail(s, 5));
      forall k | 0 <= k < |block + rest| ensures 0 <= index[(block + rest)[k]] < KEYS {
        if k < |block| {
          assert index[block[k]] == Groups(s)[k];
        } else {
          assert Values(index, rest)[k - |block|] == index[rest[k - |block|]];
        }
      }
    }
  }

  /** Decoding undoes encoding, for every alphabet of different keys and every string; a length of 4 modulo 5 adds one
      zero byte. */
  lemma {:induction false} RoundTrip(index: seq<byte>, keys: seq<byte>, s: seq<byte>)
    requires |keys| == KEYS && |index| == 256 && Inverts(index, keys)
    ensures Decoded(index, Encoded(keys, s)) == if |s| % 5 == 4 then s + [0] else s
    decreases |s|
  {
    hide Groups, Octets, Small, Block, Inverts;
    if s != [] {
      RoundTrip(index, keys, Tail(s, 5));
      Regroup(Head(s, 5), Tail(s, 5), [0]);
      BlockRoundTrip(index, keys, s);
      DecodedBlock(index, Block(keys, s), Encoded(keys, Tail(s, 5)));
    }
  }

  lemma BlockRoundTrip(index: seq<byte>, keys: seq<byte>, s: seq<byte>)
    requires |keys| == KEYS && |index| == 256 && Inverts(index, keys) && s != []
    ensures Octets(Values(index, Block(keys, s))) == if |s| == 4 then s + [0] else Head(s, 5)
    ensures s == Head(s, 5) + Tail(s, 5)
  {
    hide Octets;
    ValuesOfKeyed(index, keys, Groups(s));
    OctetsOfGroups(Head(s, 5));
    GroupsOfHead(s);
  }

  lemma GroupsOfHead(s: seq<byte>)
    ensures Groups(s) == Groups(Head(s, 5)) && s == Head(s, 5) + Tail(s, 5)
  {
    assert Head(s, 5) + Tail(s, 5) == s;
  }

  lemma DecodedBlock(index: seq<byte>, block: seq<byte>, rest: seq<byte>)
    requires |index| == 256 && block != [] && (|block| == 8 || (|block| < 8 && rest == []))
    ensures Decoded(index, block + rest) == Octets(Values(index, block)) + Decoded(index, rest)
  {
    hide Octets;
    assert Head(block + rest, 8) == block && Tail(block + rest, 8) == rest;
  }
}
