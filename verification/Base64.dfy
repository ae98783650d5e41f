/** Base64 with an alphabet of the user's, as in section 4 of RFC 4648 for the default one: three bytes become four
    keys, and the last block is filled with equals signs. */
module Base64 {
  import opened Bytes
  import opened Sequences

  const KEYS := 64
  const FILL: byte := 61

  type small = x: int | 0 <= x < KEYS

  // The six-bit groups of the bytes a, b, c
  function Group0(a: byte): small { a / 4 }
  function Group1(a: byte, b: byte): small { a % 4 * 16 + b / 16 }
  function Group2(b: byte, c: byte): small { b % 16 * 4 + c / 64 }
  function Group3(c: byte): small { c % 64 }

  /** base64_encrypt: the first three bytes of s. */
  function Block(keys: seq<byte>, s: seq<byte>): (block: seq<byte>)
    requires |keys| == KEYS && s != []
    ensures |block| == 4
  {
    var a, b, c := Pad(s, 0), Pad(s, 1), Pad(s, 2);
    [keys[Group0(a)], keys[Group1(a, b)],
     if |s| == 1 then FILL else keys[Group2(b, c)],
     if |s| <= 2 then FILL else keys[Group3(c)]]
  }

  function Encoded(keys: seq<byte>, s: seq<byte>): (t: seq<byte>)
    requires |keys| == KEYS
    ensures |t| % 4 == 0
    decreases |s|
  {
    hide Block;
    if s == [] then [] else Block(keys, s) + Encoded(keys, Tail(s, 3))
  }

  // The bytes of the groups; the index of a byte that is no key need not be a group
  function Octet0(p: byte, q: byte): byte { Or(p * 4 % 256, q / 16) }
  function Octet1(q: byte, r: byte): byte { Or(q % 16 * 16, r / 4) }
  function Octet2(r: byte, s: byte): byte { Or(r % 4 * 64, s % 64) }

  // The bytes of groups are sums of their parts

  lemma OctetSum0(p: small, q: small)
    ensures Octet0(p, q) == p * 4 + q / 16
  {
    hide Or;
    assert Power2(2) == 4;
    OrOfShifted(2, p, q / 16);
  }

  lemma OctetSum1(p: small, q: small)
    ensures Octet1(p, q) == p % 16 * 16 + q / 4
  {
    hide Or;
    assert Power2(4) == 16;
    OrOfShifted(4, p % 16, q / 4);
  }

  lemma OctetSum2(p: small, q: small)
    ensures Octet2(p, q) == p % 4 * 64 + q
  {
    hide Or;
    assert Power2(6) == 64;
    OrOfShifted(6, p % 4, q);
  }

  /** base64_decrypt: the bytes of a block; an equals sign ends it. */
  function Octets(index: seq<byte>, t: seq<byte>): (s: seq<byte>)
    requires |index| == 256 && |t| == 4
    ensures |s| <= 3
  {
    var o0 := Octet0(index[t[0]], index[t[1]]);
    if t[2] == FILL then [o0]
    else
      var o1 := Octet1(index[t[1]], index[t[2]]);
      if t[3] == FILL then [o0, o1] else [o0, o1, Octet2(index[t[2]], index[t[3]])]
  }

  /** Three bytes for every block, with zeros where a block gives fewer. */
  function Laid(index: seq<byte>, t: seq<byte>): (l: seq<byte>)
    requires |index| == 256
    decreases |t|
  {
    if |t| < 4 then [] else ToThree(Octets(index, t[..4])) + Laid(index, t[4..])
  }

  function ToThree(s: seq<byte>): (l: seq<byte>)
    requires |s| <= 3
    ensures |l| == 3
  {
    [Pad(s, 0), Pad(s, 1), Pad(s, 2)]
  }

  /** The number of bytes that all blocks give. */
  function Count(index: seq<byte>, t: seq<byte>): (n: nat)
    requires |index| == 256
    ensures n <= |Laid(index, t)|
    decreases |t|
  {
    if |t| < 4 then 0 else |Octets(index, t[..4])| + Count(index, t[4..])
  }

  /** The decoding of t; nothing when its length is not a multiple of 4. Blocks are written three bytes apart even after
      a short block, and the result is cut to the number of bytes given. */
  function Decoded(index: seq<byte>, t: seq<byte>): seq<byte>
    requires |index| == 256
  {
    if |t| % 4 != 0 then [] else Laid(index, t)[..Count(index, t)]
  }

  lemma GroupParts(a: byte, b: byte)
    ensures Group1(a, b) / 16 == a % 4 && Group1(a, b) % 16 == b / 16
    ensures Group2(a, b) / 4 == a % 16 && Group2(a, b) % 4 == b / 64
    ensures Group0(a) == a / 4 && Group3(b) == b % 64
  {
    SplitGroup(16, a % 4, b / 16);
    SplitGroup(4, a % 16, b / 64);
  }

  /** A byte from its bits. */
  lemma Parts(b: nat)
    ensures b / 4 * 4 + b % 4 == b && b / 16 * 16 + b % 16 == b && b / 64 * 64 + b % 64 == b
  {
  }

  lemma FirstByte(a: byte, b: byte)
    ensures Octet0(Group0(a), Group1(a, b)) == a
  {
    hide *;
    OctetSum0(Group0(a), Group1(a, b));
    GroupParts(a, b);
    Parts(a);
  }

  lemma SecondByte(a: byte, b: byte, c: byte)
    ensures Octet1(Group1(a, b), Group2(b, c)) == b
  {
    hide *;
    OctetSum1(Group1(a, b), Group2(b, c));
    GroupParts(a, b);
    GroupParts(b, c);
    Parts(b);
  }

  lemma ThirdByte(b: byte, c: byte)
    ensures Octet2(Group2(b, c), Group3(c)) == c
  {
    hide *;
    OctetSum2(Group2(b, c), Group3(c));
    GroupParts(b, c);
    Parts(c);
  }

  /** A block is decoded to its bytes, as long as no key in it is taken for the filling. */
  lemma OctetsOfBlock(index: seq<byte>, keys: seq<byte>, s: seq<byte>)
    requires |keys| == KEYS && |index| == 256 && Inverts(index, keys) && s != []
    ensures FILL !in keys ==> Octets(index, Block(keys, s)) == Head(s, 3)
  {
    hide Group0, Group1, Group2, Group3, Octet0, Octet1, Octet2;
    var a, b, c := Pad(s, 0), Pad(s, 1), Pad(s, 2);
    FirstByte(a, b);
    SecondByte(a, b, c);
    ThirdByte(b, c);
    assert index[keys[Group0(a)]] == Group0(a) && index[keys[Group1(a, b)]] == Group1(a, b);
    assert index[keys[Group2(b, c)]] == Group2(b, c) && index[keys[Group3(c)]] == Group3(c);
    assert keys[Group2(b, c)] in keys && keys[Group3(c)] in keys;
  }

  lemma BlockFirst(index: seq<byte>, block: seq<byte>, rest: seq<byte>)
    requires |index| == 256 && |block| == 4
    ensures Laid(index, block + rest) == ToThree(Octets(index, block)) + Laid(index, rest)
    ensures Count(index, block + rest) == |Octets(index, block)| + Count(index, rest)
  {
    hide Octets, ToThree;
    assert (block + rest)[..4] == block && (block + rest)[4..] == rest;
  }

  lemma {:induction false} DecodedEncoded(index: seq<byte>, keys: seq<byte>, s: seq<byte>)
    requires |keys| == KEYS && |index| == 256 && Inverts(index, keys) && FILL !in keys
    ensures Decoded(index, Encoded(keys, s)) == s
    decreases |s|
  {
    hide Block, Octets, Inverts, Laid, Count;
    if s == [] {
      NothingLaid(index);
    } else {
      DecodedEncoded(index, keys, Tail(s, 3));
      OctetsOfBlock(index, keys, s);
      BlockFirst(index, Block(keys, s), Encoded(keys, Tail(s, 3)));
      if |s| < 3 {
        NothingLaid(index);
        assert Encoded(keys, Tail(s, 3)) == [];
      }
    }
  }

  /** A string that does not come back when a key is the equals sign. */
  lemma {:induction false} FillingKey(index: seq<byte>, keys: seq<byte>) returns (s: seq<byte>)
    requires |keys| == KEYS && |index| == 256 && Inverts(index, keys) && FILL in keys
    ensures Decoded(index, Encoded(keys, s)) != s
  {
    hide Block, Octets, Inverts;
    s := FillingBytes(index, keys);
    OctetsOfBlock(index, keys, s);
    NothingLaid(index);
    BlockFirst(index, Block(keys, s), []);
    assert Tail(s, 3) == [] && Encoded(keys, []) == [] && |Decoded(index, Encoded(keys, s))| == 1;
  }

  lemma NothingLaid(index: seq<byte>)
    requires |index| == 256
    ensures Laid(index, []) == [] && Count(index, []) == 0
  {
  }

  /** Three bytes whose third key is the equals sign: their block is decoded to one byte. */
  lemma FillingBytes(index: seq<byte>, keys: seq<byte>) returns (s: seq<byte>)
    requires |keys| == KEYS && |index| == 256 && Inverts(index, keys) && FILL in keys
    ensures |s| == 3 && |Octets(index, Block(keys, s))| == 1
  {
    hide Group0, Group1, Group2, Group3, Octet0, Octet1, Octet2, Inverts;
    var p :| 0 <= p < KEYS && keys[p] == FILL;
    s := [0, p / 4, p % 4 * 64];
    ThirdGroup(p);
  }

  lemma ThirdGroup(p: small)
    ensures Group2(p / 4, p % 4 * 64) == p
  {
  }

  /** Decoding undoes encoding for every string exactly when the equals sign is not one of the keys. */
  lemma RoundTrip(index: seq<byte>, keys: seq<byte>)
    requires |keys| == KEYS && |index| == 256 && Inverts(index, keys)
    ensures (forall s: seq<byte> :: Decoded(index, Encoded(keys, s)) == s)
      <==> FILL !in keys
  {
    hide Inverts, Encoded, Decoded;
    if FILL in keys {
      var s := FillingKey(index, keys);
    } else {
      forall s: seq<byte> ensures Decoded(index, Encoded(keys, s)) == s {
        DecodedEncoded(index, keys, s);
      }
    }
  }

  /** What the blocks give, one behind the other. */
  function Concatenated(index: seq<byte>, t: seq<byte>): (c: seq<byte>)
    requires |index| == 256
    ensures |c| == Count(index, t)
    decreases |t|
  {
    if |t| < 4 then [] else Octets(index, t[..4]) + Concatenated(index, t[4..])
  }

  predicate AllZero(s: seq<byte>) { forall k | 0 <= k < |s| :: s[k] == 0 }

  /** All bytes that come from behind the first short block are zero; so it is if the first short block is the last. */
  predicate ZeroBehindShort(index: seq<byte>, t: seq<byte>)
    requires |index| == 256
    decreases |t|
  {
    hide Octets;
    |t| >= 4 ==>
      if |Octets(index, t[..4])| == 3 then ZeroBehindShort(index, t[4..]) else AllZero(Concatenated(index, t[4..]))
  }

  /** A byte laid out comes from an earlier or the same place of the concatenation, or is a zero between blocks. */
  lemma {:induction false} LaidFrom(index: seq<byte>, t: seq<byte>, j: nat) returns (k: nat)
    requires |index| == 256 && j < |Laid(index, t)| && Laid(index, t)[j] != 0
    ensures k <= j && k < |Concatenated(index, t)| && Concatenated(index, t)[k] == Laid(index, t)[j]
    decreases |t|
  {
    hide Octets, Count, Laid, Concatenated, ToThree;
    FirstBlock(index, t);
    var octets, rest := Octets(index, t[..4]), t[4..];
    assert Laid(index, t)[j] == if j < 3 then ToThree(octets)[j] else Laid(index, rest)[j - 3];
    if j < 3 {
      k := j;
      assert Concatenated(index, t)[k] == octets[k];
    } else {
      k := LaidFrom(index, rest, j - 3);
      assert Concatenated(index, t)[k + |octets|] == Concatenated(index, rest)[k];
      k := k + |octets|;
    }
  }

  lemma FirstBlock(index: seq<byte>, t: seq<byte>)
    requires |index| == 256
    ensures |t| < 4 ==> Laid(index, t) == []
    ensures |t| >= 4 ==>
      && Laid(index, t) == ToThree(Octets(index, t[..4])) + Laid(index, t[4..])
      && Concatenated(index, t) == Octets(index, t[..4]) + Concatenated(index, t[4..])
      && forall j | 0 <= j < 3 && ToThree(Octets(index, t[..4]))[j] != 0 ::
           j < |Octets(index, t[..4])| && Octets(index, t[..4])[j] == ToThree(Octets(index, t[..4]))[j]
  {
    hide Octets;
  }

  function Zeros(d: nat): (z: seq<byte>)
    ensures |z| == d && AllZero(z)
  {
    seq(d, _ => 0)
  }

  /** Moved behind d zeros and cut, the bytes laid out are the concatenation only if that is zero. */
  lemma {:induction false} MovedBytes(index: seq<byte>, t: seq<byte>, d: nat)
    requires |index| == 256 && d > 0
    ensures (Zeros(d) + Laid(index, t))[..Count(index, t)] == Concatenated(index, t)
      <==> AllZero(Concatenated(index, t))
  {
    hide Octets, Count, Laid, Concatenated;
    var c, moved := Concatenated(index, t), Zeros(d) + Laid(index, t);
    if !AllZero(c) {
      var n := FirstNonzero(c);
      if moved[n] == c[n] {
        var k := LaidFrom(index, t, n - d);
        assert false;
      }
    } else {
      forall j | 0 <= j < |moved| ensures moved[j] == 0 {
        if j >= d && Laid(index, t)[j - d] != 0 {
          var k := LaidFrom(index, t, j - d);
          assert false;
        }
      }
      assert moved[..|c|] == c;
    }
  }

  lemma {:induction false} FirstNonzero(s: seq<byte>) returns (n: nat)
    requires !AllZero(s)
    ensures n < |s| && s[n] != 0 && forall k | 0 <= k < n :: s[k] == 0
  {
    if s[0] != 0 {
      n := 0;
    } else {
      n := FirstNonzero(s[1..]);
      n := n + 1;
    }
  }

  /** A text is decoded to what its blocks give exactly when all bytes from behind its first short block are zero. */
  lemma {:induction false} DecodesBlocks(index: seq<byte>, t: seq<byte>)
    requires |index| == 256 && |t| % 4 == 0
    ensures Decoded(index, t) == Concatenated(index, t) <==> ZeroBehindShort(index, t)
    decreases |t|
  {
    hide Octets, Laid, Count, Concatenated, ToThree, ZeroBehindShort, AllZero;
    NoBlocks(index);
    if t != [] {
      var block, rest := t[..4], t[4..];
      assert t == block + rest;
      WholeBlocks(4, |rest|);
      BlockFirst(index, block, rest);
      BlockThen(index, block, rest);
      BlockShows(Octets(index, block), Laid(index, rest), Count(index, rest), Concatenated(index, rest));
      if |Octets(index, block)| == 3 {
        DecodesBlocks(index, rest);
      } else {
        MovedBytes(index, rest, 3 - |Octets(index, block)|);
      }
    }
  }

  /** Behind the bytes of the first block, the others show moved by the zeros it is filled with. */
  lemma BlockShows(octets: seq<byte>, laid: seq<byte>, n: nat, others: seq<byte>)
    requires |octets| <= 3 && n <= |laid|
    ensures (ToThree(octets) + laid)[..|octets| + n] == octets + others <==>
      (Zeros(3 - |octets|) + laid)[..n] == others
    ensures Zeros(0) + laid == laid
  {
    hide AllZero;
    var moved := Zeros(3 - |octets|) + laid;
    assert ToThree(octets) == octets + Zeros(3 - |octets|);
    Regroup(octets, Zeros(3 - |octets|), laid);
    assert (octets + moved)[..|octets| + n] == octets + moved[..n];
    SameBehind(octets, moved[..n], others);
  }

  lemma WholeBlocks(m: nat, n: nat)
    requires m % 4 == 0
    ensures (m + n) % 4 == 0 <==> n % 4 == 0
  {
  }

  lemma NoBlocks(index: seq<byte>)
    requires |index| == 256
    ensures Concatenated(index, []) == [] && ZeroBehindShort(index, []) && AllZero([])
  {
  }

  lemma BlockThen(index: seq<byte>, block: seq<byte>, rest: seq<byte>)
    requires |index| == 256 && |block| == 4
    ensures Concatenated(index, block + rest) == Octets(index, block) + Concatenated(index, rest)
    ensures ZeroBehindShort(index, block + rest) <==>
      if |Octets(index, block)| == 3 then ZeroBehindShort(index, rest) else AllZero(Concatenated(index, rest))
  {
    hide Octets, AllZero;
    assert (block + rest)[..4] == block && (block + rest)[4..] == rest;
  }

  /** The blocks of an encoded string in front of other blocks. */
  lemma {:induction false} EncodedThen(index: seq<byte>, keys: seq<byte>, s: seq<byte>, t: seq<byte>)
    requires |keys| == KEYS && |index| == 256 && Inverts(index, keys) && FILL !in keys
    ensures Concatenated(index, Encoded(keys, s) + t) == s + Concatenated(index, t)
    ensures ZeroBehindShort(index, Encoded(keys, s) + t) <==>
      if |s| % 3 == 0 then ZeroBehindShort(index, t) else AllZero(Concatenated(index, t))
    decreases |s|
  {
    hide Inverts, Octets, Block, Concatenated, ZeroBehindShort, AllZero, Count, Laid;
    if s == [] {
      assert Encoded(keys, s) + t == t && s + Concatenated(index, t) == Concatenated(index, t);
    } else {
      var block, rest := Block(keys, s), Encoded(keys, Tail(s, 3)) + t;
      OctetsOfBlock(index, keys, s);
      EncodedThen(index, keys, Tail(s, 3), t);
      Regroup(block, Encoded(keys, Tail(s, 3)), t);
      BlockThen(index, block, rest);
      Regroup(Head(s, 3), Tail(s, 3), Concatenated(index, t));
      assert Head(s, 3) + Tail(s, 3) == s;
      if |s| < 3 {
        assert Encoded(keys, []) + t == t && [] + Concatenated(index, t) == Concatenated(index, t);
      }
    }
  }

  /** Two encoded strings, one behind the other, are decoded to the two strings exactly when the first has no short
      block or the second is all zeros. */
  lemma EncodedTwice(index: seq<byte>, keys: seq<byte>, s: seq<byte>, r: seq<byte>)
    requires |keys| == KEYS && |index| == 256 && Inverts(index, keys) && FILL !in keys
    ensures Decoded(index, Encoded(keys, s) + Encoded(keys, r)) == s + r <==> |s| % 3 == 0 || AllZero(r)
  {
    hide *;
    var t := Encoded(keys, r);
    NoBlocks(index);
    EncodedThen(index, keys, r, []);
    assert t + [] == t && r + [] == r;
    EncodedThen(index, keys, s, t);
    WholeBlocks(|Encoded(keys, s)|, |t|);
    DecodesBlocks(index, Encoded(keys, s) + t);
  }

  /** A short block leaves zeros behind it, and the end of the text is cut off instead: A and Man in two blocks are
      decoded to A, two zeros and M; AB and Man to AB, one zero and Ma. */
  lemma ShortBlockLeavesGap(index: seq<byte>, keys: seq<byte>)
    requires |keys| == KEYS && |index| == 256 && Inverts(index, keys) && FILL !in keys
    ensures Decoded(index, Block(keys, [65]) + Block(keys, [77, 97, 110])) == [65, 0, 0, 77]
    ensures Decoded(index, Block(keys, [65, 66]) + Block(keys, [77, 97, 110])) == [65, 66, 0, 77, 97]
  {
    hide Octets, Block, Laid, Count, Inverts;
    var last := Block(keys, [77, 97, 110]);
    OctetsOfBlock(index, keys, [77, 97, 110]);
    OctetsOfBlock(index, keys, [65]);
    OctetsOfBlock(index, keys, [65, 66]);
    NothingLaid(index);
    BlockFirst(index, last, []);
    assert last + [] == last;
    BlockFirst(index, Block(keys, [65]), last);
    BlockFirst(index, Block(keys, [65, 66]), last);
  }
}
