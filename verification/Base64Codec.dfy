/** The Base64 codec over its buffers: block by block, with the alphabet last set. */
module Base64Codec {
  import opened Bytes
  import opened Base64
  import opened Sequences

  /** The default alphabet: the capital letters, the small letters, the digits, + and /. */
  const DEFAULT_KEYS: seq<byte> := seq(KEYS, k requires 0 <= k < KEYS => DefaultKey(k))

  function DefaultKey(k: small): byte {
    if k < 26 then 65 + k else if k < 52 then 97 + k - 26 else if k < 62 then 48 + k - 52
    else if k == 62 then 43 else 47
  }

  class Codec {
    const table: KeyTable

    constructor ()
      ensures Valid() && table.keys[..] == table.defaults == DEFAULT_KEYS && FILL !in DEFAULT_KEYS
      ensures Inverts(table.index[..], table.keys[..])
      ensures fresh(table) && fresh(table.keys) && fresh(table.index)
    {
      hide Distinct, Inverts;
      DefaultsDiffer();
      table := new KeyTable(DEFAULT_KEYS);
    }

    ghost predicate Valid() {
      table.Valid() && |table.defaults| == KEYS
    }

    /** base64_encrypt: the block of input that starts at oft, written to out from oo on. */
    method EncryptBlock(input: seq<byte>, oft: nat, out: array<byte>, oo: nat)
      requires Valid() && oft < |input| && oo + 4 <= out.Length && out != table.keys && out != table.index
      modifies out
      ensures out[oo..oo + 4] == Block(table.keys[..], input[oft..])
      ensures forall k | 0 <= k < oo :: out[k] == old(out[k])
    {
      hide Group0, Group1, Group2, Group3;
      var keys := table.keys;
      var inlen := |input| - oft;
      var in0 := input[oft];
      out[oo] := keys[Group0(in0)];
      if inlen == 1 {
        out[oo + 1] := keys[Group1(in0, 0)];
        out[oo + 2] := FILL;
        out[oo + 3] := FILL;
        return;
      }
      var in1 := input[oft + 1];
      out[oo + 1] := keys[Group1(in0, in1)];
      if inlen == 2 {
        out[oo + 2] := keys[Group2(in1, 0)];
        out[oo + 3] := FILL;
        return;
      }
      var in2 := input[oft + 2];
      out[oo + 2] := keys[Group2(in1, in2)];
      out[oo + 3] := keys[Group3(in2)];
    }

    /** base64_decrypt: the block of input that starts at oft, written to out from oo on. */
    method DecryptBlock(input: seq<byte>, oft: nat, out: array<byte>, oo: nat) returns (n: nat)
      requires Valid() && oft + 4 <= |input| && oo + 3 <= out.Length && out != table.keys && out != table.index
      requires out[oo] == out[oo + 1] == out[oo + 2] == 0
      modifies out
      ensures var octets := Octets(table.index[..], input[oft..oft + 4]);
        n == |octets| && out[..oo + 3] == old(out[..oo]) + ToThree(octets)
      ensures forall k | 0 <= k < oo || oo + 3 <= k < out.Length :: out[k] == old(out[k])
    {
      hide Octet0, Octet1, Octet2;
      var index := table.index;
      var in2, in3 := input[oft + 2], input[oft + 3];
      out[oo] := Octet0(index[input[oft]], index[input[oft + 1]]);
      if in2 == FILL {
        return 1;
      }
      out[oo + 1] := Octet1(index[input[oft + 1]], index[in2]);
      if in3 == FILL {
        return 2;
      }
      out[oo + 2] := Octet2(index[in2], index[in3]);
      return 3;
    }

    /** Base64::Encrypt. */
    method Encrypt(s: seq<byte>) returns (r: seq<byte>)
      requires Valid()
      ensures r == Encoded(table.keys[..], s)
    {
      hide Encoded, Block, Tail;
      ghost var keys, rest := table.keys[..], Encoded(table.keys[..], s);
      NothingEncoded(keys);
      if s == [] {
        return [];
      }
      var len := |s|;
      var block := len / 3 + if len % 3 != 0 then 1 else 0;
      var out := new byte[block * 4];
      var oft, oo := 0, 0;
      ghost var whole := rest;
      Ends(s);
      assert whole == out[..0] + rest;
      for i := 0 to block
        invariant oft == 3 * i && oo == 4 * i
        invariant table.keys[..] == keys && rest == Encoded(keys, Tail(s, oft)) && whole == out[..oo] + rest
      {
        ghost var before, written := out[..oo], Block(keys, s[oft..]);
        EncryptBlock(s, oft, out, oo);
        EncodedStep(keys, s, oft);
        rest := Encoded(keys, Tail(s, oft + 3));
        WrittenBehind(out, oo, whole, before, written, rest);
        oft, oo := oft + 3, oo + 4;
      }
      assert Tail(s, oft) == [] && out[..oo] == out[..] == whole;
      r := out[..];
    }

    /** Base64::Decrypt, on any text. */
    method Decrypt(t: seq<byte>) returns (r: seq<byte>)
      requires Valid()
      ensures r == Decoded(table.index[..], t)
    {
      hide Octets, Laid, Count, ToThree, Tail;
      var len := |t|;
      if len % 4 != 0 {
        return [];
      }
      var block := len / 4;
      var out := new byte[block * 3](_ => 0);
      var total, oft, oo := 0, 0, 0;
      ghost var index := table.index[..];
      Ends(t);
      ghost var whole, rest := Laid(index, t), Laid(index, t);
      assert whole == out[..0] + rest;
      for i := 0 to block
        invariant oft == 4 * i && oo == 3 * i <= out.Length && forall k | oo <= k < out.Length :: out[k] == 0
        invariant table.index[..] == index
        invariant rest == Laid(index, Tail(t, oft)) && whole == out[..oo] + rest
        invariant Count(index, t) == total + Count(index, Tail(t, oft))
      {
        DecodedStep(index, t, oft);
        ghost var before, written := out[..oo], ToThree(Octets(index, t[oft..oft + 4]));
        var n := DecryptBlock(t, oft, out, oo);
        total, oft, oo := total + n, oft + 4, oo + 3;
        rest := Laid(index, Tail(t, oft));
        Regroup(before, written, rest);
      }
      NothingLaid(index);
      assert Tail(t, oft) == [] && out[..oo] == out[..] == whole;
      r := out[..total];
    }

    /** Encrypt and decrypt with an alphabet that SetKeys accepts and that lacks the equals sign: the string comes
        back. */
    method EncryptThenDecrypt(alphabet: seq<byte>, s: seq<byte>) returns (accepted: bool, r: seq<byte>)
      requires Valid() && forall i | 0 <= i < |alphabet| && i < KEYS :: alphabet[i] < 128
      requires forall i | 0 <= i < KEYS :: table.defaults[i] < 128
      modifies table.keys, table.index
      ensures accepted <==> |alphabet| >= KEYS && Distinct(alphabet[..KEYS])
      ensures accepted && FILL !in alphabet[..KEYS] ==> r == s
    {
      hide Encoded, Decoded, Inverts;
      var code := table.SetKeys(alphabet);
      accepted := code == 0;
      r := [];
      if accepted {
        var t := Encrypt(s);
        if FILL !in alphabet[..KEYS] {
          DecodedEncoded(table.index[..], table.keys[..], s);
        }
        r := Decrypt(t);
      }
    }
  }

  lemma NothingEncoded(keys: seq<byte>)
    requires |keys| == KEYS
    ensures Encoded(keys, []) == []
  {
  }

  lemma EncodedStep(keys: seq<byte>, s: seq<byte>, oft: nat)
    requires |keys| == KEYS && oft < |s|
    ensures Encoded(keys, Tail(s, oft)) == Block(keys, s[oft..]) + Encoded(keys, Tail(s, oft + 3))
  {
    hide Block;
    assert Tail(s, oft) == s[oft..] && Tail(s[oft..], 3) == Tail(s, oft + 3);
  }

  lemma DecodedStep(index: seq<byte>, t: seq<byte>, oft: nat)
    requires |index| == 256 && |t| % 4 == 0 && oft % 4 == 0 && oft < |t|
    ensures Laid(index, Tail(t, oft)) == ToThree(Octets(index, t[oft..oft + 4])) + Laid(index, Tail(t, oft + 4))
    ensures Count(index, Tail(t, oft)) == |Octets(index, t[oft..oft + 4])| + Count(index, Tail(t, oft + 4))
  {
    hide Octets, ToThree;
    SplitSlice(t, oft, oft + 4, |t|);
    assert t[..|t|] == t && t[oft..][..4] == t[oft..oft + 4] && t[oft..][4..] == t[oft + 4..];
  }

  lemma Letter(k: nat)
    requires k < 13
    ensures "ABCDEFGHIJKLM"[k] as int == 65 + k && "NOPQRSTUVWXYZ"[k] as int == 78 + k
    ensures "abcdefghijklm"[k] as int == 97 + k && "nopqrstuvwxyz"[k] as int == 110 + k
  {
  }

  lemma DigitOrSign(k: nat)
    requires k < 12
    ensures "0123456789+/"[k] as int == if k < 10 then 48 + k else if k == 10 then 43 else 47
  {
  }

  /** The default alphabet as characters. */
  lemma DefaultAlphabet()
    ensures DEFAULT_KEYS[..13] == BytesOf("ABCDEFGHIJKLM") && DEFAULT_KEYS[13..26] == BytesOf("NOPQRSTUVWXYZ")
    ensures DEFAULT_KEYS[26..39] == BytesOf("abcdefghijklm") && DEFAULT_KEYS[39..52] == BytesOf("nopqrstuvwxyz")
    ensures DEFAULT_KEYS[52..] == BytesOf("0123456789+/") && |DEFAULT_KEYS| == 64
  {
    forall k | 0 <= k < 13
      ensures DEFAULT_KEYS[k] == BytesOf("ABCDEFGHIJKLM")[k] && DEFAULT_KEYS[13 + k] == BytesOf("NOPQRSTUVWXYZ")[k]
      ensures DEFAULT_KEYS[26 + k] == BytesOf("abcdefghijklm")[k]
      ensures DEFAULT_KEYS[39 + k] == BytesOf("nopqrstuvwxyz")[k]
    {
      Letter(k);
    }
    forall k | 0 <= k < 12 ensures DEFAULT_KEYS[52 + k] == BytesOf("0123456789+/")[k] {
      DigitOrSign(k);
    }
  }

  lemma DefaultsDiffer()
    ensures Distinct(DEFAULT_KEYS) && forall i | 0 <= i < |DEFAULT_KEYS| :: DEFAULT_KEYS[i] < 128
    ensures FILL !in DEFAULT_KEYS && |DEFAULT_KEYS| == KEYS
  {
  }
}
