/** The Base32 codec over its buffers: block by block, with the alphabet last set. */
module Base32Codec {
  import opened Bytes
  import opened Base32
  import opened Sequences

  class Codec {
    const table: KeyTable

    constructor ()
      ensures table.Valid() && table.keys[..] == table.defaults == DEFAULT_KEYS && |table.defaults| == KEYS
      ensures Inverts(table.index[..], table.keys[..])
      ensures fresh(table) && fresh(table.keys) && fresh(table.index)
    {
      hide Distinct, Inverts;
      DefaultsDiffer();
      table := new KeyTable(DEFAULT_KEYS);
    }

    ghost predicate Valid() {
      table.Valid() && |table.defaults| == KEYS
    }

    /** base32_encrypt: the block of input that starts at oft, written to out from oo on. The groups that are cut off
        at the end of the input are those of a zero byte. */
    method EncryptBlock(input: seq<byte>, oft: nat, out: array<byte>, oo: nat) returns (n: nat)
      requires Valid() && oft <= |input| && oo + 8 <= out.Length && out != table.keys && out != table.index
      modifies out
      ensures n == GroupCount(|input| - oft)
      ensures forall k | oo <= k < oo + n :: out[k] == Block(table.keys[..], input[oft..])[k - oo]
      ensures forall k | 0 <= k < oo :: out[k] == old(out[k])
    {
      hide Groups, Group0, Group1, Group2, Group3, Group4, Group5, Group6, Group7;
      var keys := table.keys;
      var inlen := |input| - oft;
      if inlen <= 0 {
        return 0;
      }
      PaddedGroups(input[oft..]);
      var in0 := input[oft];
      out[oo] := keys[Group0(in0)];
      if inlen == 1 {
        out[oo + 1] := keys[Group1(in0, 0)];
        return 2;
      }
      var in1 := input[oft + 1];
      out[oo + 1] := keys[Group1(in0, in1)];
      out[oo + 2] := keys[Group2(in1)];
      if inlen == 2 {
        out[oo + 3] := keys[Group3(in1, 0)];
        return 4;
      }
      var in2 := input[oft + 2];
      out[oo + 3] := keys[Group3(in1, in2)];
      if inlen == 3 {
        out[oo + 4] := keys[Group4(in2, 0)];
        return 5;
      }
      var in3 := input[oft + 3];
      out[oo + 4] := keys[Group4(in2, in3)];
      out[oo + 5] := keys[Group5(in3)];
      if inlen == 4 {
        out[oo + 6] := keys[Group6(in3, 0)];
        return 7;
      }
      var in4 := input[oft + 4];
      out[oo + 6] := keys[Group6(in3, in4)];
      out[oo + 7] := keys[Group7(in4)];
      return 8;
    }

    /** base32_decrypt: the block of input that starts at oft, written to out from oo on. */
    method DecryptBlock(input: seq<byte>, oft: nat, out: array<byte>, oo: nat) returns (n: nat)
      requires Valid() && oft <= |input| && oo + 5 <= out.Length && out != table.keys && out != table.index
      modifies out
      ensures var octets := Octets(Values(table.index[..], Head(input[oft..], 8)));
        n == |octets| && forall k | oo <= k < oo + n :: out[k] == octets[k - oo]
      ensures forall k | 0 <= k < oo :: out[k] == old(out[k])
    {
      hide Octet0, Octet1, Octet2, Octet3, Octet4;
      var index := table.index;
      var inlen := |input| - oft;
      ghost var t := input[oft..];
      ghost var g := Values(table.index[..], Head(t, 8));
      assert forall k | 0 <= k < |g| :: g[k] == Values(table.index[..], t)[k] == index[input[oft + k]];
      if inlen <= 0 {
        return 0;
      }
      var v0 := index[input[oft]];
      out[oo] := Octet0(v0, 0);
      if inlen == 1 {
        return 1;
      }
      var v1 := index[input[oft + 1]];
      out[oo] := Octet0(v0, v1);
      if inlen == 2 {
        out[oo + 1] := Octet1(v1, 0, 0);
        return if out[oo + 1] != 0 then 2 else 1;
      }
      var v2 := index[input[oft + 2]];
      if inlen == 3 {
        out[oo + 1] := Octet1(v1, v2, 0);
        return 2;
      }
      var v3 := index[input[oft + 3]];
      out[oo + 1] := Octet1(v1, v2, v3);
      if inlen == 4 {
        out[oo + 2] := Octet2(v3, 0);
        return if out[oo + 2] != 0 then 3 else 2;
      }
      var v4 := index[input[oft + 4]];
      out[oo + 2] := Octet2(v3, v4);
      if inlen == 5 {
        out[oo + 3] := Octet3(v4, 0, 0);
        return if out[oo + 3] != 0 then 4 else 3;
      }
      var v5 := index[input[oft + 5]];
      if inlen == 6 {
        out[oo + 3] := Octet3(v4, v5, 0);
        return 4;
      }
      var v6 := index[input[oft + 6]];
      out[oo + 3] := Octet3(v4, v5, v6);
      if inlen == 7 {
        out[oo + 4] := Octet4(v6, 0);
        return 5;
      }
      out[oo + 4] := Octet4(v6, index[input[oft + 7]]);
      return 5;
    }

    /** BASE32::Encrypt. */
    method Encrypt(s: seq<byte>) returns (r: seq<byte>)
      requires Valid()
      ensures r == Encoded(table.keys[..], s)
    {
      hide Groups, Encoded, Block, Tail;
      if s == [] {
        NothingEncoded(table.keys[..]);
        return [];
      }
      var len := |s|;
      var block := len / 5 + if len % 5 != 0 then 1 else 0;
      var out := new byte[block * 8](_ => 0);
      var total, oft, oo := 0, 0, 0;
      ghost var keys, rest := table.keys[..], Encoded(table.keys[..], s);
      ghost var whole := rest;
      Ends(s);
      assert whole == out[..0] + rest;
      for i := 0 to block
        invariant oft == 5 * i && oo == 8 * i && 0 <= total <= oo <= out.Length && (i < block ==> total == oo)
        invariant table.keys[..] == keys && rest == Encoded(keys, Tail(s, oft)) && whole == out[..total] + rest
      {
        ghost var before, written := out[..total], Block(keys, s[oft..]);
        var n := EncryptBlock(s, oft, out, oo);
        EncodedStep(keys, s, oft);
        rest := Encoded(keys, Tail(s, oft + 5));
        WrittenBehind(out, oo, whole, before, written, rest);
        total, oft, oo := total + n, oft + 5, oo + 8;
      }
      NothingEncoded(keys);
      assert Tail(s, oft) == [];
      r := out[..total];
    }

    /** BASE32::Decrypt, on any text. */
    method Decrypt(t: seq<byte>) returns (r: seq<byte>)
      requires Valid()
      ensures r == Decoded(table.index[..], t)
    {
      hide Octets, Decoded, Values, Head, Tail;
      var len := |t|;
      var block := len / 8 + if len % 8 != 0 then 1 else 0;
      var out := new byte[block * 5](_ => 0);
      var total, oft, oo := 0, 0, 0;
      ghost var index := table.index[..];
      ghost var rest := Decoded(index, t);
      ghost var whole := rest;
      Ends(t);
      assert whole == out[..0] + rest;
      for i := 0 to block
        invariant oft == 8 * i && oo == 5 * i && 0 <= total <= oo <= out.Length && (i < block ==> total == oo)
        invariant table.index[..] == index
        invariant rest == Decoded(index, Tail(t, oft)) && whole == out[..total] + rest
      {
        DecodedStep(index, t, oft);
        ghost var before, written := out[..total], Octets(Values(index, Head(t[oft..], 8)));
        var n := DecryptBlock(t, oft, out, oo);
        rest := Decoded(index, Tail(t, oft + 8));
        WrittenBehind(out, oo, whole, before, written, rest);
        total, oft, oo := total + n, oft + 8, oo + 5;
      }
      NothingDecoded(index);
      assert Tail(t, oft) == [];
      r := out[..total];
    }

    /** Encrypt and decrypt with an alphabet that SetKeys accepts: the string comes back, with one zero byte more
        exactly when its length is 4 modulo 5. */
    method EncryptThenDecrypt(alphabet: seq<byte>, s: seq<byte>) returns (accepted: bool, r: seq<byte>)
      requires Valid() && forall i | 0 <= i < |alphabet| && i < KEYS :: alphabet[i] < 128
      requires forall i | 0 <= i < KEYS :: table.defaults[i] < 128
      modifies table.keys, table.index
      ensures accepted <==> |alphabet| >= KEYS && Distinct(alphabet[..KEYS])
      ensures accepted ==> r == if |s| % 5 == 4 then s + [0] else s
    {
      hide Encoded, Decoded, Inverts;
      var code := table.SetKeys(alphabet);
      accepted := code == 0;
      r := [];
      if accepted {
        RoundTrip(table.index[..], table.keys[..], s);
        var t := Encrypt(s);
        r := Decrypt(t);
      }
    }
  }

  lemma NothingDecoded(index: seq<byte>)
    requires |index| == 256
    ensures Decoded(index, []) == []
  {
  }

  lemma DecodedStep(index: seq<byte>, t: seq<byte>, oft: nat)
    requires |index| == 256 && oft < |t|
    ensures Decoded(index, Tail(t, oft)) ==
      Octets(Values(index, Head(t[oft..], 8))) + Decoded(index, Tail(t, oft + 8))
  {
    hide Octets;
    assert Tail(t, oft) == t[oft..] && Tail(t[oft..], 8) == Tail(t, oft + 8);
  }

  lemma NothingEncoded(keys: seq<byte>)
    requires |keys| == KEYS
    ensures Encoded(keys, []) == []
  {
  }

  lemma EncodedStep(keys: seq<byte>, s: seq<byte>, oft: nat)
    requires |keys| == KEYS && oft < |s|
    ensures Encoded(keys, Tail(s, oft)) == Block(keys, s[oft..]) + Encoded(keys, Tail(s, oft + 5))
  {
    hide Block;
    assert Tail(s, oft) == s[oft..] && Tail(s[oft..], 5) == Tail(s, oft + 5);
  }

  lemma Letter(k: nat)
    requires k < 16
    ensures DEFAULT_KEYS[k] == "0123456789abcdfh"[k] as int && DEFAULT_KEYS[16 + k] == "ijklmoqrstuvwxyz"[k] as int
  {
  }

  lemma Half(half: seq<byte>, text: string)
    requires |half| == |text| && forall k | 0 <= k < |half| :: half[k] == text[k] as int
    ensures half == BytesOf(text)
  {
  }

  /** The default alphabet as characters. */
  lemma DefaultAlphabet()
    ensures DEFAULT_KEYS[..16] == BytesOf("0123456789abcdfh") && DEFAULT_KEYS[16..] == BytesOf("ijklmoqrstuvwxyz")
  {
    forall k | 0 <= k < 16
      ensures DEFAULT_KEYS[..16][k] == "0123456789abcdfh"[k] as int
      ensures DEFAULT_KEYS[16..][k] == "ijklmoqrstuvwxyz"[k] as int
    {
      Letter(k);
    }
    Half(DEFAULT_KEYS[..16], "0123456789abcdfh");
    Half(DEFAULT_KEYS[16..], "ijklmoqrstuvwxyz");
  }

  lemma DefaultsDiffer()
    ensures Distinct(DEFAULT_KEYS) && forall i | 0 <= i < |DEFAULT_KEYS| :: DEFAULT_KEYS[i] < 128
  {
    assert forall i | 0 <= i < 31 :: DEFAULT_KEYS[i] < DEFAULT_KEYS[i + 1];
    forall i, j | 0 <= i < j < |DEFAULT_KEYS| ensures DEFAULT_KEYS[i] != DEFAULT_KEYS[j] {
      Ascending(DEFAULT_KEYS, i, j);
    }
  }

  lemma {:induction false} Ascending(s: seq<byte>, i: nat, j: nat)
    requires i < j < |s| && forall k | 0 <= k < |s| - 1 :: s[k] < s[k + 1]
    ensures s[i] < s[j]
    decreases j
  {
    if i < j - 1 {
      Ascending(s, i, j - 1);
    }
    assert s[j - 1] < s[j - 1 + 1];
  }
}
