/** Bytes, and the tables of the block codecs. */
module Bytes {
  import opened Sequences

  type byte = x: int | 0 <= x < 256

  /** The bytes of an ASCII text. */
  function BytesOf(s: string): (bytes: seq<byte>)
    ensures |bytes| == |s|
  {
    seq(|s|, k requires 0 <= k < |s| => s[k] as int % 256)
  }

  /** A key table and the index that is to invert it. */
  ghost predicate Inverts(index: seq<byte>, keys: seq<byte>) {
    |index| == 256 && forall i | 0 <= i < |keys| :: index[keys[i]] == i
  }

  /** The byte at j does not come again. */
  ghost predicate LastAt(s: seq<byte>, j: nat)
    requires j < |s|
  {
    forall m | j < m < |s| :: s[m] != s[j]
  }

  /** The index of a key is its last position. */
  ghost predicate IndexesLast(index: seq<byte>, keys: seq<byte>) {
    |index| == 256 && forall j | 0 <= j < |keys| && LastAt(keys, j) :: index[keys[j]] == j
  }

  lemma IndexOneMore(index: seq<byte>, keys: seq<byte>, c: byte)
    requires IndexesLast(index, keys) && |keys| < 256
    ensures IndexesLast(index[c := |keys|], keys + [c])
  {
    var longer := keys + [c];
    forall j | 0 <= j < |longer| && LastAt(longer, j) ensures index[c := |keys|][longer[j]] == j {
      if j < |keys| {
        assert longer[|keys|] == c && forall m | j < m < |keys| :: longer[m] == keys[m];
      }
    }
  }

  /** The keys of values, and the values an index gives for keys. */
  function Keyed(keys: seq<byte>, values: seq<int>): (t: seq<byte>)
    requires forall k | 0 <= k < |values| :: 0 <= values[k] < |keys|
    ensures |t| == |values| && forall k | 0 <= k < |t| :: t[k] == keys[values[k]]
  {
    seq(|values|, k requires 0 <= k < |values| => keys[values[k]])
  }

  function Values(index: seq<byte>, t: seq<byte>): (v: seq<byte>)
    requires |index| == 256
    ensures |v| == |t| && forall k | 0 <= k < |v| :: v[k] == index[t[k]]
  {
    seq(|t|, k requires 0 <= k < |t| => index[t[k]])
  }

  lemma ValuesOfKeyed(index: seq<byte>, keys: seq<byte>, values: seq<int>)
    requires Inverts(index, keys) && forall k | 0 <= k < |values| :: 0 <= values[k] < |keys|
    ensures Values(index, Keyed(keys, values)) == values
  {
  }

  function Power2(n: nat): (p: nat)
    ensures p >= 1
  {
    if n == 0 then 1 else 2 * Power2(n - 1)
  }

  /** Bitwise or. */
  function OrBits(a: nat, b: nat): nat {
    if a == 0 then b
    else if b == 0 then a
    else 2 * OrBits(a / 2, b / 2) + (if a % 2 == 1 || b % 2 == 1 then 1 else 0)
  }

  lemma {:induction false} OrStaysBelow(n: nat, a: nat, b: nat)
    requires a < Power2(n) && b < Power2(n)
    ensures OrBits(a, b) < Power2(n)
  {
    if n > 0 && a > 0 && b > 0 {
      OrStaysBelow(n - 1, a / 2, b / 2);
    }
  }

  function Or(a: byte, b: byte): byte {
    assert Power2(8) == 256;
    OrStaysBelow(8, a, b);
    OrBits(a, b)
  }

  /** The lowest k bits are 0. */
  predicate Shifted(k: nat, a: nat) {
    k == 0 || (a % 2 == 0 && Shifted(k - 1, a / 2))
  }

  /** The bits of a and b do not meet, so that bitwise or is a sum. */
  lemma {:induction false} OrIsSum(k: nat, a: nat, b: nat)
    requires b < Power2(k) && Shifted(k, a)
    ensures OrBits(a, b) == a + b
  {
    if k > 0 && a > 0 && b > 0 {
      OrIsSum(k - 1, a / 2, b / 2);
    }
  }

  lemma OrOfShifted(k: nat, x: nat, b: byte)
    requires b < Power2(k) && x * Power2(k) < 256
    ensures Or(x * Power2(k), b) == x * Power2(k) + b
  {
    ShiftedIsShifted(k, x);
    OrIsSum(k, x * Power2(k), b);
  }

  lemma {:induction false} ShiftedIsShifted(k: nat, x: nat)
    ensures Shifted(k, x * Power2(k))
  {
    if k > 0 {
      var y := x * Power2(k - 1);
      assert x * Power2(k) == 2 * y;
      ShiftedIsShifted(k - 1, x);
    }
  }

  /** The two parts of a group. */
  lemma SplitGroup(w: nat, high: nat, low: nat)
    requires low < w && (w == 2 || w == 4 || w == 8 || w == 16)
    ensures (high * w + low) / w == high && (high * w + low) % w == low
  {
    if w == 2 {
      assert (high * 2 + low) / 2 == high;
    } else if w == 4 {
      assert (high * 4 + low) / 4 == high;
    } else if w == 8 {
      assert (high * 8 + low) / 8 == high;
    } else {
      assert (high * 16 + low) / 16 == high;
    }
  }

  /** The k-th number, or 0 behind the end. */
  function Pad(s: seq<int>, k: nat): int {
    if k < |s| then s[k] else 0
  }

  /** The first n bytes, and those behind them. */
  function Head(s: seq<byte>, n: nat): (h: seq<byte>)
    ensures |h| == if |s| < n then |s| else n
  {
    if |s| < n then s else s[..n]
  }

  function Tail(s: seq<byte>, n: nat): (t: seq<byte>)
    ensures |t| == if |s| < n then 0 else |s| - n
  {
    if |s| < n then [] else s[n..]
  }

  lemma Ends(s: seq<byte>)
    ensures Tail(s, 0) == s
  {
  }

  /** The next bytes of a whole are written behind what a buffer has of it already. */
  lemma WrittenBehind(out: array<byte>, oo: nat, whole: seq<byte>, was: seq<byte>, written: seq<byte>, rest: seq<byte>)
    requires |was| == oo && oo + |written| <= out.Length && whole == was + (written + rest)
    requires forall k | 0 <= k < oo :: out[k] == was[k]
    requires forall k | oo <= k < oo + |written| :: out[k] == written[k - oo]
    ensures whole == out[..oo + |written|] + rest
  {
    hide *;
    Appended(out, oo, was, written);
    Regroup(was, written, rest);
  }

  /** What is written behind the first oo bytes of a buffer. */
  lemma Appended(out: array<byte>, oo: nat, was: seq<byte>, written: seq<byte>)
    requires |was| == oo && oo + |written| <= out.Length
    requires forall k | 0 <= k < oo :: out[k] == was[k]
    requires forall k | oo <= k < oo + |written| :: out[k] == written[k - oo]
    ensures out[..oo + |written|] == was + written
  {
  }

  /** The first keys of an alphabet, and the index over them. */
  class KeyTable {
    const keys: array<byte>
    const index: array<byte>
    const defaults: seq<byte>

    constructor (defaults: seq<byte>)
      requires |defaults| <= 128 && Distinct(defaults) && forall i | 0 <= i < |defaults| :: defaults[i] < 128
      ensures this.defaults == defaults && Valid() && keys[..] == defaults && fresh(keys) && fresh(index)
      ensures Inverts(index[..], keys[..])
    {
      keys, index := new byte[|defaults|], new byte[256];
      this.defaults := defaults;
      new;
      var r := SetKeys(defaults);
    }

    ghost predicate Valid()
    {
      keys.Length == |defaults| <= 128 && index.Length == 256 && keys != index
    }

    /** SetKeys: an alphabet that is too short is replaced by the default one and reported, one with a key that occurs
        twice is reported. The index of a key is its last position. Keys beyond ASCII are negative characters, with
        which the original writes outside the index. */
    method SetKeys(alphabet: seq<byte>) returns (r: int)
      requires Valid() && forall i | 0 <= i < |alphabet| && i < |defaults| :: alphabet[i] < 128
      requires forall i | 0 <= i < |defaults| :: defaults[i] < 128
      modifies keys, index
      ensures keys[..] == if |alphabet| < |defaults| then defaults else alphabet[..|defaults|]
      ensures r == if |alphabet| >= |defaults| && Distinct(keys[..]) then 0 else -1
      ensures Distinct(keys[..]) ==> Inverts(index[..], keys[..])
      ensures IndexesLast(index[..], keys[..])
      ensures forall c: byte | c !in keys[..] :: index[c] == old(index[c])
    {
      r := 0;
      var source := alphabet;
      if |alphabet| < |defaults| {
        source := defaults;
        r := -1;
      }
      for i := 0 to |defaults|
        invariant keys[..i] == source[..i] && index[..] == old(index[..])
      {
        keys[i] := source[i];
      }
      assert forall c: byte :: index[..][c] == index[c];
      var twice := FillIndex();
      if twice {
        r := -1;
      }
    }

    /** The loop of SetKeys over the keys. */
    method FillIndex() returns (twice: bool)
      requires Valid() && forall i | 0 <= i < keys.Length :: keys[i] < 128
      modifies index
      ensures twice == !Distinct(keys[..])
      ensures Distinct(keys[..]) ==> Inverts(index[..], keys[..])
      ensures IndexesLast(index[..], keys[..])
      ensures forall c: byte | c !in keys[..] :: index[c] == old(index[c])
    {
      hide Distinct, Inverts, IndexesLast;
      twice := false;
      var count := new byte[256](_ => 0);
      ghost var chosen := keys[..];
      Nothing(index[..], chosen);
      for i := 0 to |defaults|
        invariant forall c: byte :: count[c] == 1 <==> c in chosen[..i]
        invariant twice == !Distinct(chosen[..i])
        invariant IndexesLast(index[..], chosen[..i])
        invariant forall c: byte | c !in chosen[..i] :: index[c] == old(index[c])
      {
        assert chosen[..i + 1] == chosen[..i] + [chosen[i]];
        DistinctAppend(chosen[..i], chosen[i]);
        IndexOneMore(index[..], chosen[..i], chosen[i]);
        if count[keys[i]] == 1 {
          twice := true;
        }
        index[keys[i]] := i;
        count[keys[i]] := 1;
      }
      assert chosen[..|defaults|] == chosen;
      if !twice {
        LastIsOnly(index[..], chosen);
      }
    }
  }

  lemma Nothing(index: seq<byte>, s: seq<byte>)
    requires |index| == 256
    ensures Distinct(s[..0]) && IndexesLast(index, s[..0])
  {
  }

  lemma DistinctAppend(s: seq<byte>, c: byte)
    ensures Distinct(s + [c]) <==> Distinct(s) && c !in s
  {
    var t := s + [c];
    assert t[|s|] == c && forall i | 0 <= i < |s| :: t[i] == s[i];
  }

  /** An index of the last positions of different keys inverts them. */
  lemma LastIsOnly(index: seq<byte>, keys: seq<byte>)
    requires Distinct(keys) && IndexesLast(index, keys)
    ensures Inverts(index, keys)
  {
  }
}
