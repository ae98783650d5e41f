/** The order of strings: that of std::string and of jsoncpp's member names. */
module Order {

  /** The first differing character decides, then the length. */
  predicate Less(a: string, b: string) {
    b != [] && (a == [] || a[0] < b[0] || (a[0] == b[0] && Less(a[1..], b[1..])))
  }

  /** So a string is less than its continuations, and behind a common start the smaller character is. */
  lemma {:induction false} LessByCharacters(start: string, a: char, b: char, s: string, t: string)
    ensures Less(start, start + [a] + s)
    ensures a < b ==> Less(start + [a] + s, start + [b] + t)
  {
    if start != "" {
      LessByCharacters(start[1..], a, b, s, t);
      assert (start + [a] + s)[1..] == start[1..] + [a] + s;
      assert (start + [b] + t)[1..] == start[1..] + [b] + t;
    }
  }

  lemma {:induction false} LessIsTotal(a: string, b: string)
    ensures Less(a, b) || a == b || Less(b, a)
    ensures !(Less(a, b) && Less(b, a)) && !(a == b && Less(a, b))
  {
    if a != [] && b != [] && a[0] == b[0] {
      LessIsTotal(a[1..], b[1..]);
      assert a == [a[0]] + a[1..] && b == [b[0]] + b[1..];
    }
  }

  lemma {:induction false} LessIsTransitive(a: string, b: string, c: string)
    requires Less(a, b) && Less(b, c)
    ensures Less(a, c)
  {
    if a != [] && a[0] == b[0] && b[0] == c[0] {
      LessIsTransitive(a[1..], b[1..], c[1..]);
    }
  }

  /** The first of some keys in their order. */
  predicate IsLeast(keys: set<string>, key: string) {
    key in keys && forall k | k in keys && k != key :: Less(key, k)
  }

  lemma {:induction false} HasLeast(keys: set<string>)
    requires keys != {}
    ensures exists key :: IsLeast(keys, key)
    decreases |keys|
  {
    hide Less;
    var some :| some in keys;
    if keys == {some} {
      assert IsLeast(keys, some);
      return;
    }
    HasLeast(keys - {some});
    var other :| IsLeast(keys - {some}, other);
    LessIsTotal(some, other);
    if Less(other, some) {
      assert IsLeast(keys, other);
    } else {
      forall k | k in keys && k != some ensures Less(some, k) {
        if k != other {
          LessIsTransitive(some, other, k);
        }
      }
      assert IsLeast(keys, some);
    }
  }

  lemma LeastIsUnique(keys: set<string>, a: string, b: string)
    requires IsLeast(keys, a) && IsLeast(keys, b)
    ensures a == b
  {
    LessIsTotal(a, b);
  }

  ghost predicate IsAscending(s: seq<string>) {
    forall i, j | 0 <= i < j < |s| :: Less(s[i], s[j])
  }

  /** Keys in the order in which a std::map has them. */
  ghost function Ascending(keys: set<string>): (s: seq<string>)
    ensures IsAscending(s) && |s| == |keys| && forall k :: k in s <==> k in keys
    decreases |keys|
  {
    if keys == {} then []
    else
      var key := Least(keys);
      var rest := Ascending(keys - {key});
      assert forall i | 0 <= i < |rest| :: rest[i] in rest;
      [key] + rest
  }

  ghost function Least(keys: set<string>): (key: string)
    requires keys != {}
    ensures IsLeast(keys, key)
  {
    HasLeast(keys);
    var key :| IsLeast(keys, key);
    key
  }

  /** The first key comes first. */
  lemma AscendingFrom(keys: set<string>, key: string)
    requires IsLeast(keys, key)
    ensures Ascending(keys) == [key] + Ascending(keys - {key})
  {
    hide IsLeast;
    assert keys != {} by { LeastIsIn(keys, key); }
    LeastIsUnique(keys, key, Least(keys));
  }

  lemma LeastIsIn(keys: set<string>, key: string)
    requires IsLeast(keys, key)
    ensures key in keys
  {
  }
}
