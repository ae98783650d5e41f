/** The value tree of jsoncpp: what the writer prints and the reader builds.
    Bytes are characters; a document is any string, so the theorems cover every byte string. */
module JsonValue {
  import opened Order

  const MAX_INT32 := 0x7FFF_FFFF
  const MIN_INT64 := -0x8000_0000_0000_0000
  const MAX_INT64 := 0x7FFF_FFFF_FFFF_FFFF
  const MAX_UINT64 := 0xFFFF_FFFF_FFFF_FFFF

  /** LargestInt and LargestUInt. */
  type Int64 = i: int | MIN_INT64 <= i <= MAX_INT64
  type UInt64 = u: int | 0 <= u <= MAX_UINT64

  /** Int and UInt are the two integer payloads of the source. An object is the content of a
      std::map in iteration order, that is, members strictly sorted by name. */
  datatype Value =
    | Null
    | Bool(b: bool)
    | Int(i: Int64)
    | UInt(u: UInt64)
    | Str(s: string)
    | Arr(items: seq<Value>)
    | Obj(members: seq<Member>)
  {
    /** Every object in the tree has its members strictly sorted by name. */
    predicate Valid() {
      match this
      case Arr(items) => forall k | 0 <= k < |items| :: items[k].Valid()
      case Obj(members) => Sorted(members) && forall k | 0 <= k < |members| :: members[k].value.Valid()
      case _ => true
    }

    /** Number of nested readValue calls the value needs. */
    function Depth(): (d: nat)
      ensures d >= 1
    {
      match this
      case Arr(items) => 1 + ItemsDepth(items)
      case Obj(members) => 1 + MembersDepth(members)
      case _ => 1
    }

    /** Scalars and empty containers: the values printed by one pushValue call. */
    predicate IsLeaf() {
      !(Arr? && items != []) && !(Obj? && members != [])
    }
  }

  datatype Member = Member(name: string, value: Value)

  function ItemsDepth(items: seq<Value>): nat {
    if items == [] then 0
    else Max(items[0].Depth(), ItemsDepth(items[1..]))
  }

  function MembersDepth(members: seq<Member>): nat {
    if members == [] then 0
    else Max(members[0].value.Depth(), MembersDepth(members[1..]))
  }

  function Max(a: nat, b: nat): nat { if a < b then b else a }

  predicate Sorted(members: seq<Member>) {
    forall j, k | 0 <= j < k < |members| :: Less(members[j].name, members[k].name)
  }

  /** Assignment through operator[]: replace the member of that name or insert it in order. */
  function SetMember(members: seq<Member>, name: string, value: Value): seq<Member> {
    if members == [] || Less(name, members[0].name) then [Member(name, value)] + members
    else if members[0].name == name then [Member(name, value)] + members[1..]
    else [members[0]] + SetMember(members[1..], name, value)
  }

  lemma {:induction false} SetMemberAppends(members: seq<Member>, name: string, value: Value)
    requires forall k | 0 <= k < |members| :: Less(members[k].name, name)
    ensures SetMember(members, name, value) == members + [Member(name, value)]
  {
    if members != [] {
      LessIsTotal(members[0].name, name);
      SetMemberAppends(members[1..], name, value);
      assert members == [members[0]] + members[1..];
    }
  }

  /** std::map semantics of the sorted representation: after SetMember the names stay strictly
      sorted, the given name maps to the given value and every other member is as before. */
  lemma {:induction false} SetMemberIsMapUpdate(members: seq<Member>, name: string, value: Value)
    requires Sorted(members)
    ensures var after := SetMember(members, name, value);
            && Sorted(after) && Member(name, value) in after
            && (forall m | m in after :: m == Member(name, value) || (m in members && m.name != name))
            && (forall m | m in members && m.name != name :: m in after)
  {
    if members != [] {
      LessIsTotal(name, members[0].name);
      if Less(name, members[0].name) {
        forall k | 0 < k < |members| ensures Less(name, members[k].name) && name != members[k].name {
          LessIsTransitive(name, members[0].name, members[k].name);
          LessIsTotal(name, members[k].name);
        }
      } else if name == members[0].name {
        forall k | 0 < k < |members| ensures name != members[k].name {
          LessIsTotal(name, members[k].name);
        }
      } else {
        SetMemberIsMapUpdate(members[1..], name, value);
        assert forall m | m in members :: m == members[0] || m in members[1..];
      }
    }
  }

  /** The integer payload a reader chooses for a number. */
  function ReadInteger(n: int): Value
    requires MIN_INT64 <= n <= MAX_UINT64
  {
    if n <= MAX_INT32 then Int(n) else UInt(n)
  }

  /** A value as the reader would build it: every integer in the payload the reader chooses. */
  function Canonical(v: Value): Value {
    match v
    case Int(i) => ReadInteger(i)
    case UInt(u) => ReadInteger(u)
    case Arr(items) => Arr(seq(|items|, k requires 0 <= k < |items| => Canonical(items[k])))
    case Obj(members) =>
      Obj(seq(|members|, k requires 0 <= k < |members| => Member(members[k].name, Canonical(members[k].value))))
    case _ => v
  }

  /** Equality that compares integers by their number and not by their payload. */
  predicate Same(v: Value, w: Value) {
    match (v, w)
    case (Int(i), Int(j)) => i == j
    case (Int(i), UInt(j)) => i == j
    case (UInt(i), Int(j)) => i == j
    case (UInt(i), UInt(j)) => i == j
    case (Arr(a), Arr(b)) => |a| == |b| && forall k | 0 <= k < |a| :: Same(a[k], b[k])
    case (Obj(a), Obj(b)) =>
      |a| == |b| && forall k | 0 <= k < |a| :: a[k].name == b[k].name && Same(a[k].value, b[k].value)
    case _ => v == w
  }

  /** Canonical values are equal exactly when the values are the same up to integer payload. */
  lemma {:induction false} CanonicalDecidesSame(v: Value, w: Value)
    ensures Canonical(v) == Canonical(w) <==> Same(v, w)
  {
    match (v, w) {
      case (Arr(a), Arr(b)) =>
        if |a| == |b| {
          forall k | 0 <= k < |a| ensures Canonical(a[k]) == Canonical(b[k]) <==> Same(a[k], b[k]) {
            CanonicalDecidesSame(a[k], b[k]);
          }
          var ca, cb := Canonical(v).items, Canonical(w).items;
          assert forall k | 0 <= k < |a| :: ca[k] == Canonical(a[k]) && cb[k] == Canonical(b[k]);
          assert ca == cb <==> forall k | 0 <= k < |a| :: ca[k] == cb[k];
        } else {
          assert |Canonical(v).items| == |a| && |Canonical(w).items| == |b|;
        }
      case (Obj(a), Obj(b)) =>
        if |a| == |b| {
          forall k | 0 <= k < |a|
            ensures Canonical(a[k].value) == Canonical(b[k].value) <==> Same(a[k].value, b[k].value)
          {
            CanonicalDecidesSame(a[k].value, b[k].value);
          }
          var ca, cb := Canonical(v).members, Canonical(w).members;
          assert forall k | 0 <= k < |a| ::
            ca[k] == Member(a[k].name, Canonical(a[k].value)) && cb[k] == Member(b[k].name, Canonical(b[k].value));
          assert ca == cb <==> forall k | 0 <= k < |a| :: ca[k] == cb[k];
        } else {
          assert |Canonical(v).members| == |a| && |Canonical(w).members| == |b|;
        }
      case _ =>
    }
  }

  /** Reading back changes at most integer payloads. */
  lemma {:induction false} CanonicalIsSame(v: Value)
    ensures Same(Canonical(v), v)
  {
    match v {
      case Arr(items) =>
        forall k | 0 <= k < |items| ensures Same(Canonical(items[k]), items[k]) { CanonicalIsSame(items[k]); }
      case Obj(members) =>
        forall k | 0 <= k < |members| ensures Same(Canonical(members[k].value), members[k].value) {
          CanonicalIsSame(members[k].value);
        }
      case _ =>
    }
  }
}
