/** The configuration tree as a value: names with dots lead through nested tables, and yet the tree is a flat map
    from full names to values. */
module ConfigTree {
  import opened Order
  import opened Sequences
  import opened Wrappers

  datatype Tree = Tree(prop: map<string, string>, child: map<string, Tree>)

  const EMPTY := Tree(map[], map[])

  /** The position of the first dot, or the length of a name without one. */
  function FirstDot(name: string): (k: nat)
    ensures k <= |name| && (k < |name| ==> name[k] == '.') && forall j | 0 <= j < k :: name[j] != '.'
  {
    if name == "" || name[0] == '.' then 0 else 1 + FirstDot(name[1..])
  }

  /** A name leads into a nested table when at least two characters follow its first dot. */
  predicate Splits(name: string) {
    FirstDot(name) + 2 < |name|
  }

  function Prefix(name: string): string {
    name[..FirstDot(name)]
  }

  function Rest(name: string): (rest: string)
    requires Splits(name)
    ensures 2 <= |rest| < |name|
  {
    name[FirstDot(name) + 1..]
  }

  function Lookup(t: Tree, name: string): Option<string>
    decreases |name|
  {
    if Splits(name) then
      if Prefix(name) in t.child then Lookup(t.child[Prefix(name)], Rest(name)) else None
    else if name in t.prop then Some(t.prop[name])
    else None
  }

  function Store(t: Tree, name: string, value: string): Tree
    decreases |name|
  {
    if Splits(name) then
      var below := if Prefix(name) in t.child then t.child[Prefix(name)] else EMPTY;
      t.(child := t.child[Prefix(name) := Store(below, Rest(name), value)])
    else t.(prop := t.prop[name := value])
  }

  lemma SplitIsUnique(a: string, b: string)
    requires Splits(a) && Splits(b) && Prefix(a) == Prefix(b) && Rest(a) == Rest(b)
    ensures a == b
  {
    assert a == Prefix(a) + "." + Rest(a) && b == Prefix(b) + "." + Rest(b);
  }

  lemma NothingInEmpty(name: string)
    ensures Lookup(EMPTY, name) == None
  {
  }

  /** Storing a value changes what one name finds and nothing else. */
  lemma {:induction false} LookupAfterStore(t: Tree, name: string, value: string, other: string)
    ensures Lookup(Store(t, name, value), other) == if other == name then Some(value) else Lookup(t, other)
    decreases |name|
  {
    if Splits(name) && Splits(other) && Prefix(name) == Prefix(other) {
      var below := if Prefix(name) in t.child then t.child[Prefix(name)] else EMPTY;
      LookupAfterStore(below, Rest(name), value, Rest(other));
      NothingInEmpty(Rest(other));
      if Rest(name) == Rest(other) {
        SplitIsUnique(name, other);
      }
    }
  }

  /** The tree and the flat map after a series of stores. */
  function StoreAll(t: Tree, sets: seq<(string, string)>): Tree {
    if sets == [] then t
    else
      var last := sets[|sets| - 1];
      Store(StoreAll(t, sets[..|sets| - 1]), last.0, last.1)
  }

  function FlatAll(sets: seq<(string, string)>): map<string, string> {
    if sets == [] then map[]
    else
      var last := sets[|sets| - 1];
      FlatAll(sets[..|sets| - 1])[last.0 := last.1]
  }

  /** The tree refines the flat map: every name finds the value last set for exactly that name. */
  lemma {:induction false} TreeIsFlat(sets: seq<(string, string)>, name: string)
    ensures Lookup(StoreAll(EMPTY, sets), name) == if name in FlatAll(sets) then Some(FlatAll(sets)[name]) else None
  {
    if sets == [] {
      NothingInEmpty(name);
    } else {
      var last := sets[|sets| - 1];
      TreeIsFlat(sets[..|sets| - 1], name);
      LookupAfterStore(StoreAll(EMPTY, sets[..|sets| - 1]), last.0, last.1, name);
      hide Lookup, Store;
    }
  }

  /** The shape of a tree made by stores: names of values do not split, names of tables have no dot, and names of
      values in nested tables have two characters at least. */
  ghost predicate Shaped(t: Tree, nested: bool) {
    && (forall k | k in t.prop :: !Splits(k) && (nested ==> |k| >= 2))
    && (forall k | k in t.child :: FirstDot(k) == |k| && Shaped(t.child[k], true))
  }

  lemma TableShape(t: Tree, nested: bool, key: string)
    requires Shaped(t, nested) && key in t.child
    ensures FirstDot(key) == |key| && Shaped(t.child[key], true)
  {
  }

  lemma ValueShape(t: Tree, nested: bool, key: string)
    requires Shaped(t, nested) && key in t.prop
    ensures !Splits(key)
  {
  }

  lemma {:induction false} StoreKeepsShape(t: Tree, name: string, value: string, nested: bool)
    requires Shaped(t, nested) && (nested ==> |name| >= 2)
    ensures Shaped(Store(t, name, value), nested)
    decreases |name|
  {
    if Splits(name) {
      var below := if Prefix(name) in t.child then t.child[Prefix(name)] else EMPTY;
      StoreKeepsShape(below, Rest(name), value, true);
      FirstDotOfPrefix(name);
    }
  }

  lemma FirstDotOfPrefix(name: string)
    ensures FirstDot(Prefix(name)) == |Prefix(name)|
  {
    var p := Prefix(name);
    assert forall j | 0 <= j < |p| :: p[j] == name[j];
  }

  // Archiving

  /** What is archived of a binding: the path of its table, its name there, and its value. */
  datatype Entry = Entry(path: string, leaf: string, value: string)

  function Join(path: string, name: string): string {
    if path == "" then name else path + "." + name
  }

  /** The entry of a name in a tree archived under a path. */
  function EntryOf(path: string, name: string, value: string): Entry
    decreases |name|
  {
    if Splits(name) then EntryOf(Join(path, Prefix(name)), Rest(name), value) else Entry(path, name, value)
  }

  /** The archive of a tree: its own values, and then its nested tables, both in the order of their names. */
  ghost function Listing(t: Tree, path: string): seq<Entry>
    decreases t, 1
  {
    ListValues(t, path, Ascending(t.prop.Keys)) + ListTables(t, path, Ascending(t.child.Keys))
  }

  ghost function ListValues(t: Tree, path: string, keys: seq<string>): seq<Entry>
    requires forall k | k in keys :: k in t.prop
  {
    if keys == [] then [] else [Entry(path, keys[0], t.prop[keys[0]])] + ListValues(t, path, keys[1..])
  }

  ghost function ListTables(t: Tree, path: string, keys: seq<string>): seq<Entry>
    requires forall k | k in keys :: k in t.child
    decreases t, 0, |keys|
  {
    if keys == [] then []
    else Listing(t.child[keys[0]], Join(path, keys[0])) + ListTables(t, path, keys[1..])
  }

  lemma {:induction false} ListedInOrder(t: Tree, path: string, keys: seq<string>)
    requires forall k | k in keys :: k in t.prop
    ensures |ListValues(t, path, keys)| == |keys|
    ensures forall i | 0 <= i < |keys| :: ListValues(t, path, keys)[i] == Entry(path, keys[i], t.prop[keys[i]])
  {
    if keys != [] {
      ListedInOrder(t, path, keys[1..]);
    }
  }

  /** A table's own values come first, by their names. */
  lemma ValuesComeFirst(t: Tree, path: string)
    ensures var keys := Ascending(t.prop.Keys);
      |keys| <= |Listing(t, path)| &&
      forall i | 0 <= i < |keys| :: Listing(t, path)[i] == Entry(path, keys[i], t.prop[keys[i]])
  {
    ListedInOrder(t, path, Ascending(t.prop.Keys));
  }

  lemma ListedValue(t: Tree, path: string, keys: set<string>, key: string)
    requires keys <= t.prop.Keys && IsLeast(keys, key)
    ensures key in keys
    ensures ListValues(t, path, Ascending(keys)) ==
      [Entry(path, key, t.prop[key])] + ListValues(t, path, Ascending(keys - {key}))
  {
    hide Ascending;
    AscendingFrom(keys, key);
    assert ([key] + Ascending(keys - {key}))[1..] == Ascending(keys - {key});
  }

  lemma ListedTable(t: Tree, path: string, keys: set<string>, key: string)
    requires keys <= t.child.Keys && IsLeast(keys, key)
    ensures key in keys
    ensures ListTables(t, path, Ascending(keys)) ==
      Listing(t.child[key], Join(path, key)) + ListTables(t, path, Ascending(keys - {key}))
  {
    hide Ascending, Listing, Join;
    AscendingFrom(keys, key);
    assert ([key] + Ascending(keys - {key}))[1..] == Ascending(keys - {key});
  }

  lemma NothingListed(t: Tree, path: string)
    ensures ListValues(t, path, Ascending({})) == [] && ListTables(t, path, Ascending({})) == []
  {
  }

  /** The name that an entry is read back as. */
  function Rejoined(e: Entry): string {
    Join(e.path, e.leaf)
  }

  lemma {:induction false} RejoinedBelow(path: string, name: string, value: string)
    requires path != ""
    ensures Rejoined(EntryOf(path, name, value)) == path + "." + name
    decreases |name|
  {
    if Splits(name) {
      RejoinedBelow(Join(path, Prefix(name)), Rest(name), value);
      assert name == Prefix(name) + "." + Rest(name);
      assert path + "." + Prefix(name) + "." + Rest(name) == path + "." + (Prefix(name) + "." + Rest(name));
    }
  }

  lemma {:induction false} RejoinedIsShorter(name: string, value: string)
    ensures |Rejoined(EntryOf("", name, value))| <= |name|
    decreases |name|
  {
    if Splits(name) {
      assert name == Prefix(name) + "." + Rest(name);
      if Prefix(name) == "" {
        RejoinedIsShorter(Rest(name), value);
      } else {
        RejoinedBelow(Prefix(name), Rest(name), value);
      }
    }
  }

  /** An archived entry is read back as the name it was stored under, unless that name starts with a dot and leads
      into a nested table: then the dot is lost. */
  lemma RejoinedIsName(name: string, value: string)
    ensures Rejoined(EntryOf("", name, value)) == name <==> !(|name| > 2 && name[0] == '.')
  {
    if Splits(name) {
      assert name == Prefix(name) + "." + Rest(name);
      if Prefix(name) == "" {
        RejoinedIsShorter(Rest(name), value);
      } else {
        RejoinedBelow(Prefix(name), Rest(name), value);
        assert Join("", Prefix(name)) == Prefix(name);
      }
    }
  }

  /** The names a tree finds, except those that lead into a table not yet done. */
  ghost predicate Named(t: Tree, done: set<string>, names: seq<string>) {
    forall n :: n in names <==> Lookup(t, n).Some? && (Splits(n) ==> Prefix(n) in done)
  }

  /** Every name with its entry. */
  ghost predicate Matching(t: Tree, path: string, names: seq<string>, out: seq<Entry>) {
    |names| == |out| && forall i | 0 <= i < |out| ::
      Lookup(t, names[i]).Some? && out[i] == EntryOf(path, names[i], Lookup(t, names[i]).value)
  }

  /** The entries of the values of a tree and of its tables among done, with the names they belong to: one entry for
      each. */
  ghost predicate Archived(t: Tree, path: string, done: set<string>, names: seq<string>, out: seq<Entry>) {
    Distinct(names) && Named(t, done, names) && Matching(t, path, names, out)
  }

  function Prefixed(key: string, names: seq<string>): (p: seq<string>)
    ensures |p| == |names| && forall i | 0 <= i < |p| :: p[i] == key + "." + names[i]
  {
    seq(|names|, i requires 0 <= i < |names| => key + "." + names[i])
  }

  lemma SplitOfJoined(key: string, name: string)
    requires FirstDot(key) == |key| && |name| >= 2
    ensures Splits(key + "." + name) && Prefix(key + "." + name) == key && Rest(key + "." + name) == name
  {
    var n := key + "." + name;
    assert forall j | 0 <= j < |key| :: n[j] == key[j];
    assert n[|key|] == '.' && FirstDot(n) == |key|;
  }

  /** The names that a nested table finds have two characters at least. */
  lemma NestedName(t: Tree, name: string)
    requires Shaped(t, true) && Lookup(t, name).Some?
    ensures |name| >= 2
  {
  }

  /** A name of a nested table, seen from the table above. */
  lemma NameBelow(t: Tree, path: string, key: string, name: string)
    requires key in t.child && FirstDot(key) == |key| && Shaped(t.child[key], true)
    requires Lookup(t.child[key], name).Some?
    ensures var n := key + "." + name;
      && Splits(n) && Prefix(n) == key && Rest(n) == name && Lookup(t, n) == Lookup(t.child[key], name)
      && EntryOf(path, n, Lookup(t, n).value) == EntryOf(Join(path, key), name, Lookup(t, n).value)
  {
    NestedName(t.child[key], name);
    SplitOfJoined(key, name);
  }

  /** Archiving one more table. */
  lemma ArchivedTable(t: Tree, path: string, done: set<string>, names: seq<string>, out: seq<Entry>,
                      key: string, below: seq<string>, entries: seq<Entry>)
    requires Archived(t, path, done, names, out) && key in t.child && key !in done
    requires FirstDot(key) == |key| && Shaped(t.child[key], true)
    requires Archived(t.child[key], Join(path, key), t.child[key].child.Keys, below, entries)
    ensures Archived(t, path, done + {key}, names + Prefixed(key, below), out + entries)
  {
    hide Lookup, EntryOf, Splits, Prefix, Rest, Shaped, Join, Distinct, Named;
    NamesBelow(t, path, key, below, entries);
    MatchingMore(t, path, names, out, Prefixed(key, below), entries);
    OnceMore(t, done, names, key, Prefixed(key, below), below);
    NamedMore(t, done, names, key, below);
  }

  lemma NamesBelow(t: Tree, path: string, key: string, below: seq<string>, entries: seq<Entry>)
    requires key in t.child && FirstDot(key) == |key| && Shaped(t.child[key], true)
    requires Matching(t.child[key], Join(path, key), below, entries)
    ensures var more := Prefixed(key, below);
      && Matching(t, path, more, entries)
      && forall i | 0 <= i < |more| ::
        Lookup(t, more[i]).Some? && Splits(more[i]) && Prefix(more[i]) == key && Rest(more[i]) == below[i]
  {
    hide Lookup, EntryOf, Splits, Prefix, Rest, Shaped, Join;
    forall i | 0 <= i < |below|
      ensures var n := Prefixed(key, below)[i];
        && Splits(n) && Prefix(n) == key && Rest(n) == below[i]
        && Lookup(t, n).Some? && entries[i] == EntryOf(path, n, Lookup(t, n).value)
    {
      NameBelow(t, path, key, below[i]);
    }
  }

  lemma MatchingMore(t: Tree, path: string, names: seq<string>, out: seq<Entry>,
                     more: seq<string>, entries: seq<Entry>)
    requires Matching(t, path, names, out) && Matching(t, path, more, entries)
    ensures Matching(t, path, names + more, out + entries)
  {
    hide Lookup, EntryOf;
  }

  lemma NamedMore(t: Tree, done: set<string>, names: seq<string>, key: string, below: seq<string>)
    requires key in t.child && Named(t, done, names) && Named(t.child[key], t.child[key].child.Keys, below)
    requires var more := Prefixed(key, below);
      forall i | 0 <= i < |more| :: Lookup(t, more[i]).Some? && Splits(more[i]) && Prefix(more[i]) == key
    ensures Named(t, done + {key}, names + Prefixed(key, below))
  {
    hide Lookup, Splits, Prefix;
    forall n
      ensures n in names + Prefixed(key, below) <==> Lookup(t, n).Some? && (Splits(n) ==> Prefix(n) in done + {key})
    {
      if Lookup(t, n).Some? && Splits(n) && Prefix(n) == key {
        RestIsBelow(t, key, below, n);
      }
    }
  }

  lemma OnceMore(t: Tree, done: set<string>, names: seq<string>, key: string, more: seq<string>, below: seq<string>)
    requires Distinct(names) && Distinct(below) && |more| == |below| && key !in done && Named(t, done, names)
    requires forall i | 0 <= i < |more| :: Splits(more[i]) && Prefix(more[i]) == key && Rest(more[i]) == below[i]
    ensures Distinct(names + more)
  {
    hide Lookup, Splits, Prefix, Rest;
    var all := names + more;
    forall i, j | 0 <= i < j < |all| ensures all[i] != all[j] {
      if i < |names| <= j {
        assert names[i] in names && Prefix(more[j - |names|]) == key;
      } else if i >= |names| {
        assert below[i - |names|] != below[j - |names|];
      }
    }
  }

  lemma RestIsBelow(t: Tree, key: string, below: seq<string>, n: string)
    requires key in t.child && Lookup(t, n).Some? && Splits(n) && Prefix(n) == key
    requires Named(t.child[key], t.child[key].child.Keys, below)
    ensures n in Prefixed(key, below)
  {
    assert Rest(n) in below;
    var i :| 0 <= i < |below| && below[i] == Rest(n);
    assert n == key + "." + Rest(n) == Prefixed(key, below)[i];
  }

  /** Archiving one more value, before the tables. */
  lemma ArchivedValue(t: Tree, path: string, done: set<string>, names: seq<string>, out: seq<Entry>, key: string)
    requires ValuesArchived(t, path, done, names, out) && key in t.prop && key !in done && !Splits(key)
    ensures ValuesArchived(t, path, done + {key}, names + [key], out + [Entry(path, key, t.prop[key])])
  {
  }

  ghost predicate ValuesArchived(t: Tree, path: string, done: set<string>, names: seq<string>, out: seq<Entry>) {
    && |names| == |out| && Distinct(names) && (forall n :: n in names <==> n in done)
    && (forall i | 0 <= i < |out| ::
          Lookup(t, names[i]).Some? && out[i] == EntryOf(path, names[i], Lookup(t, names[i]).value))
  }

  lemma ValuesThenTables(t: Tree, path: string, names: seq<string>, out: seq<Entry>, nested: bool)
    requires ValuesArchived(t, path, t.prop.Keys, names, out) && Shaped(t, nested)
    ensures Archived(t, path, {}, names, out)
  {
  }

  /** The loops of the archive, with the keys that are still to come. */
  ghost predicate ValuesSoFar(t: Tree, path: string, keys: set<string>, names: seq<string>, out: seq<Entry>) {
    && keys <= t.prop.Keys && ValuesArchived(t, path, t.prop.Keys - keys, names, out)
    && ListValues(t, path, Ascending(t.prop.Keys)) == out + ListValues(t, path, Ascending(keys))
  }

  ghost predicate TablesSoFar(t: Tree, path: string, before: seq<Entry>, keys: set<string>,
    names: seq<string>, out: seq<Entry>)
  {
    && keys <= t.child.Keys && Archived(t, path, t.child.Keys - keys, names, out)
    && before + ListTables(t, path, Ascending(t.child.Keys)) == out + ListTables(t, path, Ascending(keys))
  }

  lemma ValuesStart(t: Tree, path: string)
    ensures ValuesSoFar(t, path, t.prop.Keys, [], [])
  {
    hide ListValues, Ascending, Lookup, EntryOf;
    assert t.prop.Keys - t.prop.Keys == {};
    assert [] + ListValues(t, path, Ascending(t.prop.Keys)) == ListValues(t, path, Ascending(t.prop.Keys));
  }

  lemma ValuesStep(t: Tree, path: string, nested: bool, keys: set<string>, names: seq<string>,
    out: seq<Entry>, key: string)
    requires ValuesSoFar(t, path, keys, names, out) && Shaped(t, nested) && IsLeast(keys, key)
    ensures key in t.prop && ValuesSoFar(t, path, keys - {key}, names + [key], out + [Entry(path, key, t.prop[key])])
  {
    hide ValuesArchived, ListValues, Ascending, Shaped, IsLeast, Splits;
    ListedValue(t, path, keys, key);
    ValueShape(t, nested, key);
    ArchivedValue(t, path, t.prop.Keys - keys, names, out, key);
    assert t.prop.Keys - keys + {key} == t.prop.Keys - (keys - {key});
    Regroup(out, [Entry(path, key, t.prop[key])], ListValues(t, path, Ascending(keys - {key})));
  }

  lemma ValuesEnd(t: Tree, path: string, names: seq<string>, out: seq<Entry>)
    requires ValuesSoFar(t, path, {}, names, out)
    ensures ValuesArchived(t, path, t.prop.Keys, names, out) && out == ListValues(t, path, Ascending(t.prop.Keys))
  {
    hide ValuesArchived, ListValues, Ascending;
    NothingListed(t, path);
    assert t.prop.Keys - {} == t.prop.Keys;
    Regroup(out, [], []);
  }

  lemma TablesStart(t: Tree, path: string, before: seq<Entry>, names: seq<string>)
    requires Archived(t, path, {}, names, before)
    ensures TablesSoFar(t, path, before, t.child.Keys, names, before)
  {
    hide Archived, ListTables, Ascending;
    assert t.child.Keys - t.child.Keys == {};
  }

  lemma TablesStep(t: Tree, path: string, nested: bool, before: seq<Entry>, keys: set<string>, names: seq<string>,
                   out: seq<Entry>, key: string, below: seq<string>)
    requires TablesSoFar(t, path, before, keys, names, out) && Shaped(t, nested) && IsLeast(keys, key) && key in t.child
    requires Archived(t.child[key], Join(path, key), t.child[key].child.Keys, below,
      Listing(t.child[key], Join(path, key)))
    ensures TablesSoFar(t, path, before, keys - {key}, names + Prefixed(key, below),
                        out + Listing(t.child[key], Join(path, key)))
  {
    hide Archived, ListTables, Listing, Ascending, Shaped, IsLeast, Join;
    ListedTable(t, path, keys, key);
    TableShape(t, nested, key);
    ArchivedTable(t, path, t.child.Keys - keys, names, out, key, below, Listing(t.child[key], Join(path, key)));
    assert t.child.Keys - keys + {key} == t.child.Keys - (keys - {key});
    Regroup(out, Listing(t.child[key], Join(path, key)), ListTables(t, path, Ascending(keys - {key})));
  }

  lemma TablesEnd(t: Tree, path: string, before: seq<Entry>, names: seq<string>, out: seq<Entry>)
    requires TablesSoFar(t, path, before, {}, names, out)
    ensures Archived(t, path, t.child.Keys, names, out) && out == before + ListTables(t, path, Ascending(t.child.Keys))
  {
    hide Archived, ListTables, Ascending;
    NothingListed(t, path);
    assert t.child.Keys - {} == t.child.Keys;
    Regroup(out, [], []);
  }

  /** An archive of a whole tree has one entry for every name, with the value the name finds; and reading the entry back
      gives the name unless its leading dot is lost. */
  lemma ArchiveIsComplete(t: Tree, names: seq<string>, out: seq<Entry>)
    requires Archived(t, "", t.child.Keys, names, out)
    ensures |names| == |out| && Distinct(names) && forall n :: n in names <==> Lookup(t, n).Some?
    ensures forall i | 0 <= i < |out| :: Lookup(t, names[i]) == Some(out[i].value)
    ensures forall i | 0 <= i < |out| :: Rejoined(out[i]) == names[i] <==> !(|names[i]| > 2 && names[i][0] == '.')
  {
    forall i | 0 <= i < |out|
      ensures Lookup(t, names[i]) == Some(out[i].value)
      ensures Rejoined(out[i]) == names[i] <==> !(|names[i]| > 2 && names[i][0] == '.')
    {
      RejoinedIsName(names[i], Lookup(t, names[i]).value);
      ValueOfEntry("", names[i], Lookup(t, names[i]).value);
    }
  }

  /** Every binding of the tree has its entry in the archive. */
  lemma ArchiveHasAll(t: Tree, path: string, names: seq<string>, out: seq<Entry>)
    requires Archived(t, path, t.child.Keys, names, out)
    ensures forall n | Lookup(t, n).Some? :: EntryOf(path, n, Lookup(t, n).value) in out
  {
    forall n | Lookup(t, n).Some? ensures EntryOf(path, n, Lookup(t, n).value) in out {
      assert n in names;
      var i :| 0 <= i < |names| && names[i] == n;
      assert out[i] == EntryOf(path, n, Lookup(t, n).value);
    }
  }

  lemma {:induction false} ValueOfEntry(path: string, name: string, value: string)
    ensures EntryOf(path, name, value).value == value
    decreases |name|
  {
    if Splits(name) {
      ValueOfEntry(Join(path, Prefix(name)), Rest(name), value);
    }
  }

  /** Parts of a name, with dots between them. */
  function Dotted(parts: seq<string>): string
    requires parts != []
  {
    if |parts| == 1 then parts[0] else parts[0] + "." + Dotted(parts[1..])
  }

  lemma NoDot(name: string)
    requires '.' !in name
    ensures FirstDot(name) == |name| && !Splits(name)
  {
  }

  ghost predicate AreParts(parts: seq<string>) {
    parts != [] && forall i | 0 <= i < |parts| :: parts[i] != "" && '.' !in parts[i]
  }

  lemma EntryStep(path: string, key: string, rest: string, value: string)
    requires '.' !in key && |rest| >= 2
    ensures EntryOf(path, key + "." + rest, value) == EntryOf(Join(path, key), rest, value)
  {
    hide Splits, Prefix, Rest;
    NoDot(key);
    SplitOfJoined(key, rest);
  }

  lemma LastPart(path: string, leaf: string, value: string)
    requires '.' !in leaf
    ensures EntryOf(path, leaf, value) == Entry(path, leaf, value)
  {
    NoDot(leaf);
  }

  lemma {:induction false} EntryBelow(path: string, parts: seq<string>, leaf: string, value: string)
    requires AreParts(parts) && '.' !in leaf && |leaf| >= 2
    ensures EntryOf(path, Dotted(parts) + "." + leaf, value) == Entry(Join(path, Dotted(parts)), leaf, value)
    decreases |parts|
  {
    hide EntryOf;
    var key := parts[0];
    if |parts| == 1 {
      EntryStep(path, key, leaf, value);
      LastPart(Join(path, key), leaf, value);
    } else {
      var more := Dotted(parts[1..]);
      Regroup(key + ".", more, "." + leaf);
      Regroup(more, ".", leaf);
      Regroup(key + "." + more, ".", leaf);
      EntryStep(path, key, more + "." + leaf, value);
      EntryBelow(Join(path, key), parts[1..], leaf, value);
      Regroup(path + ".", key + ".", more);
      Regroup(path + ".", key, ".");
    }
  }

  /** A name of parts without dots is archived under the path of all its parts but the last, if that has two characters
      at least. */
  lemma EntryOfDotted(parts: seq<string>, leaf: string, value: string)
    requires AreParts(parts) && '.' !in leaf && |leaf| >= 2
    ensures EntryOf("", Dotted(parts) + "." + leaf, value) == Entry(Dotted(parts), leaf, value)
  {
    EntryBelow("", parts, leaf, value);
    hide EntryOf, Dotted;
  }

  /** The name .ab is read back as ab. */
  lemma LeadingDotIsLost(value: string)
    ensures Rejoined(EntryOf("", ".ab", value)) == "ab"
  {
    assert FirstDot(".ab") == 0 && Rest(".ab") == "ab";
    assert !Splits("ab");
    assert Join("", "") == "";
  }
}
