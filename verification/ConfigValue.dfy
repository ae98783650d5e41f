/** The nested tables of the configuration, updated in place and archived table by table. */
module ConfigValue {
  import opened Order
  import opened Sequences
  import opened Wrappers
  import opened ConfigTree

  class ValueTable {
    var prop: map<string, string>
    var child: map<string, ValueTable>
    /** The tree below this table, and all tables in it. */
    ghost var view: Tree
    ghost var repr: set<ValueTable>

    constructor ()
      ensures Valid() && view == EMPTY && this in repr && fresh(repr)
    {
      prop, child, view, repr := map[], map[], EMPTY, {this};
    }

    /** Every table belongs to one parent only, and the view is put together from the tables' views. */
    ghost predicate Own()
      reads this, repr
    {
      && this in repr && view.prop == prop && view.child.Keys == child.Keys
      && (forall k | k in child ::
          child[k] in repr && child[k] in child[k].repr && child[k].repr <= repr && this !in child[k].repr)
      && (forall k | k in child :: view.child[k] == child[k].view)
      && (forall j, k | j in child && k in child && j != k :: child[j].repr !! child[k].repr)
    }

    ghost predicate Valid()
      reads this, repr
      decreases repr
    {
      Own() && forall k | k in child :: child[k].Valid()
    }

    lemma Open()
      requires Valid()
      ensures Own() && forall k | k in child :: child[k].Valid()
    {
    }

    lemma Close()
      requires Own() && forall k | k in child :: child[k].Valid()
      ensures Valid()
    {
    }

    /** What Own says of the tables other than one, whose trees are in t, and of that one. */
    ghost predicate OwnOthers(key: string, was: set<ValueTable>, t: Tree)
      reads this`prop, this`child, (set k | k in child && k != key :: child[k])
      reads set k, x | k in child && k != key && x in child[k].repr :: x
    {
      && this in was && t.prop == prop && t.child.Keys == child.Keys
      && (forall k | k in child && k != key ::
            child[k] in was && child[k] in child[k].repr && child[k].repr <= was && this !in child[k].repr
            && t.child[k] == child[k].view && child[k].Valid())
      && (forall j, k | j in child && k in child && j != k && j != key && k != key :: child[j].repr !! child[k].repr)
    }

    ghost predicate OwnOne(key: string)
      requires key in child
      reads this, repr
    {
      && child[key] in repr && child[key] in child[key].repr && child[key].repr <= repr && this !in child[key].repr
      && key in view.child && view.child[key] == child[key].view && child[key].Valid()
      && forall k | k in child && k != key :: child[k] in repr && child[k].repr !! child[key].repr
    }

    lemma OthersOf(key: string)
      requires Valid() && key in child
      ensures OwnOthers(key, repr, view)
    {
      hide ValueTable.Valid;
      Open();
    }

    lemma CloseOne(key: string, was: set<ValueTable>, t: Tree)
      requires OwnOthers(key, was, t) && was <= repr && key in child && OwnOne(key)
      requires t.prop == view.prop && view.child == t.child[key := child[key].view]
      ensures Valid()
    {
      hide ValueTable.Valid;
      Close();
    }

    /** Value::Get. */
    method Get(name: string) returns (value: Option<string>)
      requires Valid()
      ensures value == Lookup(view, name)
      decreases |name|
    {
      if Splits(name) {
        if Prefix(name) in child {
          value := child[Prefix(name)].Get(Rest(name));
        } else {
          value := None;
        }
      } else if name in prop {
        value := Some(prop[name]);
      } else {
        value := None;
      }
    }

    /** Value::Set. */
    method Set(name: string, value: string)
      requires Valid()
      modifies repr
      ensures Valid() && this in repr && fresh(repr - old(repr)) && view == Store(old(view), name, value)
      decreases |name|, 1
    {
      if Splits(name) {
        if Prefix(name) in child {
          SetIn(Prefix(name), Rest(name), value);
        } else {
          var table := new ValueTable();
          table.Set(Rest(name), value);
          Add(Prefix(name), table);
        }
      } else {
        prop := prop[name := value];
        view := view.(prop := prop);
      }
    }

    /** Set in the table of a name. */
    method SetIn(key: string, rest: string, value: string)
      requires Valid() && key in child
      modifies repr
      ensures Valid() && this in repr && fresh(repr - old(repr))
      ensures view == old(view).(child := old(view).child[key := Store(old(view).child[key], rest, value)])
      decreases |rest|, 2
    {
      hide Store, Splits, Prefix, ValueTable.Valid, ValueTable.OwnOthers;
      Open();
      OthersOf(key);
      var table := child[key];
      table.Set(rest, value);
      assert OwnOthers(key, old(repr), old(view));
      repr, view := repr + table.repr, view.(child := view.child[key := table.view]);
      assert OwnOthers(key, old(repr), old(view));
      assert OwnOne(key);
      CloseOne(key, old(repr), old(view));
    }

    /** A new table under a name. */
    method Add(key: string, table: ValueTable)
      requires Valid() && key !in child && table.Valid() && table in table.repr && table.repr !! repr
      modifies this
      ensures Valid() && this in repr && repr == old(repr) + table.repr
      ensures view == old(view).(child := old(view).child[key := table.view])
    {
      hide ValueTable.Valid;
      Open();
      child := child[key := table];
      repr := repr + table.repr;
      view := view.(child := view.child[key := table.view]);
      Close();
    }

    /** Value::Archive: the values of the table, then its nested tables, in the order of their names. The names the
        entries belong to are listed with them. */
    method Archive(path: string, ghost nested: bool) returns (out: seq<Entry>, ghost names: seq<string>)
      requires Valid() && Shaped(view, nested)
      ensures out == Listing(view, path)
      ensures Archived(view, path, view.child.Keys, names, out)
      ensures forall n | Lookup(view, n).Some? :: EntryOf(path, n, Lookup(view, n).value) in out
      decreases repr, 2
    {
      hide Archived, ValuesArchived, Shaped, Lookup, EntryOf, ListValues, ListTables;
      out, names := ArchiveValues(path, nested);
      ValuesThenTables(view, path, names, out, nested);
      out, names := ArchiveTables(path, nested, out, names);
      ArchiveHasAll(view, path, names, out);
    }

    /** The loop of Archive over the values. */
    method ArchiveValues(path: string, ghost nested: bool) returns (out: seq<Entry>, ghost names: seq<string>)
      requires Valid() && Shaped(view, nested)
      ensures out == ListValues(view, path, Ascending(view.prop.Keys))
      ensures ValuesArchived(view, path, view.prop.Keys, names, out)
    {
      hide ValuesArchived, ValuesSoFar, Shaped, ListValues, Ascending, IsLeast;
      out, names := [], [];
      var keys := prop.Keys;
      ValuesStart(view, path);
      while keys != {}
        invariant keys <= view.prop.Keys && ValuesSoFar(view, path, keys, names, out)
        decreases |keys|
      {
        var key := First(keys);
        ValuesStep(view, path, nested, keys, names, out, key);
        out, names, keys := out + [Entry(path, key, prop[key])], names + [key], keys - {key};
      }
      ValuesEnd(view, path, names, out);
    }

    /** The loop of Archive over the nested tables. */
    method ArchiveTables(path: string, ghost nested: bool, before: seq<Entry>, ghost namesBefore: seq<string>)
      returns (out: seq<Entry>, ghost names: seq<string>)
      requires Valid() && Shaped(view, nested) && Archived(view, path, {}, namesBefore, before)
      ensures out == before + ListTables(view, path, Ascending(view.child.Keys))
      ensures Archived(view, path, view.child.Keys, names, out)
      decreases repr, 1
    {
      hide Archived, TablesSoFar, Shaped, Join, ListTables, Listing, Ascending, IsLeast, ValueTable.Valid;
      Open();
      out, names := before, namesBefore;
      var keys := child.Keys;
      TablesStart(view, path, before, names);
      while keys != {}
        invariant keys <= view.child.Keys && TablesSoFar(view, path, before, keys, names, out)
        decreases |keys|
      {
        var key := First(keys);
        var entries;
        ghost var below;
        entries, below := ArchiveTable(path, nested, key);
        TablesStep(view, path, nested, before, keys, names, out, key, below);
        out, names, keys := out + entries, names + Prefixed(key, below), keys - {key};
      }
      TablesEnd(view, path, before, names, out);
    }

    /** The body of the loop over the nested tables. */
    method ArchiveTable(path: string, ghost nested: bool, key: string)
      returns (entries: seq<Entry>, ghost below: seq<string>)
      requires Valid() && Shaped(view, nested) && key in view.child
      ensures entries == Listing(view.child[key], Join(path, key))
      ensures Archived(view.child[key], Join(path, key), view.child[key].child.Keys, below, entries)
      decreases repr, 0
    {
      hide Archived, Shaped, Join, Lookup, EntryOf, Splits, Prefix, Listing, ValueTable.Valid;
      Open();
      TableShape(view, nested, key);
      entries, below := child[key].Archive(Join(path, key), true);
    }
  }

  /** The first key of a std::map. */
  method First(keys: set<string>) returns (key: string)
    requires keys != {}
    ensures key in keys && IsLeast(keys, key)
  {
    HasLeast(keys);
    key :| key in keys && IsLeast(keys, key);
  }

  /** hlp::Config, as far as its tree goes. */
  class Config {
    const root: ValueTable

    constructor ()
      ensures root.Valid() && root.view == EMPTY && Shaped(root.view, false) && fresh(root) && fresh(root.repr)
    {
      root := new ValueTable();
    }

    /** Config::Get: an absent name is an empty string. */
    method Get(name: string) returns (value: string)
      requires root.Valid()
      ensures value == match Lookup(root.view, name) { case Some(v) => v case None => "" }
    {
      var found := root.Get(name);
      value := match found { case Some(v) => v case None => "" };
    }

    method Set(name: string, value: string)
      requires root.Valid() && Shaped(root.view, false)
      modifies root.repr
      ensures root.Valid() && fresh(root.repr - old(root.repr)) && Shaped(root.view, false)
      ensures forall n :: Lookup(root.view, n) == if n == name then Some(value) else Lookup(old(root.view), n)
    {
      StoreKeepsShape(root.view, name, value, false);
      ghost var was := root.view;
      forall n ensures Lookup(Store(was, name, value), n) == if n == name then Some(value) else Lookup(was, n) {
        LookupAfterStore(was, name, value, n);
      }
      root.Set(name, value);
    }

    /** Config::Archive: one entry for every name, with its value, and with a path and a leaf that read back as the name
        exactly when the name does not start with a dot and lead into a nested table. */
    method Archive() returns (out: seq<Entry>, ghost names: seq<string>)
      requires root.Valid() && Shaped(root.view, false)
      ensures out == Listing(root.view, "")
      ensures |names| == |out| && Distinct(names) && forall n :: n in names <==> Lookup(root.view, n).Some?
      ensures forall n | Lookup(root.view, n).Some? :: EntryOf("", n, Lookup(root.view, n).value) in out
      ensures forall i | 0 <= i < |out| :: Lookup(root.view, names[i]) == Some(out[i].value)
      ensures forall i | 0 <= i < |out| :: Rejoined(out[i]) == names[i] <==> !(|names[i]| > 2 && names[i][0] == '.')
    {
      out, names := root.Archive("", false);
      ArchiveIsComplete(root.view, names, out);
    }
  }
}
