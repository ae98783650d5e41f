/** Parents as a map: when every line of ancestors ends, and what moving one node under another does to that. */
module XmlAncestry {
  import opened Wrappers

  /** The k-th ancestor of n. */
  function Above<T(==)>(parents: map<T, T>, n: T, k: nat): Option<T> {
    if k == 0 then Some(n) else if n !in parents then None else Above(parents, parents[n], k - 1)
  }

  /** x is n or one of its ancestors. */
  ghost predicate AtOrAbove<T>(parents: map<T, T>, x: T, n: T) {
    exists k: nat :: Above(parents, n, k) == Some(x)
  }

  ghost predicate Ends<T>(parents: map<T, T>, n: T) {
    exists k: nat :: Above(parents, n, k) == None
  }

  /** Every line of ancestors ends at a root, so there is no cycle. */
  ghost predicate Rooted<T>(parents: map<T, T>) {
    forall n | n in parents :: Ends(parents, n)
  }

  lemma {:induction false} AboveJoins<T>(parents: map<T, T>, n: T, i: nat, m: T, k: nat)
    requires Above(parents, n, i) == Some(m)
    ensures Above(parents, n, i + k) == Above(parents, m, k)
  {
    if i > 0 {
      AboveJoins(parents, parents[n], i - 1, m, k);
    }
  }

  lemma {:induction false} NoneStays<T>(parents: map<T, T>, n: T, k: nat, m: nat)
    requires Above(parents, n, k) == None && k <= m
    ensures Above(parents, n, m) == None
  {
    if n in parents {
      NoneStays(parents, parents[n], k - 1, m - 1);
    }
  }

  /** Up to x a line of ancestors does not depend on the parent of x. */
  lemma {:induction false} SameBelow<T>(parents: map<T, T>, x: T, a: T, n: T, k: nat)
    requires forall j: nat | j < k :: Above(parents, n, j) != Some(x)
    ensures Above(parents[x := a], n, k) == Above(parents, n, k)
  {
    if k > 0 {
      assert Above(parents, n, 0) == Some(n);
      if n in parents {
        forall j: nat | j < k - 1 ensures Above(parents, parents[n], j) != Some(x) {
          assert Above(parents, n, j + 1) == Above(parents, parents[n], j);
        }
        SameBelow(parents, x, a, parents[n], k - 1);
      }
    }
  }

  /** The first place of x in a line of ancestors. */
  lemma {:induction false} FirstPlace<T>(parents: map<T, T>, n: T, x: T, k: nat) returns (first: nat)
    requires Above(parents, n, k) == Some(x)
    ensures Above(parents, n, first) == Some(x)
    ensures forall j: nat | j < first :: Above(parents, n, j) != Some(x)
  {
    if j: nat :| j < k && Above(parents, n, j) == Some(x) {
      first := FirstPlace(parents, n, x, j);
    } else {
      first := k;
    }
  }

  lemma {:induction false} CycleGoesOn<T>(parents: map<T, T>, x: T, c: nat, m: nat)
    requires c > 0 && Above(parents, x, c) == Some(x)
    ensures Above(parents, x, m) != None
  {
    if m < c {
      if Above(parents, x, m) == None {
        NoneStays(parents, x, m, c);
      }
    } else {
      CycleGoesOn(parents, x, c, m - c);
      AboveJoins(parents, x, c, x, m - c);
    }
  }

  lemma MoveEnds<T>(parents: map<T, T>, x: T, a: T, n: T)
    requires Rooted(parents) && !AtOrAbove(parents, x, a)
    ensures Ends(parents[x := a], n)
  {
    var moved := parents[x := a];
    var k := EndOf(parents, a);
    SameBelow(parents, x, a, a, k);
    assert Above(moved, x, k + 1) == None;
    if j: nat :| Above(parents, n, j) == Some(x) {
      var first := FirstPlace(parents, n, x, j);
      SameBelow(parents, x, a, n, first);
      AboveJoins(moved, n, first, x, k + 1);
    } else {
      var end := EndOf(parents, n);
      SameBelow(parents, x, a, n, end);
    }
  }

  lemma EndOf<T>(parents: map<T, T>, n: T) returns (k: nat)
    requires Rooted(parents)
    ensures Above(parents, n, k) == None
  {
    if n in parents {
      assert Ends(parents, n);
      k :| Above(parents, n, k) == None;
    } else {
      k := 1;
    }
  }

  /** After x is moved under a, every line still ends exactly when x is neither a nor one of its ancestors. */
  lemma {:induction false} RootedAfterMove<T>(parents: map<T, T>, x: T, a: T)
    requires Rooted(parents)
    ensures Rooted(parents[x := a]) <==> !AtOrAbove(parents, x, a)
  {
    var moved := parents[x := a];
    if k: nat :| Above(parents, a, k) == Some(x) {
      var first := FirstPlace(parents, a, x, k);
      SameBelow(parents, x, a, a, first);
      assert Above(moved, x, first + 1) == Some(x);
      forall m: nat ensures Above(moved, x, m) != None {
        CycleGoesOn(moved, x, first + 1, m);
      }
      assert !Ends(moved, x);
    } else {
      forall n | n in moved ensures Ends(moved, n) {
        MoveEnds(parents, x, a, n);
      }
    }
  }
}
