/** The sibling lists of tinyxml2's nodes: doubly linked lists with parent and first/last pointers,
    rewired in place by Unlink and the inserts. */
module XmlNode {
  import opened Sequences
  import opened Wrappers
  import opened XmlAncestry

  class Document {
    constructor () {
    }
  }

  /** What an insertion does: it inserts the node, refuses a node or position it does not accept, or
      dereferences a null pointer. */
  datatype Outcome = Inserted | Refused | NullDereference

  /** A list without an element. */
  function Without<T(==)>(s: seq<T>, x: T): seq<T> {
    if s == [] then [] else if s[0] == x then s[1..] else [s[0]] + Without(s[1..], x)
  }

  lemma {:induction false} WithoutAt<T>(s: seq<T>, k: nat)
    requires k < |s| && forall j | 0 <= j < k :: s[j] != s[k]
    ensures Without(s, s[k]) == s[..k] + s[k + 1..]
  {
    if k > 0 {
      WithoutAt(s[1..], k - 1);
      assert s[..k] == [s[0]] + s[1..][..k - 1];
    }
  }

  lemma {:induction false} WithoutIsAbsent<T>(s: seq<T>, x: T)
    requires Distinct(s)
    ensures x !in Without(s, x) && Distinct(Without(s, x))
    ensures forall y | y in Without(s, x) :: y in s
    ensures forall y | y in s && y != x :: y in Without(s, x)
  {
    if s != [] && s[0] != x {
      WithoutIsAbsent(s[1..], x);
      assert s == [s[0]] + s[1..];
      assert forall j | 0 <= j < |Without(s[1..], x)| :: Without(s[1..], x)[j] in s[1..];
    }
  }

  lemma {:induction false} WithoutAbsent<T>(s: seq<T>, x: T)
    requires x !in s
    ensures Without(s, x) == s
  {
    if s != [] {
      WithoutAbsent(s[1..], x);
    }
  }

  /** A list with x put behind y. */
  function InsertBehind<T(==)>(s: seq<T>, y: T, x: T): seq<T> {
    if s == [] then [] else if s[0] == y then [y, x] + s[1..] else [s[0]] + InsertBehind(s[1..], y, x)
  }

  lemma {:induction false} InsertBehindAt<T>(s: seq<T>, k: nat, x: T)
    requires k < |s| && forall j | 0 <= j < k :: s[j] != s[k]
    ensures InsertBehind(s, s[k], x) == s[..k + 1] + [x] + s[k + 1..]
  {
    if k > 0 {
      InsertBehindAt(s[1..], k - 1, x);
      assert s[..k + 1] == [s[0]] + s[1..][..k];
    }
  }

  lemma InsertBehindHas<T>(s: seq<T>, k: nat, x: T)
    requires k < |s|
    ensures x in s[..k + 1] + [x] + s[k + 1..]
    ensures forall c | c in s :: c in s[..k + 1] + [x] + s[k + 1..]
    ensures forall c | c in s[..k + 1] + [x] + s[k + 1..] :: c == x || c in s
  {
    assert (s[..k + 1] + [x] + s[k + 1..])[k + 1] == x;
    forall c | c in s ensures c in s[..k + 1] + [x] + s[k + 1..] {
      assert c in s[..k + 1] || c in s[k + 1..];
    }
  }

  lemma InsertBehindLast<T>(s: seq<T>, x: T)
    requires Distinct(s) && s != []
    ensures InsertBehind(s, s[|s| - 1], x) == s + [x]
  {
    hide InsertBehind;
    InsertBehindAt(s, |s| - 1, x);
    assert s[..|s|] == s && s[|s|..] == [];
  }

  /** Which element ends a list once x is taken out. */
  lemma LastWithout<T>(s: seq<T>, x: T)
    requires Distinct(s) && |s| > 1
    ensures |Without(s, x)| >= |s| - 1
    ensures var w := Without(s, x); w[|w| - 1] == s[if s[|s| - 1] == x then |s| - 2 else |s| - 1]
  {
    if x in s {
      var k :| 0 <= k < |s| && s[k] == x;
      WithoutAt(s, k);
    } else {
      WithoutAbsent(s, x);
    }
  }

  class Node {
    const document: Document
    var parent: Node?
    var firstChild: Node?
    var lastChild: Node?
    var prev: Node?
    var next: Node?
    /** The children in order. */
    ghost var kids: seq<Node>

    constructor (document: Document)
      ensures this.document == document && parent == null && kids == []
      ensures firstChild == null && lastChild == null && prev == null && next == null
    {
      this.document := document;
      parent, firstChild, lastChild, prev, next := null, null, null, null, null;
      kids := [];
    }

    /** The first and last pointers, and the links of every child to its neighbours and its parent. */
    ghost predicate Linked()
      reads this`kids, this`firstChild, this`lastChild, kids`parent, kids`prev, kids`next
    {
      && firstChild == (if kids == [] then null else kids[0])
      && lastChild == (if kids == [] then null else kids[|kids| - 1])
      && (forall k {:trigger kids[k].parent} | 0 <= k < |kids| :: kids[k].parent == this)
      && (forall k {:trigger kids[k].prev} | 0 <= k < |kids| :: kids[k].prev == Before(kids, k))
      && (forall k {:trigger kids[k].next} | 0 <= k < |kids| :: kids[k].next == Behind(kids, k))
    }

    /** In a linked list of children there are no duplicates. */
    lemma {:induction false} ChildrenDiffer(j: nat, k: nat)
      requires Linked() && j < k < |kids|
      ensures kids[j] != kids[k]
    {
      assert kids[j].prev == (if j == 0 then null else kids[j - 1]);
      assert kids[k].prev == kids[k - 1];
      if j > 0 {
        ChildrenDiffer(j - 1, k - 1);
      }
    }

    /** The children other than x stay when x is taken out. */
    lemma Others(x: Node)
      requires Linked()
      ensures forall k | 0 <= k < |Without(kids, x)| :: Without(kids, x)[k] in kids && Without(kids, x)[k] != x
      ensures forall c | c in kids && c != x :: c in Without(kids, x)
    {
      forall i, j | 0 <= i < j < |kids| ensures kids[i] != kids[j] {
        ChildrenDiffer(i, j);
      }
      WithoutIsAbsent(kids, x);
    }

    static function Before(s: seq<Node>, k: nat): Node?
      requires k < |s|
    {
      if k == 0 then null else s[k - 1]
    }

    static function Behind(s: seq<Node>, k: nat): Node?
      requires k < |s|
    {
      if k == |s| - 1 then null else s[k + 1]
    }

    /** The links of the nodes of a list but the one at position k, when its neighbours are joined. */
    ghost predicate JoinedAround(was: seq<Node>, k: nat)
      requires k < |was|
      reads was`parent, was`prev, was`next
    {
      && (forall i {:trigger was[i].parent} | 0 <= i < |was| && i != k :: was[i].parent == this)
      && (forall i {:trigger was[i].prev} | 0 <= i < |was| && i != k ::
            was[i].prev == if i == k + 1 then Before(was, k) else Before(was, i))
      && (forall i {:trigger was[i].next} | 0 <= i < |was| && i != k ::
            was[i].next == if i == k - 1 then Behind(was, k) else Behind(was, i))
    }

    lemma JoinedIsLinked(was: seq<Node>, k: nat)
      requires k < |was| && JoinedAround(was, k) && kids == was[..k] + was[k + 1..]
      requires firstChild == (if kids == [] then null else kids[0])
      requires lastChild == (if kids == [] then null else kids[|kids| - 1])
      ensures Linked()
    {
      forall j | 0 <= j < |kids|
        ensures kids[j].parent == this
        ensures kids[j].prev == (if j == 0 then null else kids[j - 1])
        ensures kids[j].next == (if j == |kids| - 1 then null else kids[j + 1])
      {
        var i := if j < k then j else j + 1;
        assert kids[j] == was[i];
        assert was[i].parent == this && was[i].prev == was[i].prev && was[i].next == was[i].next;
      }
    }

    /** The pointer part of XMLNode::Unlink, for the child at position k. */
    method JoinNeighbours(child: Node, ghost k: nat)
      requires Linked() && k < |kids| && kids[k] == child
      requires Distinct(kids)
      modifies this`firstChild, this`lastChild, kids`prev, kids`next, child`parent
      ensures JoinedAround(kids, k)
      ensures firstChild == (if k > 0 then kids[0] else if |kids| > 1 then kids[1] else null)
      ensures lastChild == (if k < |kids| - 1 then kids[|kids| - 1] else if |kids| > 1 then kids[|kids| - 2] else null)
      ensures child.parent == null && child.prev == null && child.next == null
    {
      assert kids[k].prev == child.prev == Before(kids, k) && kids[k].next == child.next == Behind(kids, k);
      SkipEnds(child, k);
      Bypass(child, k);
    }

    /** The rest of Unlink: the neighbours of the child are joined, and its own links cleared. */
    method Bypass(child: Node, ghost k: nat)
      requires k < |kids| && kids[k] == child && Distinct(kids)
      requires forall i {:trigger kids[i].parent} | 0 <= i < |kids| :: kids[i].parent == this
      requires forall i {:trigger kids[i].prev} | 0 <= i < |kids| :: kids[i].prev == Before(kids, i)
      requires forall i {:trigger kids[i].next} | 0 <= i < |kids| :: kids[i].next == Behind(kids, i)
      modifies kids`prev, kids`next, child`parent
      ensures JoinedAround(kids, k)
      ensures child.parent == null && child.prev == null && child.next == null
    {
      assert kids[k].prev == child.prev && kids[k].next == child.next;
      if child.prev != null {
        child.prev.next := child.next;
      }
      if child.next != null {
        child.next.prev := child.prev;
      }
      child.next := null;
      child.prev := null;
      child.parent := null;
    }

    /** The start of Unlink: the first and last pointers leave out the child at position k. */
    method SkipEnds(child: Node, ghost k: nat)
      requires Linked() && k < |kids| && kids[k] == child && Distinct(kids)
      modifies this`firstChild, this`lastChild
      ensures firstChild == (if k > 0 then kids[0] else if |kids| > 1 then kids[1] else null)
      ensures lastChild == (if k < |kids| - 1 then kids[|kids| - 1] else if |kids| > 1 then kids[|kids| - 2] else null)
    {
      assert kids[k].prev == child.prev && kids[k].next == child.next;
      assert child == firstChild <==> k == 0;
      assert child == lastChild <==> k == |kids| - 1;
      if child == firstChild {
        firstChild := (firstChild as Node).next;
      }
      if child == lastChild {
        lastChild := (lastChild as Node).prev;
      }
    }

    /** XMLNode::Unlink: the child leaves the list, its neighbours are joined. */
    method Unlink(child: Node)
      requires Linked() && child in kids
      modifies this`kids, this`firstChild, this`lastChild, kids`prev, kids`next, child`parent
      ensures Linked() && kids == Without(old(kids), child)
      ensures child.parent == null && child.prev == null && child.next == null && child !in kids
    {
      ghost var was := kids;
      ghost var k := Position(child);
      JoinNeighbours(child, k);
      hide Without, Node.Linked;
      kids := was[..k] + was[k + 1..];
      JoinedIsLinked(was, k);
      WithoutAt(was, k);
      WithoutIsAbsent(was, child);
    }

    lemma Position(child: Node) returns (k: nat)
      requires Linked() && child in kids
      ensures k < |kids| && kids[k] == child
      ensures Distinct(kids)
      ensures child.parent == this
      ensures child.prev == Before(kids, k)
      ensures child.next == Behind(kids, k)
    {
      k :| 0 <= k < |kids| && kids[k] == child;
      forall i, j | 0 <= i < j < |kids| ensures kids[i] != kids[j] {
        ChildrenDiffer(i, j);
      }
      assert kids[k].prev == child.prev && kids[k].next == child.next && kids[k].parent == child.parent;
    }

    /** The pointer part of InsertEndChild, for a node without a parent. */
    method LinkLast(addThis: Node)
      requires Linked() && addThis !in kids
      modifies this`kids, this`firstChild, this`lastChild, kids`next, addThis`prev, addThis`next, addThis`parent
      ensures Linked() && kids == old(kids) + [addThis]
    {
      ghost var was := kids;
      if lastChild != null {
        assert firstChild != null;
        assert was[|was| - 1].next == null;
        lastChild.next := addThis;
        addThis.prev := lastChild;
        lastChild := addThis;
        addThis.next := null;
      } else {
        assert firstChild == null;
        firstChild := addThis;
        lastChild := addThis;
        addThis.prev := null;
        addThis.next := null;
      }
      addThis.parent := this;
      kids := was + [addThis];
    }

    /** The pointer part of InsertFirstChild, for a node without a parent. */
    method LinkFirst(addThis: Node)
      requires Linked() && addThis !in kids && addThis.next == null
      modifies this`kids, this`firstChild, this`lastChild, kids`prev, addThis`prev, addThis`next, addThis`parent
      ensures Linked() && kids == [addThis] + old(kids)
    {
      ghost var was := kids;
      if firstChild != null {
        assert lastChild != null;
        assert was[0].prev == null;
        firstChild.prev := addThis;
        addThis.next := firstChild;
        firstChild := addThis;
        addThis.prev := null;
      } else {
        assert lastChild == null;
        firstChild := addThis;
        lastChild := addThis;
        addThis.prev := null;
        addThis.next := null;
      }
      addThis.parent := this;
      kids := [addThis] + was;
    }

    /** The pointer part of InsertAfterChild, behind a child that has a next sibling. */
    method LinkBehind(afterThis: Node, addThis: Node, ghost k: nat)
      requires Linked() && addThis !in kids && k + 1 < |kids| && kids[k] == afterThis
      modifies this`kids, kids`prev, kids`next, addThis`prev, addThis`next, addThis`parent
      ensures Linked() && kids == old(kids)[..k + 1] + [addThis] + old(kids)[k + 1..]
    {
      ghost var was := kids;
      ghost var at := Position(afterThis);
      assert at == k;
      addThis.prev := afterThis;
      addThis.next := afterThis.next;
      afterThis.next.prev := addThis;
      afterThis.next := addThis;
      addThis.parent := this;
      assert SplitBehind(was, k, addThis);
      kids := was[..k + 1] + [addThis] + was[k + 1..];
      SplitIsLinked(was, k, addThis);
    }

    /** The links of a list with a node put between positions k and k + 1. */
    ghost predicate SplitBehind(was: seq<Node>, k: nat, x: Node)
      requires k + 1 < |was|
      reads was`parent, was`prev, was`next, x`parent, x`prev, x`next
    {
      && x.parent == this && x.prev == was[k] && x.next == was[k + 1]
      && (forall i {:trigger was[i].parent} | 0 <= i < |was| :: was[i].parent == this)
      && (forall i {:trigger was[i].prev} | 0 <= i < |was| ::
            was[i].prev == (if i == 0 then null else if i == k + 1 then x else was[i - 1]))
      && (forall i {:trigger was[i].next} | 0 <= i < |was| ::
            was[i].next == (if i == |was| - 1 then null else if i == k then x else was[i + 1]))
    }

    lemma SplitIsLinked(was: seq<Node>, k: nat, x: Node)
      requires k + 1 < |was| && SplitBehind(was, k, x) && kids == was[..k + 1] + [x] + was[k + 1..]
      requires firstChild == was[0] && lastChild == was[|was| - 1]
      ensures Linked()
    {
      forall j | 0 <= j < |kids|
        ensures kids[j].parent == this
        ensures kids[j].prev == (if j == 0 then null else kids[j - 1])
        ensures kids[j].next == (if j == |kids| - 1 then null else kids[j + 1])
      {
        if j == k + 1 {
          assert kids[j] == x;
        } else {
          var i := if j <= k then j else j - 1;
          assert kids[j] == was[i];
          assert was[i].parent == this && was[i].prev == was[i].prev && was[i].next == was[i].next;
        }
      }
    }

    /** XMLNode::InsertChildPreamble: the node leaves the list of its parent, if it has one. */
    method InsertChildPreamble(insertThis: Node, ghost nodes: set<Node>)
      requires WellLinked(nodes) && insertThis in nodes
      modifies nodes
      ensures WellLinked(nodes) && insertThis.parent == null
      ensures forall n | n in nodes :: n.kids == Without(old(n.kids), insertThis)
      ensures forall n {:trigger n.parent} | n in nodes && n != insertThis :: n.parent == old(n.parent)
    {
      hide Without;
      AbsentElsewhere(nodes, insertThis);
      if insertThis.parent != null {
        var parent := insertThis.parent as Node;
        parent.Others(insertThis);
        parent.Unlink(insertThis);
        assert parent.kids == Without(old(parent.kids), insertThis);
        assert forall n {:trigger n.kids} | n in nodes && n != parent :: n.kids == old(n.kids);
        assert forall n {:trigger n.Linked()} | n in nodes && n != parent :: n.Linked();
        forall n, k {:trigger n.kids[k]} | n in nodes && 0 <= k < |n.kids|
          ensures n.kids[k] in nodes && n.kids[k].parent == n
        {
          if n == parent {
            assert n.kids[k] in old(parent.kids);
          } else {
            assert old(n.kids)[k] in nodes;
          }
        }
        forall n, c {:trigger c in n.kids} | n in nodes && c in nodes && c.parent == n
          ensures c in n.kids
        {
          assert c in old(n.kids);
        }
      }
    }

    /** LinkLast, seen from the whole set. */
    method AddLast(addThis: Node, ghost nodes: set<Node>)
      requires WellLinked(nodes) && this in nodes && addThis in nodes
      requires addThis.document == document && addThis.parent == null
      modifies nodes
      ensures WellLinked(nodes) && kids == old(kids) + [addThis]
      ensures forall n | n in nodes && n != this :: n.kids == old(n.kids)
      ensures forall n {:trigger n.parent} | n in nodes :: n.parent == if n == addThis then this else old(n.parent)
    {
      LinkLast(addThis);
      forall n, k {:trigger n.kids[k]} | n in nodes && 0 <= k < |n.kids|
        ensures n.kids[k] in nodes && n.kids[k].parent == n
      {
        if n != this || k < |kids| - 1 {
          assert n.kids[k] == old(n.kids[k]);
        }
      }
    }

    /** LinkFirst, seen from the whole set. */
    method AddFirst(addThis: Node, ghost nodes: set<Node>)
      requires WellLinked(nodes) && this in nodes && addThis in nodes
      requires addThis.document == document && addThis.parent == null
      modifies nodes
      ensures WellLinked(nodes) && kids == [addThis] + old(kids)
      ensures forall n | n in nodes && n != this :: n.kids == old(n.kids)
      ensures forall n {:trigger n.parent} | n in nodes :: n.parent == if n == addThis then this else old(n.parent)
    {
      LinkFirst(addThis);
      forall n, k {:trigger n.kids[k]} | n in nodes && 0 <= k < |n.kids|
        ensures n.kids[k] in nodes && n.kids[k].parent == n
      {
        if n != this {
          assert n.kids[k] == old(n.kids[k]);
        } else if k > 0 {
          assert n.kids[k] == old(n.kids)[k - 1];
        }
      }
    }

    /** LinkBehind, seen from the whole set. */
    method AddBehind(afterThis: Node, addThis: Node, ghost nodes: set<Node>)
      requires WellLinked(nodes) && this in nodes && addThis in nodes && afterThis in nodes
      requires addThis.document == document && addThis.parent == null
      requires afterThis.parent == this && afterThis.next != null
      modifies nodes
      ensures WellLinked(nodes) && kids == InsertBehind(old(kids), afterThis, addThis)
      ensures forall n | n in nodes && n != this :: n.kids == old(n.kids)
      ensures forall n {:trigger n.parent} | n in nodes :: n.parent == if n == addThis then this else old(n.parent)
    {
      hide InsertBehind, Node.Linked;
      assert afterThis in kids;
      ghost var was := kids;
      ghost var at := Position(afterThis);
      LinkBehind(afterThis, addThis, at);
      InsertBehindAt(was, at, addThis);
      assert addThis in kids && (forall c | c in was :: c in kids)
        && forall c | c in kids :: c == addThis || c in was by {
        InsertBehindHas(was, at, addThis);
      }
      assert forall n, c {:trigger c in n.kids} | n in nodes && c in nodes && c.parent == n :: c in n.kids;
      assert forall n {:trigger n.Linked()} | n in nodes && n != this :: n.Linked();
      forall n, k {:trigger n.kids[k]} | n in nodes && 0 <= k < |n.kids|
        ensures n.kids[k] in nodes && n.kids[k].parent == n
      {
        if n == this {
          assert kids[k] in kids;
        } else {
          assert n.kids[k] == old(n.kids)[k];
        }
      }
    }

    /** XMLNode::InsertEndChild: the node moves from where it was to the end of this list. */
    method InsertEndChild(addThis: Node, ghost nodes: set<Node>) returns (outcome: Outcome)
      requires WellLinked(nodes) && this in nodes && addThis in nodes
      modifies nodes
      ensures WellLinked(nodes)
      ensures outcome == (if addThis.document == document then Inserted else Refused)
      ensures outcome.Refused? ==> unchanged(nodes)
      ensures outcome.Inserted? ==> kids == Without(old(kids), addThis) + [addThis]
      ensures outcome.Inserted? ==> forall n | n in nodes && n != this :: n.kids == Without(old(n.kids), addThis)
      ensures outcome.Inserted? ==> Parents(nodes) == old(Parents(nodes))[addThis := this]
      ensures outcome.Inserted? && old(Forest(nodes)) ==>
        (Forest(nodes) <==> !old(AtOrAbove(Parents(nodes), addThis, this)))
    {
      if addThis.document != document {
        return Refused;
      }
      hide Rooted, AtOrAbove, Without;
      ghost var parents := Parents(nodes);
      InsertChildPreamble(addThis, nodes);
      AddLast(addThis, nodes);
      Moved(parents, addThis, nodes);
      outcome := Inserted;
    }

    /** XMLNode::InsertFirstChild: the node moves from where it was to the start of this list. */
    method InsertFirstChild(addThis: Node, ghost nodes: set<Node>) returns (outcome: Outcome)
      requires WellLinked(nodes) && this in nodes && addThis in nodes
      modifies nodes
      ensures WellLinked(nodes)
      ensures outcome == (if addThis.document == document then Inserted else Refused)
      ensures outcome.Refused? ==> unchanged(nodes)
      ensures outcome.Inserted? ==> kids == [addThis] + Without(old(kids), addThis)
      ensures outcome.Inserted? ==> forall n | n in nodes && n != this :: n.kids == Without(old(n.kids), addThis)
      ensures outcome.Inserted? ==> Parents(nodes) == old(Parents(nodes))[addThis := this]
      ensures outcome.Inserted? && old(Forest(nodes)) ==>
        (Forest(nodes) <==> !old(AtOrAbove(Parents(nodes), addThis, this)))
    {
      if addThis.document != document {
        return Refused;
      }
      hide Rooted, AtOrAbove, Without;
      ghost var parents := Parents(nodes);
      InsertChildPreamble(addThis, nodes);
      AddFirst(addThis, nodes);
      Moved(parents, addThis, nodes);
      outcome := Inserted;
    }

    /** When a child with a next sibling becomes the last one as addThis is taken out. */
    lemma LastOfOthers(child: Node, addThis: Node)
      requires Linked() && child in kids && child != addThis && child.next != null
      ensures var others := Without(kids, addThis);
        && child in others
        && (others[|others| - 1] == child <==> child.next == addThis && addThis.next == null)
    {
      Others(addThis);
      var at := Position(child);
      var last := Position(kids[|kids| - 1]);
      var next := Position(kids[at + 1]);
      hide Node.Linked, Without;
      LastWithout(kids, addThis);
    }

    lemma LastHasNoNext(child: Node)
      requires Linked() && child in kids
      ensures child.next == null <==> child == kids[|kids| - 1]
    {
      var at := Position(child);
      hide Node.Linked;
    }

    /** The part of InsertAfterChild behind a child that has a next sibling: it fails on the null pointer that
        is left when the next sibling was the last child and is the node to insert. */
    method MoveBehind(afterThis: Node, addThis: Node, ghost nodes: set<Node>) returns (outcome: Outcome)
      requires WellLinked(nodes) && this in nodes && addThis in nodes && afterThis in nodes
      requires addThis.document == document && afterThis.parent == this
        && afterThis != addThis && afterThis.next != null
      modifies nodes
      ensures outcome == if old(afterThis.next) == addThis && old(addThis.next) == null
        then NullDereference else Inserted
      ensures outcome.Inserted? ==>
        && WellLinked(nodes) && kids == InsertBehind(Without(old(kids), addThis), afterThis, addThis)
        && (forall n | n in nodes && n != this :: n.kids == Without(old(n.kids), addThis))
        && forall n {:trigger n.parent} | n in nodes :: n.parent == if n == addThis then this else old(n.parent)
    {
      hide Without, InsertBehind, Distinct, Node.Linked;
      assert afterThis in kids;
      LastOfOthers(afterThis, addThis);
      InsertChildPreamble(addThis, nodes);
      LastHasNoNext(afterThis);
      if afterThis.next == null {
        return NullDereference;
      }
      AddBehind(afterThis, addThis, nodes);
      outcome := Inserted;
    }

    /** XMLNode::InsertAfterChild: the node moves from where it was to the place behind afterThis. It dereferences
        a null pointer exactly when the node is the last child already and follows afterThis. */
    method InsertAfterChild(afterThis: Node, addThis: Node, ghost nodes: set<Node>) returns (outcome: Outcome)
      requires WellLinked(nodes) && this in nodes && addThis in nodes && afterThis in nodes
      modifies nodes
      ensures outcome.Refused? <==> addThis.document != document || old(afterThis.parent) != this
      ensures outcome.NullDereference? <==>
        && !outcome.Refused? && afterThis != addThis
        && old(afterThis.next) == addThis && old(addThis.next) == null
      ensures outcome.Refused? || afterThis == addThis ==> unchanged(nodes)
      ensures !outcome.NullDereference? ==> WellLinked(nodes)
      ensures outcome.Inserted? && afterThis != addThis ==>
        && kids == InsertBehind(Without(old(kids), addThis), afterThis, addThis)
        && forall n | n in nodes && n != this :: n.kids == Without(old(n.kids), addThis)
      ensures outcome.Inserted? ==> Parents(nodes) == old(Parents(nodes))[addThis := this]
      ensures outcome.Inserted? && old(Forest(nodes)) ==>
        (Forest(nodes) <==> !old(AtOrAbove(Parents(nodes), addThis, this)))
    {
      if addThis.document != document {
        return Refused;
      }
      if afterThis.parent != this {
        return Refused;
      }
      hide Rooted, AtOrAbove, Without, InsertBehind;
      ghost var parents := Parents(nodes);
      if afterThis == addThis {
        Moved(parents, addThis, nodes);
        return Inserted;
      }
      if afterThis.next == null {
        LastStays(afterThis, addThis, nodes);
        outcome := InsertEndChild(addThis, nodes);
        return;
      }
      outcome := MoveBehind(afterThis, addThis, nodes);
      if outcome == Inserted {
        Moved(parents, addThis, nodes);
      }
    }

    /** What has become of the parents when a node is moved under this one. */
    lemma Moved(parents: map<Node, Node>, addThis: Node, nodes: set<Node>)
      requires addThis in nodes && this in nodes && addThis.parent == this
      requires forall n {:trigger n.parent} | n in nodes && n != addThis ::
        if n.parent == null then n !in parents else n in parents && parents[n] == n.parent
      requires forall n | n in parents :: n in nodes
      ensures Parents(nodes) == parents[addThis := this]
      ensures Rooted(parents) ==> (Rooted(Parents(nodes)) <==> !AtOrAbove(parents, addThis, this))
    {
      hide Rooted, AtOrAbove;
      if Rooted(parents) {
        RootedAfterMove(parents, addThis, this);
      }
    }

    /** The last child stays last when another node is taken out, so behind it is at the end. */
    lemma LastStays(afterThis: Node, addThis: Node, nodes: set<Node>)
      requires WellLinked(nodes) && this in nodes && afterThis in nodes
      requires afterThis.parent == this && afterThis != addThis && afterThis.next == null
      ensures InsertBehind(Without(kids, addThis), afterThis, addThis) == Without(kids, addThis) + [addThis]
    {
      hide Without, InsertBehind, Distinct, Node.Linked;
      assert afterThis in kids;
      LastHasNoNext(afterThis);
      var at := Position(afterThis);
      if |kids| > 1 {
        LastWithout(kids, addThis);
      } else {
        WithoutAbsent(kids, addThis);
      }
      WithoutIsAbsent(kids, addThis);
      InsertBehindLast(Without(kids, addThis), addThis);
    }
  }

  /** A set of nodes closed under links: a node is in the list of children of exactly the parent it names,
      a node without a parent has no siblings, and every list of children is linked. */
  ghost predicate WellLinked(nodes: set<Node>)
    reads nodes
  {
    && (forall n, k {:trigger n.kids[k]} | n in nodes && 0 <= k < |n.kids| ::
        n.kids[k] in nodes && n.kids[k].parent == n)
    && (forall n, c {:trigger c in n.kids} | n in nodes && c in nodes && c.parent == n :: c in n.kids)
    && (forall n {:trigger n.Linked()} | n in nodes :: n.Linked())
    && (forall n {:trigger n.parent} | n in nodes && n.parent != null ::
          n.parent in nodes && n.parent.document == n.document)
    && (forall n {:trigger n.prev} {:trigger n.next} | n in nodes && n.parent == null ::
        n.prev == null && n.next == null)
  }

  /** The parents of the nodes that have one. */
  ghost function Parents(nodes: set<Node>): map<Node, Node>
    reads nodes
  {
    map n | n in nodes && n.parent != null :: (n.parent as Node)
  }

  /** Well-linked nodes in which no node is its own ancestor. */
  ghost predicate Forest(nodes: set<Node>)
    reads nodes
  {
    WellLinked(nodes) && Rooted(Parents(nodes))
  }

  /** Taking x out of the lists of children changes only the list of its parent. */
  lemma AbsentElsewhere(nodes: set<Node>, x: Node)
    requires WellLinked(nodes) && x in nodes
    ensures forall n | n in nodes && n != x.parent :: Without(n.kids, x) == n.kids
  {
    forall n | n in nodes && n != x.parent ensures Without(n.kids, x) == n.kids {
      WithoutAbsent(n.kids, x);
    }
  }

  /** A parent with two children: inserting the second behind the first again dereferences a null pointer. */
  method ReinsertLast(document: Document) returns (outcome: Outcome)
    ensures outcome == NullDereference
  {
    hide Rooted, AtOrAbove;
    var root := new Node(document);
    var a := new Node(document);
    var b := new Node(document);
    ghost var nodes := {root, a, b};
    outcome := root.InsertEndChild(a, nodes);
    outcome := root.InsertEndChild(b, nodes);
    assert root.kids == [a, b];
    assert root.Linked();
    assert root.kids[0].next == root.kids[1] && root.kids[1].next == null && root.kids[0].parent == root;
    outcome := root.InsertAfterChild(a, b, nodes);
  }

  /** A node becomes its own only child, and its own parent. */
  method InsertIntoItself(document: Document) returns (root: Node, outcome: Outcome)
    ensures outcome == Inserted && root.parent == root && root.kids == [root]
    ensures WellLinked({root}) && !Forest({root})
  {
    root := new Node(document);
    ghost var nodes := {root};
    assert Parents(nodes) == map[];
    assert Forest(nodes) by {
      assert WellLinked(nodes);
    }
    assert Above(Parents(nodes), root, 0) == Some(root);
    outcome := root.InsertEndChild(root, nodes);
  }
}
