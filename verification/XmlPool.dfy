/** tinyxml2's pool allocator: blocks of items, and the free items chained through the items themselves. */
module XmlPool {
  import opened Sequences

  /** An item: the link while it is free; while it is in use, the same memory holds the user's data. */
  class Item {
    var next: Item?

    constructor ()
    {
    }
  }

  /** The items of all blocks, in order. */
  ghost function AllOf(blocks: seq<seq<Item>>): seq<Item> {
    if blocks == [] then [] else AllOf(blocks[..|blocks| - 1]) + blocks[|blocks| - 1]
  }

  lemma AllOfAppend(blocks: seq<seq<Item>>, items: seq<Item>)
    ensures AllOf(blocks + [items]) == AllOf(blocks) + items
  {
    assert (blocks + [items])[..|blocks|] == blocks;
  }

  /** The largest of the numbers, or 0. */
  ghost function Peak(sizes: seq<int>): (p: nat) {
    if sizes == [] then 0
    else
      var before := Peak(sizes[..|sizes| - 1]);
      if sizes[|sizes| - 1] > before then sizes[|sizes| - 1] else before
  }

  lemma {:induction false} PeakIsMaximum(sizes: seq<int>)
    ensures forall k | 0 <= k < |sizes| :: sizes[k] <= Peak(sizes)
    ensures Peak(sizes) == 0 || Peak(sizes) in sizes
  {
    if sizes != [] {
      var init := sizes[..|sizes| - 1];
      PeakIsMaximum(init);
      assert forall k | 0 <= k < |init| :: sizes[k] == init[k];
      assert sizes == init + [sizes[|sizes| - 1]];
    }
  }

  lemma PeakAppend(sizes: seq<int>, n: int)
    ensures Peak(sizes + [n]) == if n > Peak(sizes) then n else Peak(sizes)
  {
    assert (sizes + [n])[..|sizes|] == sizes;
  }

  /** Free items and items in use are all the items there are, each of them once. */
  ghost predicate Partition(all: seq<Item>, free: seq<Item>, used: set<Item>) {
    && Distinct(all) && Distinct(free)
    && (forall x | x in free :: x in all && x !in used)
    && (forall x | x in used :: x in all)
    && (forall x | x in all :: x in used || x in free)
    && |free| + |used| == |all|
  }

  lemma Take(all: seq<Item>, free: seq<Item>, used: set<Item>)
    requires Partition(all, free, used) && free != []
    ensures Partition(all, free[1..], used + {free[0]}) && free[0] !in used
  {
    assert forall x | x in free :: x == free[0] || x in free[1..];
  }

  lemma Give(all: seq<Item>, free: seq<Item>, used: set<Item>, x: Item)
    requires Partition(all, free, used) && x in used
    ensures Partition(all, [x] + free, used - {x})
  {
    assert x in [x] + free;
    assert forall y | y in free :: y in [x] + free;
  }

  lemma Grow(all: seq<Item>, used: set<Item>, items: seq<Item>)
    requires Partition(all, [], used) && Distinct(items) && forall x | x in items :: x !in all
    ensures Partition(all + items, items, used)
  {
    forall i, j | 0 <= i < j < |all + items| ensures (all + items)[i] != (all + items)[j] {
      if i < |all| <= j {
        assert items[j - |all|] in items && all[i] in all;
      }
    }
  }

  /** A block of n new items, added when no item is free. */
  lemma BlockAdded(blocks: seq<seq<Item>>, used: set<Item>, items: seq<Item>, n: nat)
    requires Partition(AllOf(blocks), [], used) && |AllOf(blocks)| == |blocks| * n
    requires |items| == n && Distinct(items) && forall x | x in items :: x !in AllOf(blocks)
    ensures Partition(AllOf(blocks + [items]), items, used) && |AllOf(blocks + [items])| == |blocks + [items]| * n
  {
    hide *;
    Grow(AllOf(blocks), used, items);
    AllOfAppend(blocks, items);
    OneMore(|blocks|, n);
  }

  lemma OneMore(k: nat, n: nat)
    ensures (k + 1) * n == k * n + n
  {
  }

  /** The chain from an item on holds exactly these items, in order. */
  ghost predicate Chain(root: Item?, free: seq<Item>)
    reads free`next
  {
    && root == (if free == [] then null else free[0])
    && (forall k {:trigger free[k].next} | 0 <= k < |free| ::
        free[k].next == if k == |free| - 1 then null else free[k + 1])
  }

  lemma ChainTail(root: Item, free: seq<Item>)
    requires Chain(root, free)
    ensures free != [] && root == free[0] && Chain(root.next, free[1..])
  {
    assert free[0].next == if |free| == 1 then null else free[1];
    assert forall k | 0 <= k < |free| - 1 :: free[1..][k].next == free[k + 1].next;
  }

  /** A block: n new items, each linked to the next one. */
  method NewBlock(n: nat, ghost others: seq<Item>) returns (items: seq<Item>)
    requires n > 0
    ensures |items| == n && Distinct(items) && forall k | 0 <= k < n :: fresh(items[k]) && items[k] !in others
    ensures Chain(items[0], items)
  {
    items := [];
    for i := 0 to n
      invariant |items| == i && Distinct(items) && forall k | 0 <= k < i :: fresh(items[k]) && items[k] !in others
    {
      var item := new Item();
      items := items + [item];
    }
    for i := 0 to n - 1
      invariant forall k {:trigger items[k].next} | 0 <= k < i :: items[k].next == items[k + 1]
    {
      items[i].next := items[i + 1];
    }
    items[n - 1].next := null;
  }

  /** MemPoolT. */
  class Pool {
    const itemsPerBlock: nat
    var blocks: seq<seq<Item>>
    var root: Item?
    var currentAllocs: int
    var nAllocs: int
    var maxAllocs: int
    var nUntracked: int
    /** The free items in the order of the chain, the items in use, and how many were in use after every
        operation so far. */
    ghost var free: seq<Item>
    ghost var used: set<Item>
    ghost var sizes: seq<int>

    ghost predicate Counted()
      reads this`used, this`sizes, this`currentAllocs, this`maxAllocs
    {
      currentAllocs == |used| && maxAllocs == Peak(sizes) && currentAllocs <= maxAllocs
    }

    ghost predicate Sound()
      reads this`root, this`blocks, this`free, this`used, free`next
    {
      && Chain(root, free) && Partition(AllOf(blocks), free, used)
      && itemsPerBlock > 0 && |AllOf(blocks)| == |blocks| * itemsPerBlock
    }

    ghost predicate Valid()
      reads this, free`next
    {
      Sound() && Counted()
    }

    /** A pool for items of a size. */
    constructor (itemSize: nat)
      requires 0 < itemSize <= 4096
      ensures Valid() && blocks == [] && used == {} && nAllocs == 0 && nUntracked == 0
    {
      itemsPerBlock := 4096 / itemSize;
      blocks, root, currentAllocs, nAllocs, maxAllocs, nUntracked := [], null, 0, 0, 0, 0;
      free, used, sizes := [], {}, [];
    }

    /** MemPoolT::Alloc: an item that was not in use; a new block only when none is free. */
    method Alloc() returns (result: Item)
      requires Valid()
      modifies this
      ensures Valid() && result !in old(used) && used == old(used) + {result}
      ensures old(free) != [] ==> blocks == old(blocks) && [result] + free == old(free)
      ensures old(free) == [] ==> |blocks| == |old(blocks)| + 1 && |free| == itemsPerBlock - 1 && fresh(result)
      ensures nAllocs == old(nAllocs) + 1 && nUntracked == old(nUntracked) + 1 && sizes == old(sizes) + [|used|]
    {
      if root == null {
        AddBlock();
      }
      result := Pop();
      CountAlloc();
    }

    /** The part of Alloc that takes the first item of the chain. */
    method Pop() returns (result: Item)
      requires Sound() && root != null
      modifies this`root, this`free, this`used
      ensures Sound() && result !in old(used) && used == old(used) + {result} && |used| == |old(used)| + 1
      ensures [result] + free == old(free)
    {
      ChainTail(root, free);
      Take(AllOf(blocks), free, used);
      hide Partition, AllOf, Chain, Distinct;
      result := root;
      root := result.next;
      used, free := used + {result}, free[1..];
    }

    /** The part of Alloc that counts. */
    method CountAlloc()
      requires currentAllocs + 1 == |used| && maxAllocs == Peak(sizes) && currentAllocs <= maxAllocs
      modifies this`currentAllocs, this`maxAllocs, this`nAllocs, this`nUntracked, this`sizes
      ensures Counted() && sizes == old(sizes) + [|used|]
      ensures nAllocs == old(nAllocs) + 1 && nUntracked == old(nUntracked) + 1
    {
      PeakAppend(sizes, |used|);
      hide Peak;
      currentAllocs := currentAllocs + 1;
      if currentAllocs > maxAllocs {
        maxAllocs := currentAllocs;
      }
      nAllocs := nAllocs + 1;
      nUntracked := nUntracked + 1;
      sizes := sizes + [|used|];
    }

    /** The part of Alloc that adds a block. */
    method AddBlock()
      requires Sound() && root == null
      modifies this`blocks, this`root, this`free
      ensures Sound() && |blocks| == |old(blocks)| + 1 && |free| == itemsPerBlock && used == old(used)
      ensures forall k | 0 <= k < |free| :: fresh(free[k])
    {
      assert free == [];
      hide Partition, Chain, AllOf, Peak, Distinct;
      var items := NewBlock(itemsPerBlock, AllOf(blocks));
      BlockAdded(blocks, used, items, itemsPerBlock);
      blocks, root, free := blocks + [items], items[0], items;
    }

    /** MemPoolT::Free: the item becomes the first free one; null is let through. */
    method Free(mem: Item?)
      requires Valid() && (mem == null || mem in used)
      modifies this`root, this`currentAllocs, this`free, this`used, this`sizes, (if mem == null then {} else {mem})`next
      ensures Valid()
      ensures mem == null ==> used == old(used) && free == old(free) && sizes == old(sizes)
      ensures mem != null ==> used == old(used) - {mem} && free == [mem] + old(free) && sizes == old(sizes) + [|used|]
    {
      if mem == null {
        return;
      }
      currentAllocs := currentAllocs - 1;
      var item: Item := mem;
      item.next := root;
      root := item;
      Give(AllOf(blocks), free, used, item);
      hide Partition, AllOf;
      used, free := used - {item}, [item] + free;
      PeakAppend(sizes, |used|);
      sizes := sizes + [|used|];
    }

    /** What users write into an item in use does not reach the pool. */
    method Overwrite(item: Item, data: Item?)
      requires Valid() && item in used
      modifies item
      ensures Valid() && item.next == data
    {
      assert item !in free;
      item.next := data;
    }
  }
}
