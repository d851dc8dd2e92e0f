/** The tree builder shared by the two heap-based Huffman copies: one leaf node per table entry,
    `heapify`, then pop the two lightest nodes, join them under a new node whose frequency is
    their sum, push it back, until one node is left and `heap[0]` is returned. Nodes compare by
    frequency alone (their `__lt__`), which `WeightLess` models. */
module HeapTrees {
  import opened Wrappers
  import opened Dicts
  import opened CodeTrees
  import opened Forests
  import opened Frequencies
  import opened Heapq

  /** `Node.__lt__` / `HuffmanNode.__lt__`: `self.frequency < other.frequency`. */
  function WeightLess(a: Item, b: Item): (r: bool)
    ensures r <==> a.weight < b.weight
  {
    a.weight < b.weight
  }

  /** Comparing frequencies only is a strict weak order: nodes of equal frequency are
      interchangeable for the heap, and the heap invariants hold. */
  lemma WeightLessOrder()
    ensures StrictWeakOrder(WeightLess)
    ensures forall a: Item, b: Item :: !WeightLess(a, b) && !WeightLess(b, a) ==> a.weight == b.weight
  {
  }

  /** One pass of the loop: pop the lightest node as the left child, pop the next lightest as
      the right child, push their parent. */
  method MergeTwo(heap: seq<Item>) returns (next: seq<Item>, left: Item, right: Item)
    requires IsHeap(heap, WeightLess) && |heap| > 1
    ensures IsHeap(next, WeightLess) && |next| == |heap| - 1
    ensures multiset{left, right} <= multiset(heap)
    ensures forall i :: 0 <= i < |heap| ==> left.weight <= heap[i].weight
    ensures forall x :: x in multiset(heap) - multiset{left} ==> right.weight <= x.weight
    ensures multiset(next) == multiset(heap) - multiset{left, right} + multiset{Merge(left, right)}
    ensures TotalWeight(next) == TotalWeight(heap) && LeafBag(next) == LeafBag(heap)
  {
    WeightLessOrder();
    var h1: seq<Item>, h2: seq<Item>;
    left, h1 := HeapPop(heap, WeightLess);
    right, h2 := HeapPop(h1, WeightLess);
    next := HeapPush(h2, WeightLess, Merge(left, right));
    MergeKeeps(heap, h2, left, right, next);
    NoLighter(h1, right);
  }

  /** No item of a heap is lighter than its popped root, whichever way the items are listed. */
  lemma NoLighter(h: seq<Item>, top: Item)
    requires forall i :: 0 <= i < |h| ==> !WeightLess(h[i], top)
    ensures forall x :: x in multiset(h) ==> top.weight <= x.weight
  {
    forall x | x in multiset(h) ensures top.weight <= x.weight {
      var i :| 0 <= i < |h| && h[i] == x;
    }
  }

  /** The heap loop on a list of leaf nodes. The result is `None` where `heap[0]` raises
      `IndexError`, that is for an empty list. */
  method MergeByHeap(leaves: seq<Item>) returns (root: Option<Item>)
    ensures root.None? <==> leaves == []
    ensures root.Some? ==> root.value.weight == TotalWeight(leaves)
    ensures root.Some? ==> multiset(Leaves(root.value.tree)) == LeafBag(leaves)
    ensures |leaves| == 1 ==> root == Some(leaves[0])
  {
    WeightLessOrder();
    var heap := Heapify(leaves, WeightLess);
    PermKeeps(heap, leaves);
    if |leaves| == 1 {
      assert heap[0] in multiset(leaves);
    }
    while |heap| > 1
      invariant IsHeap(heap, WeightLess)
      invariant |heap| >= 1 <==> leaves != []
      invariant TotalWeight(heap) == TotalWeight(leaves) && LeafBag(heap) == LeafBag(leaves)
      invariant |leaves| == 1 ==> heap == leaves
      decreases |heap|
    {
      var left, right;
      heap, left, right := MergeTwo(heap);
    }
    if heap == [] {
      root := None;
    } else {
      root := Some(heap[0]);
      assert heap == [heap[0]];
      Single(heap[0]);
    }
  }

  /** `build_huffman_tree(frequency_table)` / `CodeGenerator._build_huffman_tree(frequencies)`:
      the root weighs the sum of the table, has one leaf per entry, and is an inner node as
      soon as there are two entries. */
  method BuildFromTable(table: Dict<char, int>) returns (root: Option<Item>)
    requires DistinctKeys(table)
    ensures root.None? <==> table == []
    ensures root.Some? ==> root.value.weight == SumValues(table)
    ensures root.Some? ==> multiset(Leaves(root.value.tree)) == multiset(Keys(table))
    ensures root.Some? ==> DistinctLeaves(root.value.tree)
    ensures |table| >= 2 ==> root.Some? && root.value.tree.Node?
    ensures |table| == 1 ==> root == Some(Item(table[0].1, Leaf(table[0].0)))
  {
    root := MergeByHeap(LeafItems(table));
    if root.Some? {
      TableRoot(table, root.value);
    }
  }
}
