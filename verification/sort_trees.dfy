/** The tree builders that re-sort their working list on every pass instead of using a heap.

    `PR4/tree.py` sorts ascending and pops the two front items; `test/haffman2.py` and the
    `HuffmanCoder` copies sort descending (`reverse=True`) and pop the two back items. Either
    way the two lightest items are taken, and because the sort is stable, among items of equal
    weight the ones taken are those that come first (ascending) or last (descending) in the
    list as it stood before the pass. */
module SortTrees {
  import opened Wrappers
  import opened CodeTrees
  import opened Forests
  import opened StableSort

  lemma WithWeightCons(x: Item, t: seq<Item>, w: int)
    ensures WithWeight([x] + t, w) == (if x.weight == w then [x] else []) + WithWeight(t, w)
  {
    WithWeightConcat([x], t, w);
    assert [x][..0] == [];
  }

  /** `x` is the `k`-th item of `c` counted from the back (1 for the last). */
  predicate LastIs(c: seq<Item>, k: nat, x: Item) {
    1 <= k <= |c| && c[|c| - k] == x
  }

  /** `nodes = sorted(nodes, key=...)`, then `left = nodes.pop(0)`, `right = nodes.pop(0)`. */
  method PopTwoFront(nodes: seq<Item>) returns (left: Item, right: Item, rest: seq<Item>)
    requires |nodes| >= 2
    ensures |rest| == |nodes| - 2 && multiset(nodes) == multiset(rest) + multiset{left, right}
    ensures left.weight <= right.weight && forall i :: 0 <= i < |rest| ==> right.weight <= rest[i].weight
    ensures |WithWeight(nodes, left.weight)| >= 1 && WithWeight(nodes, left.weight)[0] == left
    ensures right.weight == left.weight ==>
              |WithWeight(nodes, left.weight)| >= 2 && WithWeight(nodes, left.weight)[1] == right
    ensures right.weight != left.weight ==>
              |WithWeight(nodes, right.weight)| >= 1 && WithWeight(nodes, right.weight)[0] == right
  {
    var sorted := SortAscending(nodes);
    left, right, rest := sorted[0], sorted[1], sorted[2..];
    FrontSplit(sorted);
    TwoFront(sorted);
    assert WithWeight(sorted, left.weight) == WithWeight(nodes, left.weight);
    assert WithWeight(sorted, right.weight) == WithWeight(nodes, right.weight);
  }

  /** Splitting the two front items off an ascending list. */
  lemma FrontSplit(s: seq<Item>)
    requires Ascending(s) && |s| >= 2
    ensures multiset(s) == multiset(s[2..]) + multiset{s[0], s[1]}
    ensures s[0].weight <= s[1].weight && forall i :: 0 <= i < |s[2..]| ==> s[1].weight <= s[2..][i].weight
  {
    assert s == [s[0], s[1]] + s[2..];
  }

  /** The first item of a list opens its weight class, and the second one either follows it
      in that class or opens its own. */
  lemma TwoFront(s: seq<Item>)
    requires |s| >= 2
    ensures |WithWeight(s, s[0].weight)| >= 1 && WithWeight(s, s[0].weight)[0] == s[0]
    ensures s[1].weight == s[0].weight ==>
              |WithWeight(s, s[0].weight)| >= 2 && WithWeight(s, s[0].weight)[1] == s[1]
    ensures s[1].weight != s[0].weight ==>
              |WithWeight(s, s[1].weight)| >= 1 && WithWeight(s, s[1].weight)[0] == s[1]
  {
    var a, b, rest := s[0], s[1], s[2..];
    var tail := [b] + rest;
    assert s == [a] + tail;
    WithWeightCons(a, tail, a.weight);
    if b.weight == a.weight {
      WithWeightCons(b, rest, a.weight);
    } else {
      WithWeightCons(a, tail, b.weight);
      WithWeightCons(b, rest, b.weight);
    }
  }

  /** `frequencies = sorted(frequencies, key=..., reverse=True)`, then
      `first = frequencies.pop()`, `second = frequencies.pop()`. */
  method PopTwoBack(items: seq<Item>) returns (first: Item, second: Item, rest: seq<Item>)
    requires |items| >= 2
    ensures |rest| == |items| - 2 && multiset(items) == multiset(rest) + multiset{first, second}
    ensures first.weight <= second.weight && forall i :: 0 <= i < |rest| ==> second.weight <= rest[i].weight
    ensures LastIs(WithWeight(items, first.weight), 1, first)
    ensures second.weight == first.weight ==> LastIs(WithWeight(items, first.weight), 2, second)
    ensures second.weight != first.weight ==> LastIs(WithWeight(items, second.weight), 1, second)
  {
    var sorted := SortDescending(items);
    PoppedBack(items, sorted);
    first, second, rest := sorted[|sorted| - 1], sorted[|sorted| - 2], sorted[..|sorted| - 2];
  }

  /** What the two `pop()` calls take from the stably sorted list and what they leave. */
  lemma PoppedBack(items: seq<Item>, sorted: seq<Item>)
    requires |sorted| == |items| >= 2 && multiset(sorted) == multiset(items) && Descending(sorted)
    requires forall w :: WithWeight(sorted, w) == WithWeight(items, w)
    ensures var first, second, rest := sorted[|sorted| - 1], sorted[|sorted| - 2], sorted[..|sorted| - 2];
            && multiset(items) == multiset(rest) + multiset{first, second}
            && first.weight <= second.weight
            && (forall i :: 0 <= i < |rest| ==> second.weight <= rest[i].weight)
            && LastIs(WithWeight(items, first.weight), 1, first)
            && (second.weight == first.weight ==> LastIs(WithWeight(items, first.weight), 2, second))
            && (second.weight != first.weight ==> LastIs(WithWeight(items, second.weight), 1, second))
  {
    var n := |sorted|;
    BackSplit(sorted);
    BackClasses(items, sorted[..n - 2], sorted[n - 2], sorted[n - 1]);
  }

  /** Splitting the two back items off a descending list. */
  lemma BackSplit(s: seq<Item>)
    requires Descending(s) && |s| >= 2
    ensures s == s[..|s| - 2] + [s[|s| - 2]] + [s[|s| - 1]]
    ensures multiset(s) == multiset(s[..|s| - 2]) + multiset{s[|s| - 1], s[|s| - 2]}
    ensures s[|s| - 1].weight <= s[|s| - 2].weight
    ensures forall i :: 0 <= i < |s| - 2 ==> s[|s| - 2].weight <= s[i].weight
  {
    var n := |s|;
    assert s == s[..n - 2] + [s[n - 2], s[n - 1]];
  }

  /** The back two items of a stable reordering of `items` close their weight classes in
      `items`. */
  lemma BackClasses(items: seq<Item>, rest: seq<Item>, second: Item, first: Item)
    requires forall w :: WithWeight(rest + [second] + [first], w) == WithWeight(items, w)
    ensures LastIs(WithWeight(items, first.weight), 1, first)
    ensures second.weight == first.weight ==> LastIs(WithWeight(items, first.weight), 2, second)
    ensures second.weight != first.weight ==> LastIs(WithWeight(items, second.weight), 1, second)
  {
    if second.weight == first.weight {
      BackSame(rest, second, first);
    } else {
      BackApart(rest, second, first);
    }
    assert WithWeight(rest + [second] + [first], first.weight) == WithWeight(items, first.weight);
    assert WithWeight(rest + [second] + [first], second.weight) == WithWeight(items, second.weight);
  }

  /** Two back items of one weight are the last two of their class. */
  lemma BackSame(rest: seq<Item>, a: Item, b: Item)
    requires a.weight == b.weight
    ensures LastIs(WithWeight(rest + [a] + [b], b.weight), 1, b)
    ensures LastIs(WithWeight(rest + [a] + [b], b.weight), 2, a)
  {
    WithWeightSnoc(rest + [a], b, b.weight);
    WithWeightSnoc(rest, a, b.weight);
  }

  /** Two back items of different weights each close their own class. */
  lemma BackApart(rest: seq<Item>, a: Item, b: Item)
    requires a.weight != b.weight
    ensures LastIs(WithWeight(rest + [a] + [b], b.weight), 1, b)
    ensures LastIs(WithWeight(rest + [a] + [b], a.weight), 1, a)
  {
    WithWeightSnoc(rest + [a], b, b.weight);
    WithWeightSnoc(rest + [a], b, a.weight);
    WithWeightSnoc(rest, a, a.weight);
  }

  /** `PR4/tree.py` `_build_tree` from its initial node list: merge the two front items of the
      ascending order until one is left, then `nodes[0]` (None for an empty list, where Python
      raises `IndexError`). */
  method MergeAscending(nodes: seq<Item>) returns (root: Option<Item>)
    ensures root.None? <==> nodes == []
    ensures root.Some? ==> root.value.weight == TotalWeight(nodes)
    ensures root.Some? ==> multiset(Leaves(root.value.tree)) == LeafBag(nodes)
    ensures |nodes| == 1 ==> root == Some(nodes[0])
  {
    var list := nodes;
    while |list| > 1
      invariant |list| >= 1 <==> nodes != []
      invariant TotalWeight(list) == TotalWeight(nodes) && LeafBag(list) == LeafBag(nodes)
      invariant |nodes| == 1 ==> list == nodes
      decreases |list|
    {
      var left, right, rest := PopTwoFront(list);
      var next := rest + [Merge(left, right)];
      MergeKeeps(list, rest, left, right, next);
      list := next;
    }
    if list == [] {
      root := None;
    } else {
      root := Some(list[0]);
      assert list == [list[0]];
      Single(list[0]);
    }
  }

  /** The `while len(frequencies) > 1` loop of `test/haffman2.py` and of the `HuffmanCoder`
      copies: merge the two back items of the descending order, `(first[0] + second[0],
      Node(first[1], second[1]))`, until at most one item is left. */
  method MergeDescending(items: seq<Item>) returns (list: seq<Item>)
    ensures |list| == if items == [] then 0 else 1
    ensures TotalWeight(list) == TotalWeight(items) && LeafBag(list) == LeafBag(items)
    ensures |items| <= 1 ==> list == items
  {
    list := items;
    while |list| > 1
      invariant |list| >= 1 <==> items != []
      invariant TotalWeight(list) == TotalWeight(items) && LeafBag(list) == LeafBag(items)
      invariant |items| <= 1 ==> list == items
      decreases |list|
    {
      var first, second, rest := PopTwoBack(list);
      var next := rest + [Merge(first, second)];
      MergeKeeps(list, rest, first, second, next);
      list := next;
    }
  }
}
