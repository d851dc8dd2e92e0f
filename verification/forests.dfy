/** The working list of the Huffman tree builders: weighted subtrees that are merged two at a
    time until one is left. What every merge keeps is the total weight and the multiset of
    leaf characters, whatever order the list is in. */
module Forests {
  import opened CodeTrees
  import opened Tallies

  /** A weighted subtree: the frequency a node carries and the tree below it. A
      `(count, letter)` pair is an item whose tree is a single leaf. */
  datatype Item = Item(weight: int, tree: Tree)

  /** The parent node made from two popped items: its weight is their sum, `first` becomes the
      left child and `second` the right one. */
  function Merge(first: Item, second: Item): Item {
    Item(first.weight + second.weight, Node(first.tree, second.tree))
  }

  function Weight(x: Item): int {
    x.weight
  }

  function LeafSet(x: Item): multiset<char> {
    multiset(Leaves(x.tree))
  }

  function TotalWeight(f: seq<Item>): int {
    Total(f, Weight)
  }

  function LeafBag(f: seq<Item>): multiset<char> {
    Bag(f, LeafSet)
  }

  /** Total weight and leaf multiset do not depend on the order of the list. */
  lemma PermKeeps(a: seq<Item>, b: seq<Item>)
    requires multiset(a) == multiset(b)
    ensures TotalWeight(a) == TotalWeight(b) && LeafBag(a) == LeafBag(b)
  {
    Tallies.Perm(a, b, Weight, LeafSet);
  }

  lemma Single(x: Item)
    ensures TotalWeight([x]) == x.weight && LeafBag([x]) == multiset(Leaves(x.tree))
  {
    Pair(x, x, Weight, LeafSet);
  }

  /** Every item holds at least one leaf, so only the empty list has no leaves. */
  lemma LeafBagEmpty(f: seq<Item>)
    ensures LeafBag(f) == multiset{} <==> f == []
  {
    if f != [] {
      var x := f[|f| - 1];
      assert Leaves(x.tree)[0] in multiset(Leaves(x.tree));
    }
  }

  /** Replacing two items by their merge keeps the total weight and the leaf multiset. */
  lemma MergeKeeps(before: seq<Item>, rest: seq<Item>, first: Item, second: Item, after: seq<Item>)
    requires multiset(before) == multiset(rest) + multiset{first, second}
    requires multiset(after) == multiset(rest) + multiset{Merge(first, second)}
    ensures TotalWeight(after) == TotalWeight(before)
    ensures LeafBag(after) == LeafBag(before)
  {
    Replace(before, rest, first, second, Merge(first, second), after, Weight, LeafSet);
  }

  /** A list of single leaves holds exactly their characters. */
  lemma {:induction false} LeafBagOfLeaves(f: seq<Item>, keys: seq<char>)
    requires |f| == |keys| && forall i :: 0 <= i < |f| ==> f[i].tree == Leaf(keys[i])
    ensures LeafBag(f) == multiset(keys)
  {
    if f != [] {
      LeafBagOfLeaves(f[..|f| - 1], keys[..|keys| - 1]);
      assert keys == keys[..|keys| - 1] + [keys[|keys| - 1]];
    }
  }

  lemma {:induction false} AtMostOnce(s: seq<char>, x: char)
    requires Distinct(s)
    ensures multiset(s)[x] <= 1
  {
    if s != [] {
      var init := s[..|s| - 1];
      assert s == init + [s[|s| - 1]];
      AtMostOnce(init, x);
    }
  }

  /** A sequence with the same multiset as a duplicate-free one is duplicate-free. */
  lemma DistinctByBag(s: seq<char>, keys: seq<char>)
    requires multiset(s) == multiset(keys) && Distinct(keys)
    ensures Distinct(s)
  {
    forall i, j | 0 <= i < j < |s|
      ensures s[i] != s[j]
    {
      if s[i] == s[j] {
        assert multiset(s)[s[i]] >= 2 by {
          assert s == s[..i] + [s[i]] + s[i + 1..j] + [s[j]] + s[j + 1..];
        }
        AtMostOnce(keys, s[i]);
      }
    }
  }

  /** When the list has shrunk to one item, that item is the whole Huffman tree: its weight is
      the total of the initial weights, it holds each initial character once, and it is an
      inner node as soon as there were two characters or more. */
  lemma SingleRoot(f: seq<Item>, keys: seq<char>)
    requires |f| == 1 && LeafBag(f) == multiset(keys) && Distinct(keys)
    ensures multiset(Leaves(f[0].tree)) == multiset(keys)
    ensures TotalWeight(f) == f[0].weight
    ensures DistinctLeaves(f[0].tree)
    ensures |keys| >= 2 ==> f[0].tree.Node?
  {
    assert f == [f[0]];
    Single(f[0]);
    DistinctByBag(Leaves(f[0].tree), keys);
  }
}
