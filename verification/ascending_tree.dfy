/** `PR4/tree.py`: a `HuffmanTree` object that counts its text into `freq_dict`, builds its
    root with the stable ascending sort and fills `codes` on request. */
module AscendingTree {
  import opened Wrappers
  import opened Dicts
  import opened CodeTrees
  import opened Forests
  import opened Frequencies
  import opened SortTrees

  /** `_build_tree` on a frequency dict: one leaf node per entry, then the ascending merge
      loop. None where `nodes[0]` raises `IndexError`, that is for an empty dict. */
  method BuildTree(freq: Dict<char, int>) returns (root: Option<Item>)
    requires DistinctKeys(freq)
    ensures root.None? <==> freq == []
    ensures root.Some? ==> root.value.weight == SumValues(freq)
    ensures root.Some? ==> multiset(Leaves(root.value.tree)) == multiset(Keys(freq))
    ensures root.Some? ==> DistinctLeaves(root.value.tree)
    ensures |freq| >= 2 ==> root.Some? && root.value.tree.Node?
    ensures |freq| == 1 ==> root == Some(Item(freq[0].1, Leaf(freq[0].0)))
  {
    root := MergeAscending(LeafItems(freq));
    if root.Some? {
      TableRoot(freq, root.value);
    }
  }

  class HuffmanTree {
    var text: string
    var freqDict: Dict<char, int>
    var root: Item
    /** Python creates `codes` in the first `get_codes`; it starts empty here. */
    var codes: Dict<char, string>

    /** What the constructor establishes: `freq_dict` counts `text`, and `root` is a Huffman
        tree over it weighing `len(text)`. */
    ghost predicate Valid()
      reads this
    {
      CountsOf(freqDict, text) &&
      root.weight == |text| &&
      multiset(Leaves(root.tree)) == multiset(Keys(freqDict)) && DistinctLeaves(root.tree) &&
      (|freqDict| >= 2 ==> root.tree.Node?)
    }

    /** `__init__`: `_build_freq_dict`, then `_build_tree`. Python raises inside the
        constructor for an empty text (`BuildTree` returns None for it). */
    constructor (text: string)
      requires text != []
      ensures this.text == text && Valid() && codes == []
      ensures forall c :: Get(freqDict, c) == if c in text then Some(Count(text, c)) else None
      ensures forall i :: 0 <= i < |freqDict| ==> freqDict[i].1 >= 1
      ensures root.weight == |text|
    {
      var freq := CountFrequencies(text);
      assert text[0] in Letters(text);
      var r := BuildTree(freq);
      this.text := text;
      freqDict := freq;
      root := r.value;
      codes := [];
    }

    /** `_generate_codes_helper(node, current_code)`: a leaf (the only nodes with a `char`)
        stores `current_code` for its character; an inner node recurses left with '0' and
        right with '1'. */
    method GenerateCodesHelper(node: Tree, currentCode: string)
      modifies this
      ensures codes == Walk(node, currentCode, old(codes))
      ensures text == old(text) && freqDict == old(freqDict) && root == old(root)
      decreases node
    {
      if node.Leaf? {
        codes := Put(codes, node.sym, currentCode);
      } else {
        GenerateCodesHelper(node.left, currentCode + "0");
        GenerateCodesHelper(node.right, currentCode + "1");
      }
    }

    /** `get_codes`: reset `codes`, then walk from the root. The table depends on the root
        only, so repeated calls return equal tables; it has an entry for exactly the
        characters of the text, each entry the path to that character's leaf, and no code is
        a prefix of another. A text with one distinct character gets `{c: ''}`. */
    method GetCodes() returns (r: Dict<char, string>)
      requires Valid()
      modifies this
      ensures r == codes && codes == Walk(root.tree, "", [])
      ensures text == old(text) && freqDict == old(freqDict) && root == old(root) && Valid()
      ensures forall c :: HasKey(r, c) <==> c in text
      ensures forall c :: c in text ==> c in Leaves(root.tree) && Get(r, c) == Some(CodeOf(root.tree, c))
      ensures PrefixFree(r)
      ensures |freqDict| >= 2 ==> NonEmptyCodes(r)
      ensures |freqDict| == 1 ==> r == [(freqDict[0].0, "")]
    {
      codes := [];
      GenerateCodesHelper(root.tree, "");
      r := codes;
      TableOfTree(root.tree);
      assert forall c :: c in Leaves(root.tree) <==> c in multiset(Keys(freqDict));
      if |freqDict| == 1 {
        assert Leaves(root.tree) == [root.tree.sym];
        assert Keys(freqDict) == [freqDict[0].0];
      }
    }
  }
}
