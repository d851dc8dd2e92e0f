/** The heap-based code generator: count the symbols of a text, build the Huffman tree with a
    heap, then traverse it into the `_codes` dict. The dict is created once per generator and
    never cleared, so a second `gen_code` call overwrites the codes of the characters it sees
    and keeps the entries of earlier texts. Reading the file and writing `code.json` are left
    out; the text is a parameter and the dict is the result. */
module CodeGenerators {
  import opened Wrappers
  import opened Dicts
  import opened CodeTrees
  import opened Forests
  import opened Frequencies
  import opened HeapTrees

  class CodeGenerator {
    var codes: Dict<char, string>

    constructor()
      ensures codes == []
    {
      codes := [];
    }

    /** `_traverse_tree(node, code)`: a node with a symbol stores `code` for it; any other node
        recurses left with '0' and right with '1'. Every leaf character of `node` ends up with
        `code` followed by its path, and every other entry is kept. */
    method TraverseTree(node: Tree, code: string)
      modifies this
      ensures codes == Walk(node, code, old(codes))
      ensures DistinctKeys(old(codes)) ==> DistinctKeys(codes)
      ensures forall c :: Get(codes, c) == if c in Leaves(node) then Some(code + CodeOf(node, c))
                                           else Get(old(codes), c)
      decreases node
    {
      if node.Leaf? {
        codes := Put(codes, node.sym, code);
      } else {
        TraverseTree(node.left, code + "0");
        TraverseTree(node.right, code + "1");
      }
      forall c ensures Get(codes, c) == if c in Leaves(node) then Some(code + CodeOf(node, c))
                                         else Get(old(codes), c) {
        WalkGet(node, code, old(codes), c);
      }
    }

    /** `gen_code` on the text of the file: `Counter(text)`, `_build_huffman_tree`, then
        `_traverse_tree` from the root with `''`. The tree is `None` where `heap[0]` raises
        `IndexError` (an empty text), and then `_codes` is untouched. Otherwise each character
        of the text gets the path to its leaf, which is non-empty as soon as the text has two
        distinct characters, and entries left by earlier calls for other characters stay. */
    method GenCode(text: string) returns (tree: Option<Item>)
      modifies this
      ensures tree.None? <==> text == []
      ensures tree.None? ==> codes == old(codes)
      ensures tree.Some? ==> codes == Walk(tree.value.tree, "", old(codes))
      ensures tree.Some? ==> tree.value.weight == |text| && DistinctLeaves(tree.value.tree)
      ensures tree.Some? ==> forall c :: c in Leaves(tree.value.tree) <==> c in text
      ensures tree.Some? ==> forall c :: Get(codes, c) ==
                               if c in text then Some(CodeOf(tree.value.tree, c)) else Get(old(codes), c)
      ensures tree.Some? && |Letters(text)| >= 2 ==> forall c :: c in text ==> Get(codes, c).value != ""
      ensures DistinctKeys(old(codes)) ==> DistinctKeys(codes)
    {
      var frequencies := CountFrequencies(text);
      tree := BuildFromTable(frequencies);
      if tree.Some? {
        assert forall c :: c in Leaves(tree.value.tree) <==> c in multiset(Keys(frequencies));
        TraverseTree(tree.value.tree, "");
        assert forall p: string :: "" + p == p;
      }
    }
  }
}
