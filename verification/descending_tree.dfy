/** `test/haffman2.py`: a `HuffmanTree` holding `(count, letter)` pairs that `build_tree`
    merges with the descending sort, the recursive `generate_codes`, and the static
    `compress_data` / `decompress_data` of its `Node` class (`CodecLoops.EncodeText` and
    `CodecLoops.MatchDecode` with a first-match lookup).

    `self.letters = set(text)` is enumerated in an order Python does not fix; the model takes
    that enumeration as a parameter. */
module DescendingTree {
  import opened Wrappers
  import opened Dicts
  import opened CodeTrees
  import opened Forests
  import opened Frequencies
  import opened SortTrees

  class HuffmanTree {
    var text: string
    var letters: seq<char>
    var frequencies: seq<Item>

    /** `frequencies` covers every letter of `text` once and weighs `len(text)`. */
    ghost predicate Valid()
      reads this
    {
      EnumeratesLetters(letters, text) &&
      TotalWeight(frequencies) == |text| && LeafBag(frequencies) == multiset(letters)
    }

    /** `__init__(text)`: one `(text.count(letter), letter)` pair per letter of `set(text)`. */
    constructor (text: string, letters: seq<char>)
      requires EnumeratesLetters(letters, text)
      ensures this.text == text && this.letters == letters && Valid()
      ensures frequencies == LetterCounts(text, letters)
      ensures forall i :: 0 <= i < |frequencies| ==> frequencies[i].weight == Count(text, letters[i]) >= 1
    {
      this.text := text;
      this.letters := letters;
      frequencies := LetterCounts(text, letters);
      LetterCountsTotals(text, letters);
    }

    /** `build_tree`: merge until one pair is left and return its node; None where
        `self.frequencies[0]` raises `IndexError` (an empty text). The list is consumed in
        place, so a second call finds a single pair and returns the same root. */
    method BuildTree() returns (root: Option<Tree>)
      requires Valid()
      modifies this
      ensures Valid() && text == old(text) && letters == old(letters)
      ensures |frequencies| == if text == [] then 0 else 1
      ensures |old(frequencies)| <= 1 ==> frequencies == old(frequencies)
      ensures root.None? <==> text == []
      ensures root.Some? ==> root.value == frequencies[0].tree && frequencies[0].weight == |text|
      ensures root.Some? ==> multiset(Leaves(root.value)) == multiset(letters) && DistinctLeaves(root.value)
      ensures |letters| >= 2 ==> root.Some? && root.value.Node?
    {
      assert text == [] <==> letters == [] by {
        if text != [] { assert text[0] in letters; }
        if letters != [] { assert letters[0] in text; }
      }
      LeafBagEmpty(frequencies);
      frequencies := MergeDescending(frequencies);
      if frequencies == [] {
        root := None;
      } else {
        root := Some(frequencies[0].tree);
        SingleRoot(frequencies, letters);
      }
    }
  }
}
