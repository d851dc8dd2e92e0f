# Information theory coursework, modelled in Dafny

This project models the algorithmic core of a collection of information-theory exercises.
The exercises are written in Python:

- several Huffman coders, which count symbols, build a code tree, write a code table,
  encode a text to a bit string, pack the bits into bytes and decode them again;
- three Hamming coders: a textbook single-error-correcting code on digit strings, a
  byte-level variant and a matrix-based block variant;
- move generation, check and checkmate detection for a chess board;
- an N-Queens backtracking solver;
- breadth-first search over an adjacency matrix, with the matrix of its search tree;
- two Caesar ciphers: one over ASCII letters with an alphabet size parameter, one that
  decrypts over the 33-letter Russian alphabet.

Each source module is modelled in the form it is written in:

- Objects whose methods update fields become classes with `modifies` clauses:
  - the `HuffmanTree` objects;
  - the `CodeGenerator`;
  - the `HuffmanCoder`;
  - the group-heap `Huffman` coder;
  - the `NQueens` board, an `array`.
- Loops become methods with invariants, each proved against a specification function.
- Pure helpers become functions.
- Python's `heapq` and stable `sorted` are modelled as well, because the Huffman coders
  depend on their order:
  - `heapq` with its `_siftdown` and `_siftup` loops;
  - `sorted` as a stable insertion sort.
- A Python `dict` is a sequence of items in insertion order. First-match lookups, inverted
  dicts and the never-cleared code tables depend on that order.
- A Python exception (`IndexError`, `KeyError`, `ValueError`, `ZeroDivisionError`) is the
  `Option` value `None`.
- Files, settings and JSON are parameters and results:
  - what a coder would read from `code.json`, `huffman_codes.json` or `settings.ini` is
    passed in;
  - what it would write is returned or stored in a field.

Shared modules:

| module | holds |
|---|---|
| `Wrappers` | `Option` |
| `Dicts` | ordered dicts |
| `Bits` | '0'/'1' strings, padding, 8-bit packing |
| `Heapq` | the heap operations |
| `StableSort` | stable sorting by weight |
| `Tallies` | sums and multisets over lists |
| `Forests` | the list of weighted trees that a Huffman merge loop keeps |
| `CodeTrees` | code trees, tables, encoding and the two decoding styles (first-match scan, tree walk) |
| `CodecLoops` | the loops that encode and decode |
| `Frequencies` | symbol counting |
| `PyCompare` | Python's ordering on lists |
| `HammingMath` | the integer facts the Hamming coders rest on |

## Model

| member | source | states |
|---|---|---|
| Dicts.Get | PR6/huffman_pr6.py:39 | `d[k]`: None exactly when the key is missing; otherwise the value of an item with that key, the only one when keys are distinct |
| Dicts.Put | PR4/tree.py:19-22 | `d[k] = v`: afterwards `k` maps to `v` and every other key maps to what it did; an existing key keeps its place, a new key goes to the end; distinct keys stay distinct |
| Dicts.KeyOf | test/haffman2.py:57-59 | first-match search `next(k for k, c in d.items() if c == v)`: None exactly when no item has the value; otherwise the key of the first item with that value, and for an injective dict the key of every such item |
| Dicts.Invert | PR6/huffman_pr6.py:70 | `{v: k for k, v in d.items()}` has distinct keys and a key for exactly the values of `d`, and maps each value to the key of the last item holding it |
| Dicts.InvertAgreesWithKeyOf | PR6/huffman_pr6.py:70-77 | for an injective table, looking a code up in the inverted dict gives the same symbol as the first-match search, so the two decoding styles agree |
| Dicts.FromPairs | PR6/huffman_pr6.py:38 | `dict(pairs)` has distinct keys and, when the pairs already have distinct keys, is the list of pairs itself |
| Bits.PadLength | test/haffman2.py:182 | `8 - len % 8` lies in 1..8, reaches the next multiple of eight, and is 8 exactly when the length already is a multiple of eight |
| Bits.Pad | test/haffman2.py:182 | the padded string is a whole number of bytes, keeps the bits as its prefix and adds 1 to 8 characters |
| Bits.Pack | test/haffman2.py:183-184 | one byte per complete eight-character chunk, each byte's eight bits being that chunk |
| Bits.Unpack | test/haffman2.py:201 | eight bits per byte, most significant first |
| Bits.UnpackPack | test/haffman2.py:182-201 | unpacking packed bits that fill whole bytes gives the bits back |
| Bits.PackUnpack | test/haffman2.py:182-201 | packing unpacked bytes gives the bytes back |
| Bits.SaveLoad | test/haffman2.py:174-202 | saving and then loading a bit string returns it followed by exactly its padding zeros |
| Bits.SaveBinary | PR6/huffman_coding.py:86-96 | the save expression packs exactly the strings of '0' and '1' and is None on every other string; otherwise it writes `(len + pad) / 8` bytes that read back as the bits plus the padding zeros |
| Bits.ValueOfDigits | test/haffman2.py:183 | formatting a number in `w` bits and reading it with `int(s, 2)` gives the number |
| Bits.DigitsOfValue | test/haffman2.py:201 | reading a bit string and formatting it at the same width gives the string |
| PyCompare.LexTotal | PR6/huffman_pr6.py:27-36 | Python's lexicographic list order over a strict total element order is irreflexive, transitive and total |
| PyCompare.PairsLessTotal | PR6/huffman_pr6.py:26-36 | the order Python applies to the `[symbol, code]` tails of heap entries is a strict total order |
| Heapq.RootIsMinimal | PR5/huffman_coding.py:20-21 | nothing in a heap is less than its root |
| Heapq.SiftDown | PR4/huffman_coder.py:51 | `_siftdown` permutes the list, keeps the items below `startpos`, and restores the heap property from `startpos` on |
| Heapq.SiftUp | PR4/huffman_coder.py:48-49 | `_siftup` permutes the list, keeps the items before `pos`, and makes the subtree from `pos` a heap |
| Heapq.Heapify | PR4/huffman_coder.py:45 | `heapify` permutes the list into a heap |
| Heapq.HeapPush | PR4/huffman_coder.py:51 | `heappush` yields a heap holding the old items plus the new one |
| Heapq.HeapPop | PR4/huffman_coder.py:48-49 | `heappop` returns the root, which no item is less than, and leaves a heap of the remaining items |
| StableSort.SortAscending | PR4/tree.py:29 | `sorted(key=freq)` is an ascending permutation that keeps the order within each weight class |
| StableSort.SortDescending | test/haffman2.py:85 | `sorted(key=..., reverse=True)` is a descending permutation that keeps the order within each weight class |
| StableSort.Insert | PR4/tree.py:29 | inserting into an ascending list adds the item to the multiset, keeps the list ascending and puts the item last in its weight class |
| StableSort.InsertDesc | test/haffman2.py:85 | the descending counterpart of `Insert` |
| SortTrees.PopTwoFront | PR4/tree.py:29-32 | the two popped nodes are the two lightest, the first opens its weight class and the second follows it in input order; the rest is the remaining multiset |
| SortTrees.PopTwoBack | test/haffman2.py:85-87 | the two popped items are the two lightest, the first is the last of its weight class in input order and the second is the one before it or the last of its own class |
| SortTrees.PoppedBack | test/haffman2.py:85-87 | what two `pop()` calls take from a stably reverse-sorted list and what they leave |
| SortTrees.BackClasses | test/haffman2.py:85-87 | the two back items of a stable reordering close their weight classes in the original list |
| SortTrees.MergeAscending | PR4/tree.py:25-40 | the merge loop fails only on an empty list; otherwise its root weighs the total of the initial weights and holds exactly the initial leaves, and a one-item list is returned unchanged |
| SortTrees.MergeDescending | test/haffman2.py:84-89 | the merge loop leaves at most one item, keeps the total weight and the leaf multiset, and leaves a list of at most one item alone |
| Forests.MergeKeeps | PR4/tree.py:34-38 | replacing two items by their parent keeps the total weight and the leaf multiset |
| Forests.PermKeeps | PR4/tree.py:29 | total weight and leaf multiset do not depend on the order of the list |
| Forests.SingleRoot | PR4/tree.py:40 | the last remaining item is the whole tree: it weighs the total, holds each initial symbol once, and is an inner node when there were two or more symbols |
| Frequencies.Count | test/haffman2.py:78 | `text.count(c)` is the multiplicity of `c` in the text, positive exactly when `c` occurs |
| Frequencies.Letters | PR4/tree.py:16-23 | the keys of the counting loop's dict: exactly the symbols of the text, each once |
| Frequencies.LettersInOrder | PR4/tree.py:16-23 | those keys stand in first-occurrence order: of two letters, the one listed first occurs first in the text |
| Frequencies.CountFrequencies | PR4/tree.py:16-23 | the counting loop yields a dict keyed by the text's symbols in first-occurrence order, maps each to its count, every count is at least 1 and the counts add up to the length |
| Frequencies.LetterCounts | test/haffman2.py:78 | `[(text.count(l), l) for l in letters]` pairs each letter with its count, in the order of `letters` |
| Frequencies.LetterCountsTotals | test/haffman2.py:77-78 | for an enumeration of the distinct letters the counts add up to the text length and the leaves are exactly the letters |
| Frequencies.SumCountsIsLength | test/haffman2.py:78 | the counts of distinct letters that cover the text add up to its length |
| Frequencies.LeafItemsTotals | PR5/huffman_coding.py:16 | one leaf per table entry: the leaf weights add up to the table's total and the leaves are the table's keys |
| Frequencies.TableRoot | PR5/huffman_coding.py:15-27 | a root built from a non-empty table weighs the table's total, holds each key once, and is an inner node when the table has two or more keys |
| CodeTrees.WalkGet | PR5/huffman_coding.py:29-39 | the recursive table fill maps every leaf symbol to the path to it and leaves every other key's value as it was |
| CodeTrees.CodeTable | PR5/huffman_coding.py:29-39 | `build_encoding_table` maps each symbol of the tree to its path, and a symbol outside the tree to what the passed table held, or to nothing when no table was passed |
| CodeTrees.CodesPrefixFree | PR5/huffman_coding.py:29-39 | in a tree with distinct leaves no symbol's code is a prefix of another's |
| CodeTrees.TableOfTree | test/haffman2.py:92-111 | the table of a tree has a key for exactly its leaves, maps each to its path, is prefix-free for distinct leaves, has non-empty codes for an inner root, and is `{symbol: ''}` for a lone leaf |
| CodeTrees.Encode | PR5/huffman_coding.py:41-45 | encoding succeeds exactly when every symbol of the text has a code |
| CodeTrees.ScanEncoded | test/haffman2.py:41-62 | the first-match scan decoder turns the encoding under a prefix-free table with non-empty codes back into the text, with nothing left over |
| CodeTrees.ScanAppend | test/haffman2.py:55-60 | scanning two strings one after the other is scanning their concatenation |
| CodeTrees.InvertedAgrees | PR6/huffman_pr6.py:70-78 | for an injective table the inverted-dict lookup finds the same symbol as the first-match lookup for every code |
| CodeTrees.WalkDecodeEncoded | PR5/huffman_coding.py:47-60 | walking the tree bit by bit turns the encoding of a text back into the text and ends at the root |
| CodeTrees.TreeTableRoundTrip | PR5/hyffman_code.py:63-120 | encoding with a tree's table and scanning with the same table gives the text back |
| CodeTrees.SlicePrefix | PR6/huffman_pr6.py:80 | Python's `s[:k]` for every integer `k`, negative ones counting from the end |
| CodecLoops.EncodeText | test/haffman2.py:35-38 | the concatenation loop is the encoding, and fails exactly when some symbol has no code |
| CodecLoops.SearchItems | PR5/hyffman_code.py:113-120 | the `for ... break` search returns the first key whose code matches, found in the table |
| CodecLoops.MatchDecode | test/haffman2.py:52-62 | the bit loop yields the scan decoder's output and leftover |
| CodecLoops.WalkDecodeText | PR5/huffman_coding.py:47-60 | the tree-walk loop fails exactly when the walk leaves the tree and otherwise yields the walk's output |
| HeapTrees.WeightLessOrder | PR5/huffman_coding.py:12-13 | `__lt__` on frequencies is a strict weak order whose ties are equal weights |
| HeapTrees.MergeTwo | PR5/huffman_coding.py:19-25 | one round pops the lightest node, then the lightest of the rest, pushes their parent, and keeps a heap with the same total weight and leaves |
| HeapTrees.MergeByHeap | PR4/huffman_coder.py:44-53 | the heap loop fails only on an empty list; otherwise its root weighs the total and holds exactly the initial leaves |
| HeapTrees.BuildFromTable | PR5/huffman_coding.py:15-27 | the tree of a non-empty frequency table weighs its total, holds each key once, is an inner node for two or more keys and a single leaf for one |
| AscendingTree.BuildTree | PR4/tree.py:25-40 | `_build_tree` fails exactly on an empty dict; otherwise the root weighs the sum of the counts, holds each key once, and is an inner node for two or more keys |
| AscendingTree.HuffmanTree.constructor | PR4/tree.py:11-14 | a new tree counts its text into `freq_dict` (every symbol with its count) and its root weighs the text length |
| AscendingTree.HuffmanTree.GenerateCodesHelper | PR4/tree.py:42-48 | the recursive helper fills `codes` with the path of every leaf under the node and changes nothing else |
| AscendingTree.HuffmanTree.GetCodes | PR4/tree.py:50-53 | `get_codes` returns a prefix-free table keyed by exactly the text's symbols, each mapped to its path; the codes are non-empty for two or more symbols and `''` for one |
| DescendingTree.HuffmanTree.constructor | test/haffman2.py:69-78 | a new tree pairs each letter of the enumeration of `set(text)` with its positive count |
| DescendingTree.HuffmanTree.BuildTree | test/haffman2.py:80-90 | `build_tree` fails exactly on the empty text; otherwise it leaves one pair whose weight is the text length and whose tree holds each letter once, an inner node for two or more letters |
| CodeGenerators.CodeGenerator.constructor | PR4/huffman_coder.py:33-35 | a new generator has an empty code dict |
| CodeGenerators.CodeGenerator.TraverseTree | PR4/huffman_coder.py:55-66 | `_traverse_tree` maps every leaf under the node to the path to it and leaves every other entry |
| CodeGenerators.CodeGenerator.GenCode | PR4/huffman_coder.py:68-78 | `gen_code` fails only on an empty text and then changes nothing; otherwise it maps every symbol of the text to its code, keeps earlier entries of other symbols, and gives non-empty codes when the text has two or more symbols |
| HuffmanCoders.FirstWithPrefix | PR5/hyffman_code.py:122-128 | the recovery search returns the first symbol whose code starts with the leftover bits, or None when no code does |
| HuffmanCoders.SearchPrefix | PR6/huffman_coding.py:75-79 | the recovery loop returns what `FirstWithPrefix` specifies |
| HuffmanCoders.Decoded | PR5/hyffman_code.py:100-128 | the decoder's text is the scan's output, extended only when bits are left over and recovery is on |
| HuffmanCoders.DecodedRoundTrip | PR6/huffman_coding.py:30-79 | decoding the unpadded encoding of a text with the tree's table gives the text, with or without recovery |
| HuffmanCoders.SavedRoundTrip | PR6/huffman_coding.py:57-96 | corrected decoder: cutting the decoded padded bytes to the text length gives the text back |
| HuffmanCoders.PaddingDecodesAsText | PR6/huffman_coding.py:57-96 | as written: a text "aab" saved with its padding decodes to "aabbbbbb", because the padding zeros are decoded as symbols |
| HuffmanCoders.BuildTree | PR5/hyffman_code.py:71-81 | the tree built in `encode` from the counts of an enumeration of `set(text)` fails only on the empty text and otherwise holds each letter of the text once, an inner node for two or more letters |
| HuffmanCoders.HuffmanCoder.constructor | PR6/huffman_coding.py:6-14 | a new coder holds no text, no bits, an empty code table and an empty decoded text |
| HuffmanCoders.HuffmanCoder.BinFileLoader | test/hyffman.py:60-71 | loading bytes stores their bits, eight per byte, which pack back to the bytes; nothing else changes |
| HuffmanCoders.HuffmanCoder.Walk | PR5/hyffman_code.py:86-98 | `walk` maps every leaf under the node to the path to it and leaves every other code |
| HuffmanCoders.HuffmanCoder.Encode | PR5/hyffman_code.py:63-84 | `encode` does nothing when no text is loaded and raises on an empty text; otherwise it builds a tree with each letter once and maps every letter of the text to its code, keeping other entries |
| HuffmanCoders.HuffmanCoder.Decode | PR5/hyffman_code.py:100-128 | `decode` with a freshly loaded table appends the recovering decoder's text to the decoded text when bits are loaded, and otherwise changes nothing |
| HuffmanCoders.HuffmanCoder.DecodeStored | test/hyffman.py:112-129 | `decode` with the stored table appends the scan decoder's text and drops leftover bits |
| HuffmanCoders.HuffmanCoder.SaveBinCode | PR5/hyffman_code.py:138-148 | `save_bin_code` fails when there is no text or a symbol has no code, and is None when the encoding is not a string of '0' and '1'; otherwise the bytes read back as the encoding plus its padding |
| GroupHuffman.GroupLessOrder | PR6/huffman_pr6.py:27-36 | Python's `<` on heap entries, by weight and then by the `[symbol, code]` lists, is a strict total order, so `heapq` applies |
| GroupHuffman.Singles | PR6/huffman_pr6.py:26 | one entry `[weight, [symbol, '']]` per counted symbol, in dict order |
| GroupHuffman.PrependBit | PR6/huffman_pr6.py:32-35 | the prefixing loop puts the bit in front of every code and keeps the symbols |
| GroupHuffman.MergedWellFormed | PR6/huffman_pr6.py:36 | merging two entries with disjoint symbols gives an entry whose weight and symbols are the sums of theirs |
| GroupHuffman.MergeStep | PR6/huffman_pr6.py:29-36 | one round pops the least entry and the least of the rest, pushes their merge, and keeps a heap |
| GroupHuffman.QueueStep | PR6/huffman_pr6.py:29-36 | a merge round keeps every symbol in exactly one well-formed entry and keeps the total weight |
| GroupHuffman.BuildCodes | PR6/huffman_pr6.py:22-38 | the heap loop fails only on no symbols; otherwise the table has each symbol once, is prefix-free and of bits, has non-empty codes for two or more symbols and is `{symbol: ''}` for one |
| GroupHuffman.SlicedRoundTrip | PR6/huffman_pr6.py:39-80 | decoding the encoding of a text with the inverted prefix-free table and cutting it to the text length gives the text back |
| GroupHuffman.SingleSymbolLost | PR6/huffman_pr6.py:38-80 | as written: a text of one repeated symbol encodes to "" and decodes to "", although its length is saved |
| GroupHuffman.OneBitForLoneSymbol | PR6/huffman_pr6.py:38 | corrected table: same keys, unchanged for two or more symbols, a one-bit code for a lone symbol |
| GroupHuffman.LoneSymbolFixed | PR6/huffman_pr6.py:38 | the corrected table is prefix-free with non-empty codes |
| GroupHuffman.CorrectedRoundTrip | PR6/huffman_pr6.py:39-80 | with the corrected table, decoding and cutting to the length gives every text back, a one-symbol text included |
| GroupHuffman.Huffman.constructor | PR8/huff.py:9-11 | a new coder has an empty table and sees the files as they are |
| GroupHuffman.Huffman.Encode | PR6/huffman_pr6.py:13-52 | `encode` raises on an empty text and stores nothing; otherwise it returns the encoding, saves the table and the length, and the table is prefix-free, of bits, keyed by exactly the text's symbols, non-empty for two or more symbols and `{symbol: ''}` for one |
| GroupHuffman.Huffman.Decode | PR6/huffman_pr6.py:54-80 | `decode` loads the saved table; it fails when the table or the length cannot be read and otherwise returns the decoded text cut to the saved length |
| GroupHuffman.Huffman.DecodeOrEmpty | PR8/huffman.py:62-98 | the guarded `decode` returns "" for a missing table or a non-numeric length, fails on a missing `[Huffman]` key, and otherwise returns the decoded text cut to the saved length |
| GroupHuffman.Huffman.EncodeThenDecode | PR8/huff.py:13-84 | encode then decode fails on the empty text, gives the text back when it has two or more distinct symbols, and gives "" for one repeated symbol |
| HammingMath.PowerTest | PR6/hamming_pr6.py:23 | `i & (i - 1) == 0` holds exactly for powers of two |
| HammingMath.ParityCount | PR6/hamming_pr6.py:15-17 | the least `r` with `2^r >= m + r + 1` |
| HammingMath.BitLength | PR6/hamming_pr6.py:49-51 | the least `r` with `2^r >= n + 1` |
| HammingMath.BitLengthOfCodeword | PR6/hamming_pr6.py:49-51 | on a codeword of `m + r` characters the decoder finds the same `r` as the encoder |
| HammingStrings.CheckParity | PR6/hamming_pr6.py:29-34 | the chunk loop fails exactly when a covered character is not an ASCII digit, and otherwise returns the parity of the digit sum over the positions the check covers |
| HammingStrings.Encode | PR6/hamming_pr6.py:4-36 | `encode` fails exactly when the data holds a character other than an ASCII digit, and otherwise returns the codeword |
| HammingStrings.ParityBits | PR6/hamming_pr6.py:15-17 | the search loop finds the least `r` with `2^r >= m + r + 1` |
| HammingStrings.CheckBits | PR6/hamming_pr6.py:49-51 | the search loop finds the least `r` with `2^r >= n + 1` |
| HammingStrings.LayOut | PR6/hamming_pr6.py:19-27 | the layout loop places the data in order at the positions that are not powers of two and '0' at the others |
| HammingStrings.ExtractData | PR6/hamming_pr6.py:65-70 | the extraction loop keeps exactly the characters at positions that are not powers of two |
| HammingStrings.Decode | PR6/hamming_pr6.py:38-70 | `decode` computes the syndrome, flips the character it points at, and extracts the data; it fails on a character other than an ASCII digit in a check, or on a syndrome past the end |
| HammingStrings.EncodedIsCodeword | PR6/hamming_pr6.py:29-34 | every check of an encoded word comes out even, and bits stay bits |
| HammingStrings.DecodeCodeword | PR6/hamming_pr6.py:53-70 | a codeword decodes to its data characters |
| HammingStrings.DecodeEncoded | PR6/hamming_pr6.py:4-70 | decoding an encoded digit string gives it back |
| HammingStrings.CorrectsOneFlip | PR6/hamming_pr6.py:53-63 | flipping any one bit of a binary codeword is corrected |
| HammingStrings.SingleErrorCorrected | PR6/hamming_pr6.py:4-70 | encoding bits, flipping any one position and decoding gives the bits back |
| HammingStrings.DecodedLength | PR6/hamming_pr6.py:65-70 | a decoded word is shorter than its input by the number of check positions |
| HammingStrings.ExtractEncoded | PR6/hamming_pr6.py:19-27 | extracting the data from an encoded word gives the data |
| HammingStrings.EmptyWord | PR6/hamming_pr6.py:15-17 | the empty word encodes and decodes to itself |
| HammingStrings.TwoErrorsOverrun | PR6/hamming_pr6.py:62-63 | with two flipped bits in the 5-character codeword of "00" the syndrome is 7, past the end, and decoding fails |
| HammingBytes.CalculateParityBits | PR6/haming_coder.py:161-177 | the parity position list is `1, 2, 4, ...`, each below `word_size + i + 1`, no longer than the word size and empty for a size of 0 or less |
| HammingBytes.InsertParityBits | PR6/haming_coder.py:179-199 | the insertion loop returns what `Inserted` specifies, None where an insert position is out of range |
| HammingBytes.InsertedSucceeds | PR6/haming_coder.py:179-199 | insertion succeeds exactly when the positions are distinct and within the grown list, and then adds one byte per position |
| HammingBytes.InsertedContents | PR6/haming_coder.py:179-199 | after insertion the listed positions hold 0 and the others hold the data in order |
| HammingBytes.RemoveParityBits | PR6/haming_coder.py:201-217 | the removal loop drops the bytes at the listed 1-indexed positions and keeps the rest in order |
| HammingBytes.RemoveInserted | PR6/haming_coder.py:179-217 | removing the parity positions after inserting them gives the data back |
| HammingBytes.CalculateParityBit | PR6/haming_coder.py:219-237 | the loop XORs the bytes at the indices its mask selects |
| HammingBytes.Code | PR6/haming_coder.py:10-38 | `code` returns what `Coded` specifies |
| HammingBytes.FillParity | PR6/haming_coder.py:32-36 | the parity loop writes each parity byte and keeps every other byte |
| HammingBytes.CodedShape | PR6/haming_coder.py:10-38 | coding succeeds exactly when the last parity position fits; the result is one byte per position longer, keeps the data bytes in place, and the data come back when the parity positions are removed |
| HammingBytes.FirstParityZero | PR6/haming_coder.py:32-36 | the first parity byte is always 0, because mask 0 selects nothing |
| HammingBytes.ErrorCorrection | PR6/haming_coder.py:99-140 | `error_correction` flips the low bit of exactly the bytes its checks mark and reports an error exactly when one is marked |
| HammingBytes.FlipAll | PR6/haming_coder.py:130-140 | the flip loop flips the low bit at exactly the listed positions |
| HammingBytes.CorrectedChanges | PR6/haming_coder.py:99-140 | correction changes only the low bits, exactly at the marked bytes, and leaves a word with no marks alone |
| HammingBytes.ExtractInformationBits | PR6/haming_coder.py:142-159 | extraction drops the bytes at positions `2^j`, `j < k`, and keeps the rest |
| HammingBytes.WordsSplit | PR6/haming_coder.py:62 | the input splits into words of `word_size` bytes, the last possibly shorter, that concatenate back to the input |
| HammingBytes.Decode | PR6/haming_coder.py:40-80 | `decode` reports an error on empty input, raises for a word size of 0, and otherwise corrects and extracts every word |
| HammingBytes.DecodeCleanWord | PR6/haming_coder.py:40-80 | a one-word input with no marked bytes decodes to its bytes with the parity positions removed |
| HammingBytes.DecodedLength | PR6/haming_coder.py:66-78 | the decoded length is the number of kept positions over all words |
| HammingBlocks.ParityBits | test/hamming_coder_decoder.py:85-89 | the least `r >= 0` with `2^r >= n + r + 1` |
| HammingBlocks.CalculateParityBits | test/hamming_coder_decoder.py:85-89 | the search loop finds that least `r` |
| HammingBlocks.FillPositions | test/hamming_coder_decoder.py:46-49 | column `c` of the matrix holds the binary digits of `c + 1`, most significant first, and nothing else changes |
| HammingBlocks.SumAt | test/hamming_coder_decoder.py:51-53 | the row sum over the listed indices, None where an index is out of range |
| HammingBlocks.EncodeBlock | test/hamming_coder_decoder.py:42-60 | `_hamming_encode_block` returns what `EncodedBlock` specifies |
| HammingBlocks.FillParityRows | test/hamming_coder_decoder.py:51-53 | the row loop fills the parity rows, or fails at the first row with an index past the block |
| HammingBlocks.ColumnParities | test/hamming_coder_decoder.py:55-58 | the column loop yields each column's parity |
| HammingBlocks.EncodeBlockFails | test/hamming_coder_decoder.py:42-60 | encoding a block succeeds only for the empty block |
| HammingBlocks.NonEmptyBlockFails | test/hamming_coder_decoder.py:51-53 | every non-empty block fails at row 0, whose index list reaches past the block |
| HammingBlocks.Code | test/hamming_coder_decoder.py:12-24 | `code` returns what `Coded` specifies |
| HammingBlocks.EncodeAll | test/hamming_coder_decoder.py:21-22 | the block loop joins the encoded padded blocks, failing when one fails |
| HammingBlocks.CodeFails | test/hamming_coder_decoder.py:12-24 | `code` fails for a word size of 0 and for any non-empty data, and returns nothing for empty data or a negative size |
| HammingBlocks.PaddedWords | test/hamming_coder_decoder.py:13-19 | the padded blocks concatenate to the data followed by the zeros up to the next multiple of the word size |
| HammingBlocks.PyPrefix | test/hamming_coder_decoder.py:81 | Python's `block[:m]`, a negative `m` counting from the end |
| HammingBlocks.Syndromes | test/hamming_coder_decoder.py:71-74 | the syndrome loop yields each row's parity of the block's entries under that row |
| HammingBlocks.WeightedSum | test/hamming_coder_decoder.py:76 | the sum yields the error position, row `i` weighted `2^i` |
| HammingBlocks.DecodeBlock | test/hamming_coder_decoder.py:62-83 | `_hamming_decode_block` returns what `DecodedBlock` specifies |
| HammingBlocks.DecodedBlockEntries | test/hamming_coder_decoder.py:76-81 | decoding fails exactly when the error position is past the block or points at an entry other than 0/1; otherwise it flips that entry and keeps the first `n - r` entries |
| HammingBlocks.Decode | test/hamming_coder_decoder.py:26-34 | `decode` returns what `Decoded` specifies |
| HammingBlocks.DecodeAll | test/hamming_coder_decoder.py:32-33 | the block loop joins the decoded blocks, failing when one fails |
| HammingBlocks.DecodeBlocks | test/hamming_coder_decoder.py:26-34 | decoding fails for a word size of 0 and yields nothing for a negative one; blocks cut for a positive size are at least two bytes longer than the word, so for 4-byte words the 7-byte blocks need 4 rows, not 3 |
| HammingBlocks.SyndromeReversed | test/hamming_coder_decoder.py:76 | as written: the block `[1,0,0,0,0,0,0]` with its first entry in error fails to decode, because the syndrome weights are reversed |
| HammingBlocks.SingleFlipCorrected | test/hamming_coder_decoder.py:71-81 | corrected weighting: any single flipped entry of a block whose syndrome is zero is located and repaired |
| ChessMoves.StepsSound | MY_CHESS/chess_logic.py:102-145 | a king or knight move is a target of one of its offsets, on the board, onto an empty or opponent square |
| ChessMoves.StepsComplete | MY_CHESS/chess_logic.py:102-145 | every such target of an offset is a move |
| ChessMoves.StepMoves | MY_CHESS/chess_logic.py:117-121 | the offset loop returns the targets `Steps` specifies |
| ChessMoves.KingMoves | MY_CHESS/chess_logic.py:102-122 | `king_moves` gives at most eight moves: exactly the one-square targets on the board onto empty or opponent squares |
| ChessMoves.KnightMoves | MY_CHESS/chess_logic.py:124-145 | `knight_moves` gives at most eight moves: exactly the L-shaped targets on the board onto empty or opponent squares |
| ChessMoves.RayCells | MY_CHESS/chess_logic.py:164-175 | a ray is consecutive squares along its line, all empty except possibly the last, which is empty or an opponent's |
| ChessMoves.RayEnd | MY_CHESS/chess_logic.py:164-175 | a ray stops early only at the board's edge or before an own piece |
| ChessMoves.RayMoves | MY_CHESS/chess_logic.py:164-175 | the inner loop for one direction returns that direction's ray |
| ChessMoves.LinearMoves | MY_CHESS/chess_logic.py:147-176 | `linear_moves` returns the rays of its directions in order |
| ChessMoves.LinearAppend | MY_CHESS/chess_logic.py:147-176 | the moves for two lists of directions are the moves of the first list followed by those of the second |
| ChessMoves.QueenIsRookAndBishop | MY_CHESS/chess_logic.py:57-100 | a queen's moves are the rook's moves followed by the bishop's |
| ChessMoves.PawnMoves | MY_CHESS/chess_logic.py:31-55 | `pawn_moves` fails exactly when the pawn would step onto row 8; its moves stay in rows -1..7 |
| ChessMoves.PawnRules | MY_CHESS/chess_logic.py:31-55 | a pawn moves one square forward exactly onto an empty square, two only from its start row over two empty squares, diagonally exactly onto another colour's piece, and nowhere else |
| ChessMoves.ValidMoves | MY_CHESS/chess_logic.py:4-29 | `valid_moves` fails only for a pawn stepping onto row 8, and its moves stay in rows -1..7 |
| ChessMoves.GenerateMoves | MY_CHESS/chess_logic.py:4-29 | the loop-based generators return what `ValidMoves` specifies |
| ChessCheck.KingOfFirst | MY_CHESS/chess_logic.py:199-214 | `find_king` returns the first square in row-major order holding the king, or None when there is none |
| ChessCheck.FindKing | MY_CHESS/chess_logic.py:199-214 | the scan loop returns what `KingOf` specifies |
| ChessCheck.CheckMeaning | MY_CHESS/chess_logic.py:178-197 | `is_in_check` is true only when some opponent piece's moves reach the king; false exactly when none does and no scan fails; a failure only from a black pawn on row 7 when checking white; never true without a king |
| ChessCheck.IsInCheck | MY_CHESS/chess_logic.py:178-197 | the scan loop returns what `InCheck` specifies |
| ChessCheck.Moved | MY_CHESS/chess_logic.py:234-236 | the trial board empties the origin, puts the piece on the target, and keeps every other square |
| ChessCheck.EscapeMeaning | MY_CHESS/chess_logic.py:233-238 | a piece has no escape exactly when every trial move leaves the king in check, and has one when some trial move does not |
| ChessCheck.ScanMeaning | MY_CHESS/chess_logic.py:229-238 | the board scan says mate exactly when no square offers an escape |
| ChessCheck.SquareMeaning | MY_CHESS/chess_logic.py:229-238 | a square offers no escape exactly when it holds no own piece or its piece is stuck |
| ChessCheck.CheckmateMeaning | MY_CHESS/chess_logic.py:216-239 | `is_checkmate` is true exactly when the side is in check and every own piece is stuck, and false when the side is not in check |
| ChessCheck.IsCheckmate | MY_CHESS/chess_logic.py:216-239 | the scan loops return what `Checkmate` specifies |
| Queens.NQueens.constructor | ota_lb3.py:21-29 | a new solver has a board of `n` empty rows (-1), none for a negative `n` |
| Queens.NQueens.IsSafe | ota_lb3.py:61-75 | `_is_safe` is true exactly when no earlier row's queen shares the column or a diagonal |
| Queens.PlaceQueen | ota_lb3.py:53-56 | a queen in the next row keeps the placement valid exactly when its column is on the board and safe |
| Queens.UnsafeDead | ota_lb3.py:53-54 | no complete solution extends a prefix that ends in an unsafe column |
| Queens.ExtendableStep | ota_lb3.py:53-59 | a prefix whose every next column leads nowhere cannot be completed |
| Queens.NQueens.Backtrack | ota_lb3.py:41-59 | `_backtrack(row)` succeeds exactly when the placed rows extend to a full solution, which it then leaves on the board; on failure the placed rows are unchanged and later rows are reset or untouched |
| Queens.NQueens.TryColumn | ota_lb3.py:53-58 | placing a safe column and recursing either completes a solution or proves that no solution starts with that column |
| Queens.NQueens.Solve | ota_lb3.py:31-39 | `solve` returns the board: a full valid placement when one exists, and otherwise only empty or untouched rows |
| Queens.NoTwoQueens | ota_lb3.py:31-39 | two queens cannot be placed on a 2 x 2 board |
| Queens.FourQueens | ota_lb3.py:31-39 | four queens can be placed on a 4 x 4 board |
| Bfs.ClosedHoldsReachable | ota_lb4.py:23-30 | a vertex set that holds the start and is closed under edges holds every vertex reachable from the start |
| Bfs.Scan | ota_lb4.py:26-30 | the neighbour loop visits every unvisited neighbour, records the vertex as its parent, queues it, and marks nothing else |
| Bfs.Dequeue | ota_lb4.py:24-30 | one dequeue and scan keeps the search invariant and moves the queue's head on |
| Bfs.Finished | ota_lb4.py:23-32 | when the queue is empty, a vertex other than the start has a parent exactly when it is reachable, and each parent is reachable and linked to it by an edge |
| Bfs.Search | ota_lb4.py:15-32 | `bfs` gives the start no parent, gives every other vertex a parent exactly when it is reachable, each parent being a reachable vertex with an edge to it that was queued before it, and queues each reachable vertex once |
| Bfs.BuildTreeMatrix | ota_lb4.py:34-44 | the tree matrix has a 1 at `(i, j)` exactly when one of the two is the other's parent |
| Bfs.TreeMatrixShape | ota_lb4.py:34-44 | the tree matrix is symmetric and each of its edges is an edge of the graph |
| Bfs.SearchTree | ota_lb4.py:15-44 | an unreachable vertex has no edge in the search tree |
| Bfs.ChainTo | ota_lb4.py:24-30 | following parents back from any queued vertex reaches the start along tree edges |
| Bfs.SearchTreeConnected | ota_lb4.py:15-44 | every vertex reachable from the start is joined to it by a walk along the 1s of the tree matrix, so the parents form a tree rooted at the start |
| Caesar.PyMod | PR11/caesar.py:30 | Python's `%` takes the sign of the divisor |
| Caesar.Ciphered | PR11/caesar.py:14-33 | the cipher fails exactly when some letter cannot be shifted (`n == 0`, or a value outside `0 .. 0x10FFFF` or among the surrogates); otherwise every character is its shift |
| Caesar.CaesarCipher | PR11/caesar.py:26-33 | the character loop returns what `Ciphered` specifies |
| Caesar.ShiftChar26 | PR11/caesar.py:28-32 | for 26 letters a letter stays a letter of its case, moved `key` places round its alphabet, and every other character is kept |
| Caesar.Cipher26 | PR11/caesar.py:14-33 | for 26 letters the cipher never fails, keeps length, case and non-letters |
| Caesar.KeyPeriodic | PR11/caesar.py:30 | keys that differ by `n` encrypt alike |
| Caesar.CharRoundTrip | PR11/caesar.py:28-32 | shifting by `-key` undoes shifting a character by `key` |
| Caesar.RoundTrip | PR11/caesar.py:14-33 | decrypting with `-key` undoes encrypting with `key` |
| CyrillicCaesar.AlphabetLiteral | PR12/cli.py:13 | the alphabet is the 33 Russian lower-case letters, 'ё' after 'е' |
| CyrillicCaesar.AlphabetDistinct | PR12/cli.py:13 | no letter appears twice in the alphabet, so `index` is its position |
| CyrillicCaesar.Decrypted | PR12/cli.py:12-21 | each alphabet letter moves back `shift` places round the alphabet and every other character is kept |
| CyrillicCaesar.CaesarDecrypt | PR12/cli.py:14-21 | the character loop returns what `Decrypted` specifies |
| CyrillicCaesar.DecryptCharShape | PR12/cli.py:16-20 | a character is an alphabet letter exactly when its decryption is, and its index moves by `-shift` mod 33 |
| CyrillicCaesar.DecryptedShape | PR12/cli.py:12-21 | decryption keeps the length and which positions hold alphabet letters |
| CyrillicCaesar.ShiftPeriodic | PR12/cli.py:17 | shifts that differ by 33 decrypt alike |
| CyrillicCaesar.ShiftZero | PR12/cli.py:12-21 | a zero shift changes nothing |
| CyrillicCaesar.CharRoundTrip | PR12/cli.py:16-20 | decrypting with `-shift` undoes decrypting a character with `shift` |
| CyrillicCaesar.RoundTrip | PR12/cli.py:12-21 | decrypting with `shift` and then `-shift` gives the text back, so one function both encrypts and decrypts |

## Left out

- File, JSON and INI input and output are not modelled. Reading texts, `code.json`,
  `huffman_codes.json`, `settings.ini`, and the binary and decoded-text files becomes
  parameters and results.
- The GUI, logging, printing and command-line front ends are not modelled. This covers
  `print_data`, `draw_board`, `print_matrix`, every `main`, and the settings, logger and
  main code of `PR6/haming_coder.py` (lines 257-294).
- `calculate_entropy`, `calculate_compression_ratio` and `shannon_entropy` are not
  modelled; they compute in floating point.
- Both `noise` functions are not modelled; they draw random numbers.
- The multiprocessing worker `encrypt_decrypt_worker` is not modelled. It only calls
  `caesar_cipher` on queued items.
- `brute_force` is not modelled; it runs on a process pool.
- `download_russian_dictionary` is not modelled; it uses the network.
- The iteration order of `set(text)` depends on hashing. The letter enumeration is a
  parameter of `DescendingTree.HuffmanTree.constructor` and `HuffmanCoders.BuildTree`.
- Caesar.CaesarCipher: requires an ASCII text, because Unicode's `isalpha` and `isupper`
  tables are not modelled.
- Caesar.Ciphered: a shifted letter that lands on a surrogate (`0xD800 .. 0xDFFF`) gives
  `None`, because a Dafny `char` cannot hold a surrogate; Python's `chr` returns one. The
  same holds for `Caesar.CaesarCipher`.
- Bits.SaveBinary: packs only strings of ASCII '0' and '1'. Python's
  `int(chunk, 2)` also reads chunks with surrounding whitespace, a sign, a `0b` prefix,
  underscores or non-ASCII binary digits; the model gives `None` for those.
- HuffmanCoders.HuffmanCoder.SaveBinCode: inherits the same restriction from
  `Bits.SaveBinary`.
- HammingStrings.CheckParity: reads only the ASCII digits. Python's `int` also
  reads a single non-ASCII Unicode decimal digit; the model gives `None` for it.
- HammingStrings.Encode: gives `None` for data holding a non-ASCII Unicode decimal
  digit, which Python encodes, for the same reason.
- HammingStrings.Decode: gives `None` for a word holding a non-ASCII Unicode decimal
  digit, which Python reads, for the same reason.
- Chess boards are values rather than mutable lists. Every chess member requires an 8 x 8
  board of two-character squares, and the trial move of `is_checkmate` is a new board
  value.
- ChessMoves.ValidMoves: requires an on-board start square and a piece of two characters,
  which the game always passes.
- Pawn promotion and every other rule the source does not implement are not modelled.
  This includes castling, en passant and the king's own safety in `valid_moves`.
- Bfs.Search: requires a square adjacency matrix and a start vertex inside it. A negative
  start or ragged rows are not modelled.
- GroupHuffman.Huffman.DecodeOrEmpty: a missing `settings.ini`, a missing `[Huffman]` section
  and a missing `Word_Length` option all end in a `KeyError`, which is not caught; the model
  gives the failure `None`. Only a missing or unparsable `huffman_codes.json` and a
  non-numeric `Word_Length` give "".
- AscendingTree.HuffmanTree.constructor: requires a non-empty text. On an empty text
  `_build_tree` raises `IndexError`; `AscendingTree.BuildTree` models that case as `None`.
- The in-place list updates of the group coder (`pair[1] = '0' + pair[1]`) are modelled
  on values. Python's heap entries share no lists between rounds, so no aliasing is lost.
- The `bytearray` and list updates of the Hamming coders are modelled on sequences.
- HammingBytes.Decode: the word size is a parameter. Reading it from the settings file is
  not modelled, and neither are a non-numeric setting or a missing section.
- Python's unbounded `int` needs no wrap-around, so none is modelled.
- The encoder of `test/hamming_coder_decoder.py` is modelled as written: it fails on every
  non-empty block (`HammingBlocks.NonEmptyBlockFails`, `HammingBlocks.CodeFails`). The
  matrix it builds corresponds to no layout the decoder reads, so no corrected encoder is
  modelled.

## Findings

| source | as written | input that shows it | evidently intended | confidence | as-written member | corrected member |
|---|---|---|---|---|---|---|
| PR6/huffman_coding.py:57-96 | the saved bits are padded with 1 to 8 zeros and the decoder decodes the padding as symbols | the text "aab" with the codes b = 0, a = 1 is saved as "110" plus five zeros and decodes to "aabbbbbb" | decoding stops after the text's own symbols, for example by cutting to the saved length | not executed | HuffmanCoders.PaddingDecodesAsText | HuffmanCoders.SavedRoundTrip |
| PR6/huffman_pr6.py:38-80 | a text of one repeated symbol gets the empty code, so it encodes to "" and decodes to "" although its length is saved | "aaa" encodes to "" and decodes to "" | a lone symbol gets a one-bit code, so the text comes back | not executed | GroupHuffman.SingleSymbolLost | GroupHuffman.CorrectedRoundTrip |
| test/hamming_coder_decoder.py:76 | the error position weights syndrome row `i` with `2^i`, while the matrix writes the most significant digit in row 0 | the block `[1,0,0,0,0,0,0]`, a zero codeword with its first entry flipped, gives position 8 and fails | row `i` weighted `2^(r-1-i)`, which locates and repairs any single flipped entry | not executed | HammingBlocks.SyndromeReversed | HammingBlocks.SingleFlipCorrected |
