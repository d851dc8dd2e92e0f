/** The `HuffmanCoder` class of `PR5/hyffman_code.py`, `PR6/huffman_coding.py` and
    `test/hyffman.py`. One object holds the loaded text, the code table it fills, the loaded
    bit string and the decoded text; its tree nodes are `HuffmanCoder` objects with `left`
    and `right` only, modelled by `CodeTrees.Tree`.

    The three copies share `encode`, `walk`, `save_bin_code` and `bin_file_loader`. The first
    two `decode` with a freshly loaded `code.json` table and, when bits are left over, append
    the first character whose code starts with them; `test/hyffman.py` decodes with the table
    already in `self.json` and drops left-over bits. */
module HuffmanCoders {
  import opened Wrappers
  import opened Dicts
  import opened Bits
  import opened CodeTrees
  import opened Forests
  import opened Frequencies
  import opened SortTrees
  import CodecLoops

  /** The first entry whose code starts with `rest`, as the trailing-bit recovery finds it. */
  function FirstWithPrefix(table: Dict<char, string>, rest: string): (r: Option<char>)
    ensures r.None? <==> forall i :: 0 <= i < |table| ==> !IsPrefix(rest, table[i].1)
    ensures r.Some? ==> exists i :: 0 <= i < |table| && table[i].0 == r.value && IsPrefix(rest, table[i].1) &&
                                    forall j :: 0 <= j < i ==> !IsPrefix(rest, table[j].1)
  {
    if table == [] then None
    else if IsPrefix(rest, table[0].1) then
      Some(table[0].0)
    else
      var r := FirstWithPrefix(table[1..], rest);
      if r.Some? then
        var i :| 0 <= i < |table[1..]| && table[1..][i].0 == r.value && IsPrefix(rest, table[1..][i].1) &&
                 forall j :: 0 <= j < i ==> !IsPrefix(rest, table[1..][j].1);
        assert table[i + 1] == table[1..][i];
        assert forall j :: 0 <= j < i + 1 ==> !IsPrefix(rest, table[j].1) by {
          forall j | 0 <= j < i + 1 ensures !IsPrefix(rest, table[j].1) {
            if j > 0 { assert table[j] == table[1..][j - 1]; }
          }
        }
        r
      else
        assert forall i :: 0 <= i < |table| ==> !IsPrefix(rest, table[i].1) by {
          forall i | 0 <= i < |table| ensures !IsPrefix(rest, table[i].1) {
            if i > 0 { assert table[i] == table[1..][i - 1]; }
          }
        }
        r
  }

  /** What one `decode` call appends to `decoded_text`: the exact-match decoding of `bits`
      and, with `recover`, one more character for left-over bits that begin some code. */
  function Decoded(table: Dict<char, string>, bits: string, recover: bool): (r: string)
    ensures !recover ==> r == Scan(FirstMatch(table), ("", ""), bits).0
    ensures Scan(FirstMatch(table), ("", ""), bits).1 == "" ==> r == Scan(FirstMatch(table), ("", ""), bits).0
  {
    var (out, rest) := Scan(FirstMatch(table), ("", ""), bits);
    if recover && rest != "" then
      match FirstWithPrefix(table, rest)
      case Some(c) => out + [c]
      case None => out
    else out
  }

  /** Decoding the encoding of a text over a Huffman table gives the text back, whether or
      not left-over bits are recovered: none are left over. */
  lemma DecodedRoundTrip(t: Tree, text: string, recover: bool)
    requires t.Node? && DistinctLeaves(t)
    requires forall i :: 0 <= i < |text| ==> text[i] in Leaves(t)
    ensures Encode(text, Walk(t, "", [])).Some?
    ensures Decoded(Walk(t, "", []), Encode(text, Walk(t, "", [])).value, recover) == text
  {
    TreeTableRoundTrip(t, text);
  }

  /** The bytes written by `save_bin_code` and read back by `bin_file_loader` decode to more
      than the text: for "aab" the tree is `Node('b', 'a')` whichever order `set(text)` gives,
      the codes are b = "0" and a = "1", the encoding "110" is padded with five zeros, and
      each padding zero decodes as another 'b'. */
  lemma PaddingDecodesAsText()
    ensures var table := Walk(Node(Leaf('b'), Leaf('a')), "", []);
            table == [('b', "0"), ('a', "1")] &&
            Encode("aab", table) == Some("110") &&
            SaveBinary("110").Some? &&
            Decoded(table, Unpack(SaveBinary("110").value), true) == "aabbbbbb"
  {
    AabTable();
    AabSaved();
    AabDecoded();
  }

  lemma AabTable()
    ensures Walk(Node(Leaf('b'), Leaf('a')), "", []) == [('b', "0"), ('a', "1")]
    ensures Encode("aab", [('b', "0"), ('a', "1")]) == Some("110")
  {
    AabWalk();
    AabEncode();
  }

  lemma AabWalk()
    ensures Walk(Node(Leaf('b'), Leaf('a')), "", []) == [('b', "0"), ('a', "1")]
  {
    TwoLeafWalk('b', 'a', "");
    assert "" + "0" == "0" && "" + "1" == "1";
  }

  /** A tree of two distinct leaves gives the left one code `0` and the right one `1`. */
  lemma TwoLeafWalk(x: char, y: char, path: string)
    requires x != y
    ensures Walk(Node(Leaf(x), Leaf(y)), path, []) == [(x, path + "0"), (y, path + "1")]
  {
    PutFirst(x, path + "0");
    PutSecond([(x, path + "0")], y, path + "1");
  }

  lemma PutFirst(k: char, v: string)
    ensures Put([], k, v) == [(k, v)]
  {
    var empty: Dict<char, string> := [];
    assert !HasKey(empty, k);
  }

  lemma PutSecond(d: Dict<char, string>, k: char, v: string)
    requires |d| == 1 && d[0].0 != k
    ensures Put(d, k, v) == d + [(k, v)]
  {
    assert !HasKey(d, k);
  }

  lemma AabEncode()
    ensures Encode("aab", [('b', "0"), ('a', "1")]) == Some("110")
  {
    var table := [('b', "0"), ('a', "1")];
    assert DistinctKeys(table) && table[0] == ('b', "0") && table[1] == ('a', "1");
    assert Get(table, 'a') == Some("1") && Get(table, 'b') == Some("0");
    assert Encode("", table) == Some("");
    assert "a"[..0] == "" && "" + "1" == "1";
    assert Encode("a", table) == Some("1");
    assert "aa"[..1] == "a" && "1" + "1" == "11";
    assert Encode("aa", table) == Some("11");
    assert "aab"[..2] == "aa" && "11" + "0" == "110";
  }

  lemma AabSaved()
    ensures SaveBinary("110").Some? && Unpack(SaveBinary("110").value) == "110" + Zeros(5)
  {
    assert IsBits("110");
  }

  /** Under b = "0", every zero bit decodes as a 'b'. */
  lemma {:induction false} ZerosDecodeAsB(out: string, n: nat)
    ensures Scan(FirstMatch([('b', "0"), ('a', "1")]), (out, ""), Zeros(n)) == (out + seq(n, _ => 'b'), "")
    decreases n
  {
    var lk := FirstMatch([('b', "0"), ('a', "1")]);
    if n == 0 {
      assert out + seq(0, _ => 'b') == out;
    } else {
      assert Zeros(n)[0] == '0' && Zeros(n)[1..] == Zeros(n - 1);
      assert "" + ['0'] == "0";
      assert Step(lk, (out, ""), '0') == (out + ['b'], "");
      ZerosDecodeAsB(out + ['b'], n - 1);
      assert out + ['b'] + seq(n - 1, _ => 'b') == out + seq(n, _ => 'b');
    }
  }

  lemma AabDecoded()
    ensures Decoded([('b', "0"), ('a', "1")], "110" + Zeros(5), true) == "aabbbbbb"
  {
    var lk := FirstMatch([('b', "0"), ('a', "1")]);
    assert Find(lk, "0") == Some('b') && Find(lk, "1") == Some('a');
    assert "" + ['0'] == "0" && "" + ['1'] == "1";
    assert "aa" + ['b'] == "aab" && "a" + ['a'] == "aa" && "" + ['a'] == "a";
    assert Step(lk, ("aa", ""), '0') == ("aab", "");
    assert Step(lk, ("a", ""), '1') == ("aa", "");
    assert Step(lk, ("", ""), '1') == ("a", "");
    assert "0"[1..] == "" && "10"[1..] == "0" && "110"[1..] == "10";
    assert "0"[0] == '0' && "10"[0] == '1' && "110"[0] == '1';
    assert Scan(lk, ("aab", ""), "") == ("aab", "");
    assert Scan(lk, ("aa", ""), "0") == ("aab", "");
    assert Scan(lk, ("a", ""), "10") == ("aab", "");
    assert Scan(lk, ("", ""), "110") == ("aab", "");
    ScanAppend(lk, ("", ""), "110", Zeros(5));
    ZerosDecodeAsB("aab", 5);
    assert "aab" + seq(5, _ => 'b') == "aabbbbbb";
  }

  /** Decoding against a recorded text length, as `PR6/huffman_pr6.py` does: keep the first
      `n` decoded characters. */
  function DecodedUpTo(table: Dict<char, string>, bits: string, n: int): (r: string)
    ensures |r| <= |Scan(FirstMatch(table), ("", ""), bits).0|
  {
    SlicePrefix(Scan(FirstMatch(table), ("", ""), bits).0, n)
  }

  /** With the text length recorded, what `save_bin_code` writes and `bin_file_loader` reads
      back decodes to exactly the text, padding included. */
  lemma SavedRoundTrip(t: Tree, text: string)
    requires t.Node? && DistinctLeaves(t)
    requires forall i :: 0 <= i < |text| ==> text[i] in Leaves(t)
    ensures Encode(text, Walk(t, "", [])).Some?
    ensures SaveBinary(Encode(text, Walk(t, "", [])).value).Some?
    ensures DecodedUpTo(Walk(t, "", []), Unpack(SaveBinary(Encode(text, Walk(t, "", [])).value).value), |text|) == text
  {
    var table := Walk(t, "", []);
    TreeTableRoundTrip(t, text);
    var e := Encode(text, table).value;
    assert IsBits(e) by {
      TableOfTree(t);
      EncodedIsBits(text, table);
    }
    PaddedScan(FirstMatch(table), text, e);
  }

  /** Zero padding after a string that decodes completely only adds characters after the
      decoded text. */
  lemma PaddedScan(lk: Lookup, text: string, e: string)
    requires Scan(lk, ("", ""), e) == (text, "")
    ensures SlicePrefix(Scan(lk, ("", ""), e + Zeros(PadLength(|e|))).0, |text|) == text
  {
    var z := Zeros(PadLength(|e|));
    ScanAppend(lk, ("", ""), e, z);
    ScanExtends(lk, (text, ""), z);
  }

  /** The `for char, code in self.json.items(): if code.startswith(current_code)` loop. */
  method SearchPrefix(table: Dict<char, string>, rest: string) returns (r: Option<char>)
    ensures r == FirstWithPrefix(table, rest)
  {
    var j := 0;
    while j < |table|
      invariant 0 <= j <= |table|
      invariant FirstWithPrefix(table[j..], rest) == FirstWithPrefix(table, rest)
    {
      assert table[j..][1..] == table[j + 1..];
      if IsPrefix(rest, table[j].1) {
        return Some(table[j].0);
      }
      j := j + 1;
    }
    r := None;
  }

  /** The tree-building part of `encode`: one `(text.count(letter), letter)` pair per letter,
      appended in a loop, then the descending merge loop and `frequencies[0][1]`, which is
      None for an empty text (`IndexError`). */
  method BuildTree(text: string, letters: seq<char>) returns (root: Option<Tree>)
    requires EnumeratesLetters(letters, text)
    ensures root.None? <==> text == []
    ensures root.Some? ==> multiset(Leaves(root.value)) == multiset(letters) && DistinctLeaves(root.value)
    ensures root.Some? ==> forall c :: c in text <==> c in Leaves(root.value)
    ensures root.Some? && |letters| >= 2 ==> root.value.Node?
  {
    var frequencies: seq<Item> := [];
    var i := 0;
    while i < |letters|
      invariant 0 <= i <= |letters|
      invariant frequencies == LetterCounts(text, letters[..i])
    {
      frequencies := frequencies + [Item(Count(text, letters[i]), Leaf(letters[i]))];
      i := i + 1;
    }
    assert letters[..i] == letters;
    LetterCountsTotals(text, letters);
    assert text == [] <==> letters == [] by {
      if text != [] { assert text[0] in letters; }
      if letters != [] { assert letters[0] in text; }
    }
    LeafBagEmpty(frequencies);
    frequencies := MergeDescending(frequencies);
    if frequencies == [] {
      return None;
    }
    SingleRoot(frequencies, letters);
    root := Some(frequencies[0].tree);
    assert forall c :: c in Leaves(root.value) <==> c in multiset(letters);
  }

  class HuffmanCoder {
    var code: Dict<char, string>
    var json: Dict<char, string>
    var bin: Option<string>
    var text: Option<string>
    var decodedText: string

    /** `__init__`: empty tables, nothing loaded, nothing decoded. */
    constructor ()
      ensures code == [] && json == [] && bin == None && text == None && decodedText == ""
    {
      code, json, bin, text, decodedText := [], [], None, None, "";
    }

    /** `bin_file_loader` after reading the file: eight '0'/'1' characters per byte,
        most significant bit first. */
    method BinFileLoader(bytes: seq<Byte>)
      modifies this
      ensures bin == Some(Unpack(bytes)) && |bin.value| == 8 * |bytes| && IsBits(bin.value)
      ensures Pack(bin.value) == bytes
      ensures code == old(code) && json == old(json) && text == old(text) && decodedText == old(decodedText)
    {
      bin := Some(Unpack(bytes));
      PackUnpack(bytes);
    }

    /** `walk(node, path)`: a string leaf stores `path` in `self.code`; a node recurses left
        with '0' and right with '1'. Each leaf character gets `path` followed by its code;
        entries for other characters are kept. */
    method Walk(node: Tree, path: string)
      modifies this
      ensures code == CodeTrees.Walk(node, path, old(code))
      ensures forall c :: Get(code, c) == if c in Leaves(node) then Some(path + CodeOf(node, c)) else Get(old(code), c)
      ensures json == old(json) && bin == old(bin) && text == old(text) && decodedText == old(decodedText)
      decreases node
    {
      if node.Leaf? {
        code := Put(code, node.sym, path);
      } else {
        Walk(node.left, path + "0");
        Walk(node.right, path + "1");
      }
      forall c ensures Get(code, c) == if c in Leaves(node) then Some(path + CodeOf(node, c)) else Get(old(code), c) {
        WalkGet(node, path, old(code), c);
      }
    }

    /** `encode`: with no text loaded nothing changes; otherwise one `(count, letter)` pair per
        letter of `set(text)` (enumerated as `letters`), the descending merge loop, and `walk`
        from the root, which adds each letter's code to `self.code` and keeps older entries.
        An empty text raises `IndexError` at `frequencies[0]` before `walk`. Returns the root
        that was walked. */
    method Encode(letters: seq<char>) returns (root: Option<Tree>)
      requires text.Some? ==> EnumeratesLetters(letters, text.value)
      modifies this
      ensures root.None? <==> text.None? || text.value == []
      ensures root.None? ==> code == old(code)
      ensures root.Some? ==> code == CodeTrees.Walk(root.value, "", old(code))
      ensures root.Some? ==> multiset(Leaves(root.value)) == multiset(letters) && DistinctLeaves(root.value)
      ensures root.Some? && |letters| >= 2 ==> root.value.Node?
      ensures root.Some? ==> forall c :: c in text.value <==> c in Leaves(root.value)
      ensures root.Some? ==> forall c :: Get(code, c) == if c in text.value then Some(CodeOf(root.value, c)) else Get(old(code), c)
      ensures json == old(json) && bin == old(bin) && text == old(text) && decodedText == old(decodedText)
    {
      if text.None? {
        return None;
      }
      root := BuildTree(text.value, letters);
      if root.Some? {
        Walk(root.value, "");
        assert forall p: string :: "" + p == p;
      }
    }

    /** `decode` of `PR5/hyffman_code.py` and `PR6/huffman_coding.py`, with the `code.json`
        table passed in as `loaded`: with no bit string loaded nothing changes; otherwise the
        table is kept in `self.json`, the bits are decoded by exact match against it, left-over
        bits recover the first character whose code they begin, and the result is appended to
        `decoded_text`, which is never reset. */
    method Decode(loaded: Dict<char, string>)
      modifies this
      ensures bin.None? ==> json == old(json) && decodedText == old(decodedText)
      ensures bin.Some? ==> json == loaded && decodedText == old(decodedText) + Decoded(loaded, bin.value, true)
      ensures code == old(code) && bin == old(bin) && text == old(text)
    {
      if bin.None? {
        return;
      }
      json := loaded;
      var out, rest := CodecLoops.MatchDecode(FirstMatch(json), "", bin.value);
      if rest != "" {
        var c := SearchPrefix(json, rest);
        if c.Some? {
          out := out + [c.value];
        }
      }
      decodedText := decodedText + out;
    }

    /** `decode` of `test/hyffman.py`: decodes against the table already in `self.json` and
        drops left-over bits. */
    method DecodeStored()
      modifies this
      ensures bin.None? ==> decodedText == old(decodedText)
      ensures bin.Some? ==> decodedText == old(decodedText) + Decoded(json, bin.value, false)
      ensures code == old(code) && json == old(json) && bin == old(bin) && text == old(text)
    {
      if bin.None? {
        return;
      }
      var out, rest := CodecLoops.MatchDecode(FirstMatch(json), "", bin.value);
      decodedText := decodedText + out;
    }

    /** The bytes `save_bin_code` writes: the text encoded with `self.code`, padded with
        `8 - len % 8` zeros and packed eight bits per byte. None where Python raises (no text
        loaded, a character without a code) and, as in `Bits.SaveBinary`, wherever the
        encoding is not a string of '0' and '1'. */
    method SaveBinCode() returns (r: Option<seq<Byte>>)
      ensures text.None? ==> r.None?
      ensures text.Some? ==> (r.None? <==> CodeTrees.Encode(text.value, code).None? || !IsBits(CodeTrees.Encode(text.value, code).value))
      ensures r.Some? ==> var e := CodeTrees.Encode(text.value, code).value;
                          Unpack(r.value) == e + Zeros(PadLength(|e|)) && |r.value| == (|e| + PadLength(|e|)) / 8
    {
      if text.None? {
        return None;
      }
      var encoded := CodecLoops.EncodeText(text.value, code);
      if encoded.None? {
        return None;
      }
      r := SaveBinary(encoded.value);
    }
  }
}
