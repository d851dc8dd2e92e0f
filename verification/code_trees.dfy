/** Huffman code trees, the code tables read off them, and the two ways the coders decode.

    A tree is a leaf holding a character or an inner node with a left and a right child; the
    table maps each leaf character to its root-to-leaf path, `'0'` for a left step and `'1'`
    for a right step. Decoding either walks the tree bit by bit (`decode_text`) or
    accumulates bits until they equal a code in the table and emits that code's character. */
module CodeTrees {
  import opened Wrappers
  import opened Dicts
  import opened Bits

  datatype Tree = Leaf(sym: char) | Node(left: Tree, right: Tree)

  /** The leaf characters from left to right. */
  function Leaves(t: Tree): (s: seq<char>)
    ensures |s| >= 1
  {
    match t
    case Leaf(c) => [c]
    case Node(l, r) => Leaves(l) + Leaves(r)
  }

  predicate Distinct<T(==)>(s: seq<T>) {
    forall i, j :: 0 <= i < j < |s| ==> s[i] != s[j]
  }

  predicate DistinctLeaves(t: Tree) {
    Distinct(Leaves(t))
  }

  /** The path to `c` that a left-then-right traversal writes last (the only one when leaves
      are distinct). */
  function CodeOf(t: Tree, c: char): (p: string)
    requires c in Leaves(t)
    ensures IsBits(p)
    ensures t.Node? ==> p != []
  {
    match t
    case Leaf(_) => ""
    case Node(l, r) => if c in Leaves(r) then "1" + CodeOf(r, c) else "0" + CodeOf(l, c)
  }

  /** The recursive traversal shared by `build_encoding_table`, `_traverse_tree`,
      `_generate_codes_helper`, `generate_codes` and `walk`: at a leaf `table[leaf] = path`,
      at an inner node the left subtree with `path + '0'`, then the right with `path + '1'`. */
  function Walk(t: Tree, path: string, d: Dict<char, string>): (r: Dict<char, string>)
    ensures DistinctKeys(d) ==> DistinctKeys(r)
  {
    match t
    case Leaf(c) => Put(d, c, path)
    case Node(l, r) => Walk(r, path + "1", Walk(l, path + "0", d))
  }

  /** After the traversal every leaf character maps to `path` followed by its code, and every
      other key keeps its old entry. */
  lemma {:induction false} WalkGet(t: Tree, path: string, d: Dict<char, string>, c: char)
    ensures Get(Walk(t, path, d), c) == if c in Leaves(t) then Some(path + CodeOf(t, c)) else Get(d, c)
  {
    match t
    case Leaf(x) =>
      assert path + CodeOf(t, x) == path;
    case Node(l, r) =>
      WalkGet(l, path + "0", d, c);
      WalkGet(r, path + "1", Walk(l, path + "0", d), c);
      assert Leaves(t) == Leaves(l) + Leaves(r);
      if c in Leaves(r) {
        Assoc(path, "1", CodeOf(r, c));
      } else if c in Leaves(l) {
        Assoc(path, "0", CodeOf(l, c));
      }
  }

  lemma InitLast(s: string)
    requires s != []
    ensures s[..|s| - 1] + [s[|s| - 1]] == s
  {
  }

  lemma Assoc(a: string, b: string, c: string)
    ensures a + b + c == a + (b + c)
  {
  }

  /** `generate_codes(node, path, code)` / `build_encoding_table(node, prefix, encoding_table)`:
      a leaf stores `path`, a node recurses left with '0' and right with '1', and a missing
      table (`None`) starts from a fresh dict. Every leaf character ends up with `path`
      followed by its code in `node`, and other entries are kept. */
  function CodeTable(node: Tree, path: string, code: Option<Dict<char, string>>): (r: Dict<char, string>)
    ensures forall c :: Get(r, c) == if c in Leaves(node) then Some(path + CodeOf(node, c))
                                     else if code.None? then None else Get(code.value, c)
  {
    var start := if code.None? then [] else code.value;
    assert forall c :: Get(Walk(node, path, start), c) ==
                       (if c in Leaves(node) then Some(path + CodeOf(node, c)) else Get(start, c)) by {
      forall c { WalkGet(node, path, start, c); }
    }
    Walk(node, path, start)
  }

  /** `s` is a prefix of `t` (Python's `t.startswith(s)`). */
  predicate IsPrefix(s: string, t: string) {
    |s| <= |t| && t[..|s|] == s
  }

  /** No code is a prefix of another entry's code (so, in particular, codes are distinct). */
  ghost predicate PrefixFree(table: Dict<char, string>) {
    DistinctKeys(table) &&
    forall i, j :: 0 <= i < |table| && 0 <= j < |table| && i != j ==> !IsPrefix(table[i].1, table[j].1)
  }

  ghost predicate NonEmptyCodes(table: Dict<char, string>) {
    forall i :: 0 <= i < |table| ==> table[i].1 != []
  }

  /** With distinct leaves no leaf's code is a prefix of another leaf's code. */
  lemma {:induction false} CodesPrefixFree(t: Tree, a: char, b: char)
    requires DistinctLeaves(t) && a in Leaves(t) && b in Leaves(t) && a != b
    ensures !IsPrefix(CodeOf(t, a), CodeOf(t, b))
  {
    match t
    case Leaf(x) =>
    case Node(l, r) =>
      var ls, rs := Leaves(l), Leaves(r);
      assert Leaves(t) == ls + rs;
      assert DistinctLeaves(l) by {
        forall i, j | 0 <= i < j < |ls| ensures ls[i] != ls[j] {
          assert Leaves(t)[i] == ls[i] && Leaves(t)[j] == ls[j];
        }
      }
      assert DistinctLeaves(r) by {
        forall i, j | 0 <= i < j < |rs| ensures rs[i] != rs[j] {
          assert Leaves(t)[|ls| + i] == rs[i] && Leaves(t)[|ls| + j] == rs[j];
        }
      }
      if a in rs && b in rs {
        CodesPrefixFree(r, a, b);
        PrefixCons("1", CodeOf(r, a), CodeOf(r, b));
      } else if a !in rs && b !in rs {
        CodesPrefixFree(l, a, b);
        PrefixCons("0", CodeOf(l, a), CodeOf(l, b));
      } else {
        PrefixHeads(CodeOf(t, a), CodeOf(t, b));
      }
  }

  /** A common first part does not decide whether one string is a prefix of another. */
  lemma PrefixCons(p: string, s: string, u: string)
    ensures IsPrefix(p + s, p + u) <==> IsPrefix(s, u)
  {
    if |s| <= |u| {
      var x := u[..|s|];
      assert (p + u)[..|p + s|] == p + x;
      assert (p + x)[|p|..] == x && (p + s)[|p|..] == s;
    }
  }

  /** Strings that differ at the start are not prefixes of each other. */
  lemma PrefixHeads(s: string, u: string)
    requires s != [] && u != [] && s[0] != u[0]
    ensures !IsPrefix(s, u)
  {
    if |s| <= |u| {
      assert u[..|s|][0] == u[0];
    }
  }

  /** The table a fresh traversal of a tree produces: one entry per leaf character, holding
      that leaf's path; prefix-free when the leaves are distinct, and free of empty codes when
      the root is an inner node. */
  lemma TableOfTree(t: Tree)
    ensures DistinctKeys(Walk(t, "", []))
    ensures forall c :: HasKey(Walk(t, "", []), c) <==> c in Leaves(t)
    ensures forall c :: c in Leaves(t) ==> Get(Walk(t, "", []), c) == Some(CodeOf(t, c))
    ensures DistinctLeaves(t) ==> PrefixFree(Walk(t, "", []))
    ensures t.Node? ==> NonEmptyCodes(Walk(t, "", []))
    ensures t.Leaf? ==> Walk(t, "", []) == [(t.sym, "")]
    ensures forall i :: 0 <= i < |Walk(t, "", [])| ==> IsBits(Walk(t, "", [])[i].1)
  {
    var table := Walk(t, "", []);
    TableEntries(t);
    if DistinctLeaves(t) {
      forall i, j | 0 <= i < |table| && 0 <= j < |table| && i != j
        ensures !IsPrefix(table[i].1, table[j].1)
      {
        CodesPrefixFree(t, table[i].0, table[j].0);
      }
    }
  }

  /** The entries of a fresh traversal are the leaf characters, each with its code. */
  lemma TableEntries(t: Tree)
    ensures forall c :: HasKey(Walk(t, "", []), c) <==> c in Leaves(t)
    ensures forall c :: c in Leaves(t) ==> Get(Walk(t, "", []), c) == Some(CodeOf(t, c))
    ensures forall i :: 0 <= i < |Walk(t, "", [])| ==>
              Walk(t, "", [])[i].0 in Leaves(t) && Walk(t, "", [])[i].1 == CodeOf(t, Walk(t, "", [])[i].0)
  {
    var table := Walk(t, "", []);
    forall c
      ensures (HasKey(table, c) <==> c in Leaves(t))
      ensures c in Leaves(t) ==> Get(table, c) == Some(CodeOf(t, c))
    {
      WalkGet(t, "", [], c);
      if c in Leaves(t) {
        assert "" + CodeOf(t, c) == CodeOf(t, c);
      }
    }
    forall i | 0 <= i < |table|
      ensures table[i].0 in Leaves(t) && table[i].1 == CodeOf(t, table[i].0)
    {
      assert HasKey(table, table[i].0);
    }
  }

  /** `''.join(table[c] for c in text)`, built left to right; None where some character has
      no entry (Python's KeyError). */
  function Encode(text: string, table: Dict<char, string>): (r: Option<string>)
    ensures r.Some? <==> forall i :: 0 <= i < |text| ==> HasKey(table, text[i])
  {
    if text == [] then Some("")
    else
      var init := text[..|text| - 1];
      assert forall i :: 0 <= i < |init| ==> init[i] == text[i];
      match Encode(init, table)
      case None => None
      case Some(e) =>
        match Get(table, text[|text| - 1])
        case None => None
        case Some(code) => Some(e + code)
  }

  /** A table whose codes are all bit strings encodes to a bit string. */
  lemma {:induction false} EncodedIsBits(text: string, table: Dict<char, string>)
    requires forall i :: 0 <= i < |table| ==> IsBits(table[i].1)
    requires Encode(text, table).Some?
    ensures IsBits(Encode(text, table).value)
  {
    if text != [] {
      var init := text[..|text| - 1];
      EncodedIsBits(init, table);
      var k := KeyIndex(table, text[|text| - 1]);
      assert Get(table, text[|text| - 1]) == Some(table[k].1);
    }
  }

  /** How a decoder finds the character for the accumulated bits: the first table entry whose
      code equals them (`next(...)` over `items()`, or a `for ... break`), or a lookup in the
      inverted table `{v: k for k, v in table.items()}`. */
  datatype Lookup = FirstMatch(table: Dict<char, string>) | Inverted(inv: Dict<string, char>)

  function Find(lk: Lookup, code: string): (r: Option<char>)
    ensures lk.FirstMatch? && r.Some? ==> exists i :: 0 <= i < |lk.table| && lk.table[i] == (r.value, code)
  {
    match lk
    case FirstMatch(table) => KeyOf(table, code)
    case Inverted(inv) => Get(inv, code)
  }

  /** One bit of the accumulating decoder: append the bit; on a match emit the character and
      clear the accumulator. The state is (output so far, accumulated bits). */
  function Step(lk: Lookup, st: (string, string), bit: char): (string, string) {
    var acc := st.1 + [bit];
    match Find(lk, acc)
    case Some(c) => (st.0 + [c], "")
    case None => (st.0, acc)
  }

  function Scan(lk: Lookup, st: (string, string), bits: string): (r: (string, string))
    ensures |st.0| <= |r.0|
    decreases |bits|
  {
    if bits == [] then st else Scan(lk, Step(lk, st, bits[0]), bits[1..])
  }

  lemma {:induction false} ScanAppend(lk: Lookup, st: (string, string), x: string, y: string)
    ensures Scan(lk, st, x + y) == Scan(lk, Scan(lk, st, x), y)
    decreases |x|
  {
    if x != [] {
      assert (x + y)[0] == x[0] && (x + y)[1..] == x[1..] + y;
      ScanAppend(lk, Step(lk, st, x[0]), x[1..], y);
    } else {
      assert x + y == y;
    }
  }

  /** Decoding only ever appends to the output. */
  lemma {:induction false} ScanExtends(lk: Lookup, st: (string, string), bits: string)
    ensures |st.0| <= |Scan(lk, st, bits).0| && Scan(lk, st, bits).0[..|st.0|] == st.0
    decreases |bits|
  {
    if bits != [] {
      var next := Step(lk, st, bits[0]);
      ScanExtends(lk, next, bits[1..]);
      assert next.0[..|st.0|] == st.0;
    }
  }

  /** Python's `s[:k]`: a negative `k` counts from the end, and both ends are clamped. */
  function SlicePrefix(s: string, k: int): (r: string)
    ensures |r| <= |s|
    ensures 0 <= k <= |s| ==> r == s[..k]
    ensures k > |s| ==> r == s
    ensures k < 0 && |s| + k >= 0 ==> r == s[..|s| + k]
    ensures k < 0 && |s| + k < 0 ==> r == []
  {
    if k >= 0 then (if k <= |s| then s[..k] else s)
    else if |s| + k >= 0 then s[..|s| + k]
    else []
  }

  /** Feeding one code whose proper prefixes match nothing emits exactly its character. */
  lemma {:induction false} ScanOneCode(lk: Lookup, out: string, code: string, c: char, k: nat)
    requires k < |code| && Find(lk, code) == Some(c)
    requires forall n :: 0 < n < |code| ==> Find(lk, code[..n]) == None
    ensures Scan(lk, (out, code[..k]), code[k..]) == (out + [c], "")
    decreases |code| - k
  {
    assert code[..k] + [code[k]] == code[..k + 1];
    if k + 1 < |code| {
      ScanOneCode(lk, out, code, c, k + 1);
    } else {
      assert code[..k + 1] == code;
    }
  }

  /** In a prefix-free table, a code finds its own character and a proper prefix of a code
      finds nothing. */
  lemma FindInPrefixFree(table: Dict<char, string>, i: nat)
    requires PrefixFree(table) && i < |table|
    ensures Find(FirstMatch(table), table[i].1) == Some(table[i].0)
    ensures forall n :: 0 <= n < |table[i].1| ==> Find(FirstMatch(table), table[i].1[..n]) == None
  {
    assert DistinctValues(table) by {
      forall a, b | 0 <= a < b < |table| ensures table[a].1 != table[b].1 {
        assert !IsPrefix(table[a].1, table[b].1);
      }
    }
    forall n | 0 <= n < |table[i].1|
      ensures Find(FirstMatch(table), table[i].1[..n]) == None
    {
      var p := table[i].1[..n];
      if KeyOf(table, p).Some? {
        var j :| 0 <= j < |table| && table[j] == (KeyOf(table, p).value, p);
        assert IsPrefix(table[j].1, table[i].1);
        assert false;
      }
    }
  }

  /** Decoding one more code after a clean stop emits one more character. */
  lemma ScanOneMore(table: Dict<char, string>, e: string, out: string, c: char)
    requires PrefixFree(table) && NonEmptyCodes(table) && HasKey(table, c)
    requires Scan(FirstMatch(table), ("", ""), e) == (out, "")
    ensures Scan(FirstMatch(table), ("", ""), e + Get(table, c).value) == (out + [c], "")
  {
    var code := Get(table, c).value;
    var i :| 0 <= i < |table| && table[i] == (c, code);
    FindInPrefixFree(table, i);
    var lk := FirstMatch(table);
    ScanAppend(lk, ("", ""), e, code);
    ScanOneCode(lk, out, code, c, 0);
    assert code[..0] == "" && code[0..] == code;
  }

  /** Round trip of the accumulating decoder: for a prefix-free table without empty codes,
      decoding an encoding gives back the text and leaves no bits over. */
  lemma {:induction false} ScanEncoded(table: Dict<char, string>, text: string)
    requires PrefixFree(table) && NonEmptyCodes(table)
    requires forall i :: 0 <= i < |text| ==> HasKey(table, text[i])
    ensures Scan(FirstMatch(table), ("", ""), Encode(text, table).value) == (text, "")
  {
    if text != [] {
      var init, c := text[..|text| - 1], text[|text| - 1];
      assert forall i :: 0 <= i < |init| ==> init[i] == text[i];
      ScanEncoded(table, init);
      ScanOneMore(table, Encode(init, table).value, init, c);
      InitLast(text);
    }
  }

  /** Two lookups that answer alike decode alike. */
  lemma {:induction false} ScanSameLookup(lk1: Lookup, lk2: Lookup, st: (string, string), bits: string)
    requires forall s :: Find(lk1, s) == Find(lk2, s)
    ensures Scan(lk1, st, bits) == Scan(lk2, st, bits)
    decreases |bits|
  {
    if bits != [] {
      ScanSameLookup(lk1, lk2, Step(lk1, st, bits[0]), bits[1..]);
    }
  }

  /** For a table without repeated codes, the inverted-table lookup answers as the first-match
      search does. */
  lemma InvertedAgrees(table: Dict<char, string>)
    requires DistinctValues(table)
    ensures forall s :: Find(Inverted(Invert(table)), s) == Find(FirstMatch(table), s)
  {
    forall s ensures Find(Inverted(Invert(table)), s) == Find(FirstMatch(table), s) {
      InvertAgreesWithKeyOf(table, s);
    }
  }

  /** The subtree reached by following a path from `t`; None where the path runs past a leaf. */
  function Follow(t: Tree, path: string): Option<Tree>
    decreases |path|
  {
    if path == [] then Some(t)
    else if t.Leaf? then None
    else Follow(if path[0] == '0' then t.left else t.right, path[1..])
  }

  lemma {:induction false} FollowSnoc(t: Tree, path: string, b: char)
    requires Follow(t, path).Some? && Follow(t, path).value.Node?
    ensures Follow(t, path + [b]) == Some(if b == '0' then Follow(t, path).value.left else Follow(t, path).value.right)
    decreases |path|
  {
    if path != [] {
      assert (path + [b])[1..] == path[1..] + [b];
      FollowSnoc(if path[0] == '0' then t.left else t.right, path[1..], b);
    }
  }

  /** Following a leaf's code ends at that leaf, passing only inner nodes on the way. */
  lemma {:induction false} FollowCode(t: Tree, c: char, n: nat)
    requires c in Leaves(t) && n <= |CodeOf(t, c)|
    ensures Follow(t, CodeOf(t, c)[..n]).Some?
    ensures n < |CodeOf(t, c)| ==> Follow(t, CodeOf(t, c)[..n]).value.Node?
    ensures n == |CodeOf(t, c)| ==> Follow(t, CodeOf(t, c)[..n]) == Some(Leaf(c))
  {
    var code := CodeOf(t, c);
    if n > 0 {
      var sub := if c in Leaves(t.right) then t.right else t.left;
      FollowCode(sub, c, n - 1);
      assert code[..n][1..] == CodeOf(sub, c)[..n - 1];
    }
  }

  /** One bit of `decode_text`: step left on `'0'` and right on anything else; on reaching a
      leaf emit its character and restart at the root. Stepping from a leaf is an error
      (Python reads `.char` of `None`), which happens only when the root is a leaf. The state
      is (output so far, current node). */
  function WalkStep(root: Tree, st: (string, Tree), bit: char): Option<(string, Tree)> {
    var cur := st.1;
    if cur.Leaf? then None
    else
      var next := if bit == '0' then cur.left else cur.right;
      if next.Leaf? then Some((st.0 + [next.sym], root)) else Some((st.0, next))
  }

  function WalkDecode(root: Tree, st: (string, Tree), bits: string): Option<(string, Tree)>
    decreases |bits|
  {
    if bits == [] then Some(st)
    else
      match WalkStep(root, st, bits[0])
      case None => None
      case Some(st') => WalkDecode(root, st', bits[1..])
  }

  lemma {:induction false} WalkDecodeAppend(root: Tree, st: (string, Tree), x: string, y: string)
    requires WalkDecode(root, st, x).Some?
    ensures WalkDecode(root, st, x + y) == WalkDecode(root, WalkDecode(root, st, x).value, y)
    decreases |x|
  {
    if x != [] {
      assert (x + y)[0] == x[0] && (x + y)[1..] == x[1..] + y;
      WalkDecodeAppend(root, WalkStep(root, st, x[0]).value, x[1..], y);
    } else {
      assert x + y == y;
    }
  }

  /** Walking one code from the root emits its leaf and returns to the root. */
  lemma {:induction false} WalkOneCode(root: Tree, out: string, c: char, k: nat)
    requires root.Node? && c in Leaves(root) && k < |CodeOf(root, c)|
    ensures Follow(root, CodeOf(root, c)[..k]).Some? &&
            WalkDecode(root, (out, Follow(root, CodeOf(root, c)[..k]).value), CodeOf(root, c)[k..]) == Some((out + [c], root))
    decreases |CodeOf(root, c)| - k
  {
    var code := CodeOf(root, c);
    FollowCode(root, c, k);
    FollowCode(root, c, k + 1);
    FollowSnoc(root, code[..k], code[k]);
    assert code[..k] + [code[k]] == code[..k + 1];
    if k + 1 < |code| {
      WalkOneCode(root, out, c, k + 1);
    }
  }

  /** Round trip of `decode_text`: for a tree with at least two leaves, all of them distinct,
      walking the encoding of a text gives back the text and ends at the root. */
  lemma {:induction false} WalkDecodeEncoded(root: Tree, text: string)
    requires root.Node? && DistinctLeaves(root)
    requires forall i :: 0 <= i < |text| ==> text[i] in Leaves(root)
    ensures Encode(text, Walk(root, "", [])).Some? &&
            WalkDecode(root, ("", root), Encode(text, Walk(root, "", [])).value) == Some((text, root))
  {
    TableOfTree(root);
    var table := Walk(root, "", []);
    if text != [] {
      var init, c := text[..|text| - 1], text[|text| - 1];
      assert forall i :: 0 <= i < |init| ==> init[i] == text[i];
      WalkDecodeEncoded(root, init);
      var code := CodeOf(root, c);
      WalkDecodeAppend(root, ("", root), Encode(init, table).value, code);
      WalkOneCode(root, init, c, 0);
      assert code[0..] == code && code[..0] == "";
      InitLast(text);
    }
  }

  /** Round trip of the first-match decoder on the table of a tree: for a tree with at least
      two leaves, all distinct, every text over its leaves encodes, and decoding the encoding
      gives back the text with no bits left over. */
  lemma TreeTableRoundTrip(t: Tree, text: string)
    requires t.Node? && DistinctLeaves(t)
    requires forall i :: 0 <= i < |text| ==> text[i] in Leaves(t)
    ensures Encode(text, Walk(t, "", [])).Some?
    ensures Scan(FirstMatch(Walk(t, "", [])), ("", ""), Encode(text, Walk(t, "", [])).value) == (text, "")
  {
    TableOfTree(t);
    ScanEncoded(Walk(t, "", []), text);
  }
}
