/** The accumulator loops the Huffman copies encode and decode with, each proved to compute the
    function of `CodeTrees` that specifies it. */
module CodecLoops {
  import opened Wrappers
  import opened Dicts
  import opened CodeTrees

  /** `encoded += table[char]` for each character in turn; None where a character has no
      entry (Python's KeyError). */
  method EncodeText(text: string, table: Dict<char, string>) returns (r: Option<string>)
    ensures r == Encode(text, table)
    ensures r.None? <==> exists i :: 0 <= i < |text| && !HasKey(table, text[i])
  {
    var encoded := "";
    var i := 0;
    while i < |text|
      invariant 0 <= i <= |text|
      invariant Encode(text[..i], table) == Some(encoded)
    {
      assert text[..i + 1][..i] == text[..i];
      var code := Get(table, text[i]);
      if code.None? {
        return None;
      }
      encoded := encoded + code.value;
      i := i + 1;
    }
    assert text[..i] == text;
    r := Some(encoded);
  }

  /** `for char, code in table.items(): if code == current_code: ... break`: the first entry
      whose code equals `code`. */
  method SearchItems(table: Dict<char, string>, code: string) returns (r: Option<char>)
    ensures r == KeyOf(table, code)
    ensures r.Some? ==> exists i :: 0 <= i < |table| && table[i] == (r.value, code)
  {
    var j := 0;
    while j < |table|
      invariant 0 <= j <= |table|
      invariant KeyOf(table[j..], code) == KeyOf(table, code)
    {
      assert table[j..][1..] == table[j + 1..];
      if table[j].1 == code {
        return Some(table[j].0);
      }
      j := j + 1;
    }
    r := None;
  }

  /** The exact-match decoder: append a bit to `current_code`; when the lookup finds a
      character, emit it and clear `current_code`. Output starts from `prefix`; whatever is left
      in the accumulator at the end is returned as `rest`. */
  method MatchDecode(lk: Lookup, prefix: string, bits: string) returns (out: string, rest: string)
    ensures (out, rest) == Scan(lk, (prefix, ""), bits)
  {
    out, rest := prefix, "";
    var i := 0;
    while i < |bits|
      invariant 0 <= i <= |bits|
      invariant Scan(lk, (out, rest), bits[i..]) == Scan(lk, (prefix, ""), bits)
    {
      assert bits[i..][1..] == bits[i + 1..];
      rest := rest + [bits[i]];
      var found := Find(lk, rest);
      if found.Some? {
        out := out + [found.value];
        rest := "";
      }
      i := i + 1;
    }
  }

  /** `decode_text(encoded_text, root)`: step left on '0' and right on anything else, emit the
      character at a leaf and restart from the root. None where Python reads `.char` of
      `None`, which happens when the root itself is a leaf. */
  method WalkDecodeText(bits: string, root: Tree) returns (r: Option<string>)
    ensures r.None? <==> WalkDecode(root, ("", root), bits).None?
    ensures r.Some? ==> r.value == WalkDecode(root, ("", root), bits).value.0
  {
    var out, cur := "", root;
    var i := 0;
    while i < |bits|
      invariant 0 <= i <= |bits|
      invariant WalkDecode(root, (out, cur), bits[i..]) == WalkDecode(root, ("", root), bits)
    {
      assert bits[i..][1..] == bits[i + 1..];
      if cur.Leaf? {
        return None;
      }
      var next := if bits[i] == '0' then cur.left else cur.right;
      if next.Leaf? {
        out := out + [next.sym];
        cur := root;
      } else {
        cur := next;
      }
      i := i + 1;
    }
    r := Some(out);
  }
}
