/** The group-heap Huffman coder (`Huffman.encode` / `Huffman.decode` of the later copies).

    Instead of a tree, the heap holds lists `[weight, [symbol, code], ...]`: every symbol
    starts as its own entry with the empty code; each round pops the two smallest entries, puts
    '0' in front of every code of the first and '1' in front of every code of the second, and
    pushes one entry holding both. The codes of the last entry are the table. The text length is
    saved next to the table and the decoder cuts its output to it. */
module GroupHuffman {
  import opened Wrappers
  import opened Dicts
  import opened Bits
  import opened CodeTrees
  import opened Tallies
  import opened Heapq
  import opened PyCompare
  import opened Frequencies
  import Forests
  import CodecLoops

  /** A heap entry `[weight, [symbol, code], [symbol, code], ...]`. */
  datatype Group = Group(weight: int, pairs: Dict<char, string>)

  /** Python's `<` on two heap entries: the weights first, then the `[symbol, code]` lists in
      turn. */
  function GroupLess(a: Group, b: Group): bool {
    if a.weight != b.weight then a.weight < b.weight else PairsLess(a.pairs, b.pairs)
  }

  /** The heap entries are totally ordered by `<`, so `heapq` works on them. */
  lemma GroupLessOrder()
    ensures StrictTotal(GroupLess)
    ensures StrictWeakOrder(GroupLess)
  {
    PairsLessTotal();
    forall a: Group, b: Group | a != b ensures GroupLess(a, b) || GroupLess(b, a) {
      if a.weight == b.weight {
        assert a.pairs != b.pairs;
      }
    }
    TotalIsWeak(GroupLess);
  }

  function GroupWeight(g: Group): int {
    g.weight
  }

  function GroupSymbols(g: Group): multiset<char> {
    multiset(Keys(g.pairs))
  }

  /** What every heap entry satisfies: at least one symbol, no symbol twice, codes made of
      bits none of which is a prefix of another, and no empty code once the entry holds two
      symbols. */
  ghost predicate WellFormed(g: Group) {
    g.pairs != [] && PrefixFree(g.pairs) && (|g.pairs| >= 2 ==> NonEmptyCodes(g.pairs)) &&
    forall i :: 0 <= i < |g.pairs| ==> IsBits(g.pairs[i].1)
  }

  /** The heap holds every symbol of `freq` exactly once and weighs what `freq` adds up to. */
  ghost predicate QueueOf(pq: seq<Group>, freq: Dict<char, int>) {
    Total(pq, GroupWeight) == SumValues(freq) &&
    Bag(pq, GroupSymbols) == multiset(Keys(freq)) &&
    forall g :: g in pq ==> WellFormed(g)
  }

  /** `[[weight, [symbol, ""]] for symbol, weight in frequency.items()]` */
  function Singles(freq: Dict<char, int>): (pq: seq<Group>)
    ensures |pq| == |freq|
    ensures forall i :: 0 <= i < |pq| ==> pq[i] == Group(freq[i].1, [(freq[i].0, "")])
  {
    seq(|freq|, i requires 0 <= i < |freq| => Group(freq[i].1, [(freq[i].0, "")]))
  }

  /** The initial heap list already holds each symbol once, with its count. */
  lemma {:induction false} SinglesQueue(freq: Dict<char, int>)
    ensures QueueOf(Singles(freq), freq)
  {
    if freq != [] {
      var init := freq[..|freq| - 1];
      SinglesQueue(init);
      var s := Singles(freq);
      assert s[..|freq| - 1] == Singles(init);
      assert s == Singles(init) + [s[|s| - 1]];
      assert Keys(freq) == Keys(init) + [freq[|freq| - 1].0];
      assert WellFormed(s[|s| - 1]) by {
        assert IsBits(s[|s| - 1].pairs[0].1);
      }
    }
  }

  /** The pairs of a popped entry after `pair[1] = bit + pair[1]` for each of them. */
  function Prefixed(pairs: Dict<char, string>, bit: char): (r: Dict<char, string>)
    ensures |r| == |pairs|
    ensures forall i :: 0 <= i < |r| ==> r[i] == (pairs[i].0, [bit] + pairs[i].1)
  {
    seq(|pairs|, i requires 0 <= i < |pairs| => (pairs[i].0, [bit] + pairs[i].1))
  }

  /** `for pair in group[1:]: pair[1] = bit + pair[1]`: every code of the entry gets `bit` in
      front, and the symbols and their order stay. */
  method PrependBit(pairs: Dict<char, string>, bit: char) returns (r: Dict<char, string>)
    ensures r == Prefixed(pairs, bit)
    ensures Keys(r) == Keys(pairs)
  {
    r := pairs;
    var i := 0;
    while i < |r|
      invariant 0 <= i <= |r| == |pairs|
      invariant forall k :: 0 <= k < i ==> r[k] == (pairs[k].0, [bit] + pairs[k].1)
      invariant forall k :: i <= k < |r| ==> r[k] == pairs[k]
    {
      r := r[i := (r[i].0, [bit] + r[i].1)];
      i := i + 1;
    }
  }

  /** `[lo[0] + hi[0]] + lo[1:] + hi[1:]` after the codes of `lo` got a '0' and those of `hi` a
      '1' in front. */
  function Merged(lo: Group, hi: Group): Group {
    Group(lo.weight + hi.weight, Prefixed(lo.pairs, '0') + Prefixed(hi.pairs, '1'))
  }

  /** Putting the same bit in front of two codes keeps one from being a prefix of the other. */
  lemma PrefixedPrefix(x: string, y: string, bit: char)
    ensures IsPrefix([bit] + x, [bit] + y) <==> IsPrefix(x, y)
  {
    if IsPrefix([bit] + x, [bit] + y) {
      assert ([bit] + y)[1..|x| + 1] == y[..|x|];
    }
    if IsPrefix(x, y) {
      assert ([bit] + y)[..|x| + 1] == [bit] + y[..|x|];
    }
  }

  /** Joining two well-formed entries with no symbol in common gives a well-formed entry
      holding the symbols of both. */
  lemma MergedWellFormed(lo: Group, hi: Group)
    requires WellFormed(lo) && WellFormed(hi)
    requires forall i, j :: 0 <= i < |lo.pairs| && 0 <= j < |hi.pairs| ==> lo.pairs[i].0 != hi.pairs[j].0
    ensures WellFormed(Merged(lo, hi))
    ensures GroupWeight(Merged(lo, hi)) == GroupWeight(lo) + GroupWeight(hi)
    ensures GroupSymbols(Merged(lo, hi)) == GroupSymbols(lo) + GroupSymbols(hi)
  {
    var a, b := Prefixed(lo.pairs, '0'), Prefixed(hi.pairs, '1');
    var m := a + b;
    assert Keys(m) == Keys(lo.pairs) + Keys(hi.pairs);
    forall i, j | 0 <= i < |m| && 0 <= j < |m| && i != j
      ensures m[i].0 != m[j].0 && !IsPrefix(m[i].1, m[j].1)
    {
      if i < |a| && j < |a| {
        PrefixedPrefix(lo.pairs[i].1, lo.pairs[j].1, '0');
      } else if i >= |a| && j >= |a| {
        PrefixedPrefix(hi.pairs[i - |a|].1, hi.pairs[j - |a|].1, '1');
      } else {
        assert m[i].1[0] != m[j].1[0];
      }
    }
    MergedBits(lo, hi);
  }

  /** The codes of a joined entry are made of bits when those of both halves are. */
  lemma MergedBits(lo: Group, hi: Group)
    requires forall i :: 0 <= i < |lo.pairs| ==> IsBits(lo.pairs[i].1)
    requires forall i :: 0 <= i < |hi.pairs| ==> IsBits(hi.pairs[i].1)
    ensures forall i :: 0 <= i < |Merged(lo, hi).pairs| ==> IsBits(Merged(lo, hi).pairs[i].1)
  {
    var a, m := Prefixed(lo.pairs, '0'), Merged(lo, hi).pairs;
    forall i | 0 <= i < |m| ensures IsBits(m[i].1) {
      if i < |a| {
        assert m[i].1 == "0" + lo.pairs[i].1;
        assert IsBits(lo.pairs[i].1);
      } else {
        assert m[i].1 == "1" + hi.pairs[i - |a|].1;
        assert IsBits(hi.pairs[i - |a|].1);
      }
    }
  }

  /** The symbols of a heap are those of any two entries taken out plus those of the rest. */
  lemma PoppedBag(pq: seq<Group>, rest: seq<Group>, lo: Group, hi: Group)
    requires multiset(pq) == multiset(rest) + multiset{lo, hi}
    ensures Bag(pq, GroupSymbols) == Bag(rest, GroupSymbols) + GroupSymbols(lo) + GroupSymbols(hi)
  {
    assert multiset(pq) == multiset(rest + [lo, hi]);
    Perm(pq, rest + [lo, hi], GroupWeight, GroupSymbols);
    Concat(rest, [lo, hi], GroupWeight, GroupSymbols);
    Pair(lo, hi, GroupWeight, GroupSymbols);
  }

  /** Two entries popped from a heap of distinct symbols have no symbol in common. */
  lemma PoppedDisjoint(pq: seq<Group>, rest: seq<Group>, lo: Group, hi: Group, freq: Dict<char, int>)
    requires DistinctKeys(freq) && Bag(pq, GroupSymbols) == multiset(Keys(freq))
    requires multiset(pq) == multiset(rest) + multiset{lo, hi}
    ensures forall i, j :: 0 <= i < |lo.pairs| && 0 <= j < |hi.pairs| ==> lo.pairs[i].0 != hi.pairs[j].0
  {
    PoppedBag(pq, rest, lo, hi);
    assert Distinct(Keys(freq));
    forall i, j | 0 <= i < |lo.pairs| && 0 <= j < |hi.pairs| ensures lo.pairs[i].0 != hi.pairs[j].0 {
      var c := lo.pairs[i].0;
      Forests.AtMostOnce(Keys(freq), c);
      assert Keys(lo.pairs)[i] == c;
      assert GroupSymbols(lo)[c] >= 1;
      assert GroupSymbols(hi)[c] == 0;
      assert Keys(hi.pairs)[j] == hi.pairs[j].0;
    }
  }

  /** One round of the loop keeps the heap a heap of the same symbols and total weight. */
  lemma QueueStep(pq: seq<Group>, rest: seq<Group>, lo: Group, hi: Group, next: seq<Group>, freq: Dict<char, int>)
    requires QueueOf(pq, freq) && DistinctKeys(freq)
    requires multiset(pq) == multiset(rest) + multiset{lo, hi}
    requires multiset(next) == multiset(rest) + multiset{Merged(lo, hi)}
    ensures QueueOf(next, freq)
  {
    assert lo in multiset(pq) && hi in multiset(pq);
    PoppedDisjoint(pq, rest, lo, hi, freq);
    MergedWellFormed(lo, hi);
    Replace(pq, rest, lo, hi, Merged(lo, hi), next, GroupWeight, GroupSymbols);
    forall g | g in next ensures WellFormed(g) {
      assert g in multiset(next);
      if g != Merged(lo, hi) {
        assert g in multiset(rest);
        assert g in multiset(pq);
      }
    }
  }

  /** One round: pop `lo`, pop `hi`, prefix their codes, push the joined entry. */
  method MergeStep(pq: seq<Group>) returns (next: seq<Group>, rest: seq<Group>, lo: Group, hi: Group)
    requires IsHeap(pq, GroupLess) && |pq| > 1
    ensures IsHeap(next, GroupLess) && |next| == |pq| - 1
    ensures multiset(pq) == multiset(rest) + multiset{lo, hi}
    ensures multiset(next) == multiset(rest) + multiset{Merged(lo, hi)}
    ensures forall i :: 0 <= i < |pq| ==> !GroupLess(pq[i], lo)
    ensures forall g :: g in multiset(rest) + multiset{hi} ==> !GroupLess(g, hi)
  {
    GroupLessOrder();
    var h1: seq<Group>;
    lo, h1 := HeapPop(pq, GroupLess);
    hi, rest := HeapPop(h1, GroupLess);
    var loPairs := PrependBit(lo.pairs, '0');
    var hiPairs := PrependBit(hi.pairs, '1');
    var merged := Group(lo.weight + hi.weight, loPairs + hiPairs);
    assert merged == Merged(lo, hi);
    next := HeapPush(rest, GroupLess, merged);
    NoneBelow(h1, hi);
  }

  /** No entry of a heap is below its popped root, whichever way the entries are listed. */
  lemma NoneBelow(h: seq<Group>, top: Group)
    requires forall i :: 0 <= i < |h| ==> !GroupLess(h[i], top)
    ensures forall g :: g in multiset(h) ==> !GroupLess(g, top)
  {
    forall g | g in multiset(h) ensures !GroupLess(g, top) {
      var i :| 0 <= i < |h| && h[i] == g;
    }
  }

  /** The encoding table: `frequency` as counted, the heap loop, then `dict(priority_queue[0][1:])`.
      None where `priority_queue[0]` raises `IndexError` (no symbols). The table holds each
      symbol once with a code of bits, no code is a prefix of another, codes are non-empty
      once there are two symbols, and a lone symbol gets the empty code. */
  method BuildCodes(freq: Dict<char, int>) returns (codes: Option<Dict<char, string>>)
    requires DistinctKeys(freq)
    ensures codes.None? <==> freq == []
    ensures codes.Some? ==> PrefixFree(codes.value) && multiset(Keys(codes.value)) == multiset(Keys(freq))
    ensures codes.Some? ==> forall i :: 0 <= i < |codes.value| ==> IsBits(codes.value[i].1)
    ensures |freq| >= 2 ==> codes.Some? && NonEmptyCodes(codes.value)
    ensures |freq| == 1 ==> codes == Some([(freq[0].0, "")])
  {
    GroupLessOrder();
    var pq := Heapify(Singles(freq), GroupLess);
    HeapifiedSingles(freq, pq);
    while |pq| > 1
      invariant IsHeap(pq, GroupLess) && QueueOf(pq, freq)
      invariant |pq| >= 1 <==> freq != []
      invariant |freq| == 1 ==> pq == Singles(freq)
      decreases |pq|
    {
      var next, rest, lo, hi := MergeStep(pq);
      QueueStep(pq, rest, lo, hi, next, freq);
      pq := next;
    }
    if pq == [] {
      codes := None;
    } else {
      var g := pq[0];
      assert pq == [g];
      Pair(g, g, GroupWeight, GroupSymbols);
      assert g in pq;
      codes := Some(FromPairs(g.pairs));
      assert |Keys(g.pairs)| == |multiset(Keys(g.pairs))| == |multiset(Keys(freq))| == |Keys(freq)|;
    }
  }

  /** The heap built from the single-symbol entries, in whatever order, holds the symbols of
      `freq`; with one symbol it is that symbol's entry. */
  lemma HeapifiedSingles(freq: Dict<char, int>, pq: seq<Group>)
    requires |pq| == |freq| && multiset(pq) == multiset(Singles(freq))
    ensures QueueOf(pq, freq)
    ensures |freq| == 1 ==> pq == Singles(freq)
  {
    SinglesQueue(freq);
    Perm(Singles(freq), pq, GroupWeight, GroupSymbols);
    forall g | g in pq ensures WellFormed(g) {
      assert g in multiset(pq);
      assert g in Singles(freq);
    }
    if |freq| == 1 {
      assert pq[0] in multiset(Singles(freq));
    }
  }

  /** The decoder after the table and the length are loaded: the inverted table
      `{v: k for k, v in codes.items()}` and the accumulating loop, then `decoded[:word_length]`. */
  function SlicedDecode(codes: Dict<char, string>, bits: string, n: int): (r: string)
    ensures |r| <= |Scan(Inverted(Invert(codes)), ("", ""), bits).0|
  {
    SlicePrefix(Scan(Inverted(Invert(codes)), ("", ""), bits).0, n)
  }

  /** A prefix-free table is injective, so its inverse loses no entry. */
  lemma PrefixFreeInjective(codes: Dict<char, string>)
    requires PrefixFree(codes)
    ensures DistinctValues(codes)
  {
    forall i, j | 0 <= i < j < |codes| ensures codes[i].1 != codes[j].1 {
      assert !IsPrefix(codes[i].1, codes[j].1);
    }
  }

  /** With a prefix-free table of non-empty codes and the text length saved, decoding the
      encoding of a text gives the text back. */
  lemma SlicedRoundTrip(codes: Dict<char, string>, data: string)
    requires PrefixFree(codes) && NonEmptyCodes(codes)
    requires forall i :: 0 <= i < |data| ==> HasKey(codes, data[i])
    ensures Encode(data, codes).Some?
    ensures SlicedDecode(codes, Encode(data, codes).value, |data|) == data
  {
    PrefixFreeInjective(codes);
    InvertedAgrees(codes);
    var e := Encode(data, codes).value;
    ScanSameLookup(Inverted(Invert(codes)), FirstMatch(codes), ("", ""), e);
    ScanEncoded(codes, data);
  }

  /** `c` repeated `n` times. */
  function Repeat(c: char, n: nat): (r: string)
    ensures |r| == n && forall i :: 0 <= i < n ==> r[i] == c
  {
    seq(n, _ => c)
  }

  /** As written, a text of one repeated symbol gets the table `{symbol: ''}`: it encodes to
      no bits at all and decodes to the empty string, whatever its length. */
  lemma {:induction false} SingleSymbolLost(c: char, n: nat)
    requires n >= 1
    ensures Encode(Repeat(c, n), [(c, "")]) == Some("")
    ensures SlicedDecode([(c, "")], "", n) == ""
    ensures SlicedDecode([(c, "")], Encode(Repeat(c, n), [(c, "")]).value, n) != Repeat(c, n)
  {
    RepeatEncodesEmpty(c, n);
  }

  lemma {:induction false} RepeatEncodesEmpty(c: char, n: nat)
    ensures Encode(Repeat(c, n), [(c, "")]) == Some("")
  {
    if n > 0 {
      RepeatEncodesEmpty(c, n - 1);
      assert Repeat(c, n)[..n - 1] == Repeat(c, n - 1);
      assert [(c, "")][0].0 == c;
      assert Get([(c, "")], c) == Some("");
      assert "" + "" == "";
    }
  }

  /** The table with the lone-symbol case corrected: a single symbol gets the one-bit code
      "0" instead of the empty code, and every other table is kept. */
  function OneBitForLoneSymbol(codes: Dict<char, string>): (r: Dict<char, string>)
    ensures Keys(r) == Keys(codes)
    ensures |codes| >= 2 ==> r == codes
  {
    if |codes| == 1 then [(codes[0].0, "0")] else codes
  }

  /** With the lone-symbol case corrected, every table the heap loop can produce round-trips
      every text over its symbols, one repeated symbol included. */
  lemma CorrectedRoundTrip(codes: Dict<char, string>, data: string)
    requires PrefixFree(codes) && (|codes| >= 2 ==> NonEmptyCodes(codes))
    requires forall i :: 0 <= i < |data| ==> HasKey(codes, data[i])
    ensures Encode(data, OneBitForLoneSymbol(codes)).Some?
    ensures SlicedDecode(OneBitForLoneSymbol(codes), Encode(data, OneBitForLoneSymbol(codes)).value, |data|) == data
  {
    var fixed := OneBitForLoneSymbol(codes);
    LoneSymbolFixed(codes);
    forall i | 0 <= i < |data| ensures HasKey(fixed, data[i]) {
      KeysHaveKey(codes, data[i]);
      KeysHaveKey(fixed, data[i]);
    }
    SlicedRoundTrip(fixed, data);
  }

  /** The corrected table is prefix-free with no empty code. */
  lemma LoneSymbolFixed(codes: Dict<char, string>)
    requires PrefixFree(codes) && (|codes| >= 2 ==> NonEmptyCodes(codes))
    ensures PrefixFree(OneBitForLoneSymbol(codes)) && NonEmptyCodes(OneBitForLoneSymbol(codes))
  {
  }

  /** What `decode` finds for `Word_Length` in the `[Huffman]` section of `settings.ini`: no
      such section or key, a value `int()` rejects, or a number. */
  datatype Setting = Absent | NotANumber | Length(n: int)

  /** The coder object with the two files it shares with later calls: `huffman_codes.json`
      (None when it is missing or does not parse) and the word length in `settings.ini`. */
  class Huffman {
    var huffmanCodes: Dict<char, string>
    var codesFile: Option<Dict<char, string>>
    var wordLength: Setting

    /** `__init__`: an empty table; the files hold whatever they held before. */
    constructor(codesFile: Option<Dict<char, string>>, wordLength: Setting)
      ensures huffmanCodes == [] && this.codesFile == codesFile && this.wordLength == wordLength
    {
      huffmanCodes := [];
      this.codesFile := codesFile;
      this.wordLength := wordLength;
    }

    /** `encode(data)`: count, run the heap loop, keep `dict(priority_queue[0][1:])`, save the
        length and the table, return the joined codes. An empty text raises `IndexError`
        before anything is stored. Otherwise the table has an entry for exactly the symbols of
        the text, prefix-free, of bits, non-empty as soon as the text has two distinct symbols
        and `{symbol: ''}` for a text of one repeated symbol. */
    method Encode(data: string) returns (r: Option<string>)
      modifies this
      ensures data == [] ==> r.None? && huffmanCodes == old(huffmanCodes) &&
                             codesFile == old(codesFile) && wordLength == old(wordLength)
      ensures data != [] ==> r.Some? && r == CodeTrees.Encode(data, huffmanCodes)
      ensures data != [] ==> codesFile == Some(huffmanCodes) && wordLength == Length(|data|)
      ensures data != [] ==> PrefixFree(huffmanCodes) && forall c :: HasKey(huffmanCodes, c) <==> c in data
      ensures data != [] ==> forall i :: 0 <= i < |huffmanCodes| ==> IsBits(huffmanCodes[i].1)
      ensures |Letters(data)| >= 2 ==> NonEmptyCodes(huffmanCodes)
      ensures |Letters(data)| == 1 ==> huffmanCodes == [(data[0], "")]
    {
      var frequency := CountFrequencies(data);
      var codes := BuildCodes(frequency);
      if codes.None? {
        return None;
      }
      huffmanCodes := codes.value;
      forall c ensures HasKey(huffmanCodes, c) <==> c in data {
        KeysHaveKey(huffmanCodes, c);
        KeysHaveKey(frequency, c);
        assert c in multiset(Keys(huffmanCodes)) <==> c in multiset(Keys(frequency));
      }
      if |Letters(data)| == 1 {
        assert data[0] in Letters(data);
      }
      r := CodeTrees.Encode(data, huffmanCodes);
      wordLength := Length(|data|);
      codesFile := Some(huffmanCodes);
    }

    /** `decode(encoded_data)` as the copies without error handling do it: load the table
        (a missing file raises), read the length (a missing or non-numeric value raises),
        invert the table, run the accumulating loop and cut the output to the length. */
    method Decode(encoded: string) returns (r: Option<string>)
      modifies this
      ensures codesFile == old(codesFile) && wordLength == old(wordLength)
      ensures huffmanCodes == if codesFile.Some? then codesFile.value else old(huffmanCodes)
      ensures r.Some? <==> codesFile.Some? && wordLength.Length?
      ensures r.Some? ==> r.value == SlicedDecode(huffmanCodes, encoded, wordLength.n)
    {
      if codesFile.None? {
        return None;
      }
      huffmanCodes := codesFile.value;
      if !wordLength.Length? {
        return None;
      }
      var decoded, _ := CodecLoops.MatchDecode(Inverted(Invert(huffmanCodes)), "", encoded);
      r := Some(SlicePrefix(decoded, wordLength.n));
    }

    /** `decode(encoded_data)` of the copy that catches the file errors: a table that cannot
        be loaded and a length `int()` rejects both give "". A missing section or key still
        raises, since Python reports it as `KeyError`, which is not among the caught errors. */
    method DecodeOrEmpty(encoded: string) returns (r: Option<string>)
      modifies this
      ensures codesFile == old(codesFile) && wordLength == old(wordLength)
      ensures huffmanCodes == if codesFile.Some? then codesFile.value else old(huffmanCodes)
      ensures codesFile.None? ==> r == Some("")
      ensures codesFile.Some? && wordLength.Absent? ==> r.None?
      ensures codesFile.Some? && wordLength.NotANumber? ==> r == Some("")
      ensures codesFile.Some? && wordLength.Length? ==> r == Some(SlicedDecode(huffmanCodes, encoded, wordLength.n))
    {
      if codesFile.None? {
        return Some("");
      }
      huffmanCodes := codesFile.value;
      match wordLength
      case Absent => r := None;
      case NotANumber => r := Some("");
      case Length(n) =>
        var decoded, _ := CodecLoops.MatchDecode(Inverted(Invert(huffmanCodes)), "", encoded);
        r := Some(SlicePrefix(decoded, n));
    }

    /** `encode(data)` followed by `decode` of its output (None: the empty text, on which
        `encode` raises): the text comes back whenever it has two distinct symbols or more; a
        text of one repeated symbol comes back empty. */
    method EncodeThenDecode(data: string) returns (r: Option<string>)
      modifies this
      ensures data == [] ==> r.None?
      ensures |Letters(data)| >= 2 ==> r == Some(data)
      ensures |Letters(data)| == 1 ==> r == Some("")
    {
      var encoded := Encode(data);
      if encoded.None? {
        return None;
      }
      r := Decode(encoded.value);
      if |Letters(data)| >= 2 {
        forall i | 0 <= i < |data| ensures HasKey(huffmanCodes, data[i]) {
          assert data[i] in data;
        }
        SlicedRoundTrip(huffmanCodes, data);
      } else if |Letters(data)| == 1 {
        var n := |data|;
        assert data == Repeat(data[0], n) by {
          forall i | 0 <= i < n ensures data[i] == data[0] {
            assert data[i] in Letters(data) && data[0] in Letters(data);
          }
        }
        SingleSymbolLost(data[0], n);
      }
    }
  }

  /** A key is among `Keys(d)` exactly when `d` has an item for it. */
  lemma KeysHaveKey<V>(d: Dict<char, V>, c: char)
    ensures c in multiset(Keys(d)) <==> HasKey(d, c)
  {
    if HasKey(d, c) {
      var i :| 0 <= i < |d| && d[i].0 == c;
      assert Keys(d)[i] == c;
    }
  }
}
