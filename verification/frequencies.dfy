/** Symbol counting, the first step of every Huffman copy.

    `Counter(text)`, a `defaultdict(int)` incremented per symbol and the explicit
    `if char in freq_dict: ... += 1 else: ... = 1` loop all build the same dict: one entry per
    distinct symbol, in order of first occurrence, holding its number of occurrences. The copies
    that iterate over `set(text)` instead pair each letter with `text.count(letter)`. */
module Frequencies {
  import opened Wrappers
  import opened Dicts
  import opened CodeTrees
  import opened Forests

  /** `text.count(c)` for a one-character `c`. */
  function Count(text: string, c: char): (n: nat)
    ensures n == multiset(text)[c]
    ensures n > 0 <==> c in text
  {
    if text == [] then 0
    else
      var init := text[..|text| - 1];
      assert text == init + [text[|text| - 1]];
      Count(init, c) + (if text[|text| - 1] == c then 1 else 0)
  }

  /** The position of the first occurrence of `c` in `text`. */
  function FirstAt(text: string, c: char): (i: nat)
    requires c in text
    ensures i < |text| && text[i] == c && c !in text[..i]
  {
    var init := text[..|text| - 1];
    if c in init then
      var i := FirstAt(init, c);
      assert text[..i] == init[..i];
      i
    else
      assert text[..|text| - 1] == init;
      |text| - 1
  }

  /** The distinct symbols of `text` in order of first occurrence (see `LettersInOrder`). */
  function Letters(text: string): (r: seq<char>)
    ensures Distinct(r)
    ensures forall c :: c in r <==> c in text
  {
    if text == [] then []
    else
      var init, c := text[..|text| - 1], text[|text| - 1];
      assert text == init + [c];
      if c in init then Letters(init) else Letters(init) + [c]
  }

  /** One letter comes before another in `Letters(text)` when it first occurs earlier. */
  lemma {:induction false} LettersInOrder(text: string)
    ensures forall i, j :: 0 <= i < j < |Letters(text)| ==>
              FirstAt(text, Letters(text)[i]) < FirstAt(text, Letters(text)[j])
  {
    if text != [] {
      var init, c := text[..|text| - 1], text[|text| - 1];
      var l, r := Letters(init), Letters(text);
      LettersInOrder(init);
      FirstAtPrefix(text);
      forall i, j | 0 <= i < j < |r| ensures FirstAt(text, r[i]) < FirstAt(text, r[j]) {
        assert r[i] == l[i] && r[i] in init;
        if j == |l| {
          assert r[j] == c && c !in init;
          assert FirstAt(text, c) == |text| - 1;
        } else {
          assert r[j] == l[j] && r[j] in init;
        }
      }
    }
  }

  /** A symbol of all but the last character is first found where it is found there. */
  lemma FirstAtPrefix(text: string)
    requires text != []
    ensures forall c :: c in text[..|text| - 1] ==> FirstAt(text, c) == FirstAt(text[..|text| - 1], c)
  {
  }

  function SumValues(d: Dict<char, int>): int {
    if d == [] then 0 else SumValues(d[..|d| - 1]) + d[|d| - 1].1
  }

  lemma {:induction false} SumValuesUpdate(d: Dict<char, int>, i: nat, p: (char, int))
    requires i < |d|
    ensures SumValues(d[i := p]) == SumValues(d) - d[i].1 + p.1
  {
    var r := d[i := p];
    if i < |d| - 1 {
      assert r[..|r| - 1] == d[..|d| - 1][i := p];
      SumValuesUpdate(d[..|d| - 1], i, p);
    } else {
      assert r[..|r| - 1] == d[..|d| - 1];
    }
  }

  /** `freq` is the frequency dict of `text`. */
  ghost predicate CountsOf(freq: Dict<char, int>, text: string) {
    DistinctKeys(freq) && Keys(freq) == Letters(text) &&
    (forall c :: Get(freq, c) == if c in text then Some(Count(text, c)) else None) &&
    SumValues(freq) == |text|
  }

  /** The counting loop of the frequency dict. */
  method CountFrequencies(text: string) returns (freq: Dict<char, int>)
    ensures DistinctKeys(freq) && Keys(freq) == Letters(text)
    ensures forall c :: Get(freq, c) == if c in text then Some(Count(text, c)) else None
    ensures forall i :: 0 <= i < |freq| ==> freq[i].1 >= 1
    ensures SumValues(freq) == |text|
  {
    freq := [];
    var i := 0;
    while i < |text|
      invariant 0 <= i <= |text|
      invariant CountsOf(freq, text[..i])
    {
      var c := text[i];
      var old_freq := freq;
      if HasKey(freq, c) {
        freq := Put(freq, c, Get(freq, c).value + 1);
      } else {
        freq := Put(freq, c, 1);
      }
      CountStep(old_freq, text[..i], c, freq);
      TakeOneMore(text, i);
      i := i + 1;
    }
    assert text[..i] == text;
    CountsPositive(freq, text);
  }

  /** The prefix of length `i + 1` is the prefix of length `i` and the character at `i`. */
  lemma TakeOneMore(text: string, i: nat)
    requires i < |text|
    ensures text[..i + 1] == text[..i] + [text[i]]
  {
  }

  /** Every count in a frequency dict is at least one. */
  lemma CountsPositive(freq: Dict<char, int>, text: string)
    requires CountsOf(freq, text)
    ensures forall i :: 0 <= i < |freq| ==> freq[i].1 >= 1
  {
    forall j | 0 <= j < |freq| ensures freq[j].1 >= 1 {
      assert Get(freq, freq[j].0) == Some(freq[j].1);
    }
  }

  /** One pass of the counting loop. */
  lemma CountStep(freq: Dict<char, int>, text: string, c: char, next: Dict<char, int>)
    requires CountsOf(freq, text)
    requires next == if HasKey(freq, c) then Put(freq, c, Get(freq, c).value + 1) else Put(freq, c, 1)
    ensures CountsOf(next, text + [c])
  {
    if HasKey(freq, c) {
      CountSeen(freq, text, c, next);
    } else {
      CountNew(freq, text, c, next);
    }
  }

  /** One more character adds one to its own count and leaves the others. */
  lemma CountSnoc(text: string, c: char, x: char)
    ensures Count(text + [c], x) == Count(text, x) + (if x == c then 1 else 0)
  {
    assert (text + [c])[..|text|] == text;
  }

  /** The lookups of the dict after one pass of the counting loop: the character read gets its
      count so far plus one, every other key keeps its lookup. */
  lemma LookupsStep(freq: Dict<char, int>, text: string, c: char, next: Dict<char, int>)
    requires forall x :: Get(freq, x) == if x in text then Some(Count(text, x)) else None
    requires Get(next, c) == Some(Count(text, c) + 1)
    requires forall x :: x != c ==> Get(next, x) == Get(freq, x)
    ensures forall x :: Get(next, x) == if x in text + [c] then Some(Count(text + [c], x)) else None
  {
    forall x ensures Get(next, x) == if x in text + [c] then Some(Count(text + [c], x)) else None {
      CountSnoc(text, c, x);
      if x != c {
        assert x in text + [c] <==> x in text;
      }
    }
  }

  lemma CountSeen(freq: Dict<char, int>, text: string, c: char, next: Dict<char, int>)
    requires CountsOf(freq, text) && HasKey(freq, c)
    requires next == Put(freq, c, Get(freq, c).value + 1)
    ensures CountsOf(next, text + [c])
  {
    LettersSeen(text, c);
    SeenLookups(freq, text, c, next);
    SeenSum(freq, c, next);
  }

  /** The lookups after counting a character seen before. */
  lemma SeenLookups(freq: Dict<char, int>, text: string, c: char, next: Dict<char, int>)
    requires forall x :: Get(freq, x) == if x in text then Some(Count(text, x)) else None
    requires HasKey(freq, c) && next == Put(freq, c, Get(freq, c).value + 1)
    ensures forall x :: Get(next, x) == if x in text + [c] then Some(Count(text + [c], x)) else None
  {
    assert Get(next, c) == Some(Count(text, c) + 1);
    LookupsStep(freq, text, c, next);
  }

  /** Counting a character seen before adds one to the sum of the values. */
  lemma SeenSum(freq: Dict<char, int>, c: char, next: Dict<char, int>)
    requires DistinctKeys(freq) && HasKey(freq, c)
    requires next == Put(freq, c, Get(freq, c).value + 1)
    ensures SumValues(next) == SumValues(freq) + 1
  {
    var k := KeyIndex(freq, c);
    assert freq[k].1 == Get(freq, c).value;
    SumValuesUpdate(freq, k, (c, freq[k].1 + 1));
  }

  /** A character seen before adds no new letter. */
  lemma LettersSeen(text: string, c: char)
    requires c in text
    ensures Letters(text + [c]) == Letters(text)
  {
    var t := text + [c];
    assert t[..|t| - 1] == text;
  }

  lemma CountNew(freq: Dict<char, int>, text: string, c: char, next: Dict<char, int>)
    requires CountsOf(freq, text) && !HasKey(freq, c)
    requires next == Put(freq, c, 1)
    ensures CountsOf(next, text + [c])
  {
    var t := text + [c];
    assert c !in text by {
      assert Get(freq, c).None?;
    }
    assert Letters(t) == Letters(text) + [c] by {
      assert t[..|t| - 1] == text;
    }
    assert next == freq + [(c, 1)];
    assert Keys(next) == Keys(freq) + [c];
    LookupsStep(freq, text, c, next);
    assert next[..|next| - 1] == freq;
  }

  /** `[Node(char, freq) for char, freq in freq_dict.items()]`: one leaf item per entry. */
  function LeafItems(freq: Dict<char, int>): (f: seq<Item>)
    ensures |f| == |freq|
    ensures forall i :: 0 <= i < |f| ==> f[i] == Item(freq[i].1, Leaf(freq[i].0))
  {
    seq(|freq|, i requires 0 <= i < |freq| => Item(freq[i].1, Leaf(freq[i].0)))
  }

  /** The leaf items of a dict weigh what its values add up to and hold its keys. */
  lemma {:induction false} LeafItemsTotals(freq: Dict<char, int>)
    ensures TotalWeight(LeafItems(freq)) == SumValues(freq)
    ensures LeafBag(LeafItems(freq)) == multiset(Keys(freq))
  {
    if freq != [] {
      var init := freq[..|freq| - 1];
      LeafItemsTotals(init);
      assert LeafItems(freq)[..|freq| - 1] == LeafItems(init);
      assert Keys(freq) == Keys(init) + [freq[|freq| - 1].0];
    }
  }

  /** A single item built from the leaf items of a dict, keeping their total weight and
      leaves, is a Huffman tree over the dict: it weighs the sum of the values, holds each key
      once, and is an inner node as soon as there are two keys. */
  lemma {:induction false} TableRoot(table: Dict<char, int>, root: Item)
    requires DistinctKeys(table) && table != []
    requires root.weight == TotalWeight(LeafItems(table))
    requires multiset(Leaves(root.tree)) == LeafBag(LeafItems(table))
    ensures root.weight == SumValues(table)
    ensures multiset(Leaves(root.tree)) == multiset(Keys(table)) && DistinctLeaves(root.tree)
    ensures |table| >= 2 ==> root.tree.Node?
  {
    LeafItemsTotals(table);
    assert Distinct(Keys(table));
    Single(root);
    SingleRoot([root], Keys(table));
  }

  /** `set(text)` enumerated in some order: each distinct letter of `text` exactly once. */
  predicate EnumeratesLetters(letters: seq<char>, text: string) {
    Distinct(letters) && forall c :: c in letters <==> c in text
  }

  /** `[(text.count(letter), letter) for letter in letters]` */
  function LetterCounts(text: string, letters: seq<char>): (f: seq<Item>)
    ensures |f| == |letters|
    ensures forall i :: 0 <= i < |f| ==> f[i] == Item(Count(text, letters[i]), Leaf(letters[i]))
  {
    seq(|letters|, i requires 0 <= i < |letters| => Item(Count(text, letters[i]), Leaf(letters[i])))
  }

  function SumCounts(text: string, letters: seq<char>): nat {
    if letters == [] then 0
    else SumCounts(text, letters[..|letters| - 1]) + Count(text, letters[|letters| - 1])
  }

  /** How often `c` occurs among `letters`. */
  lemma {:induction false} SumCountsSnoc(init: string, c: char, letters: seq<char>)
    ensures SumCounts(init + [c], letters) == SumCounts(init, letters) + multiset(letters)[c]
  {
    if letters != [] {
      var pre := letters[..|letters| - 1];
      SumCountsSnoc(init, c, pre);
      assert letters == pre + [letters[|letters| - 1]];
      assert (init + [c])[..|init|] == init;
    }
  }

  /** The counts of the letters of `set(text)` add up to `len(text)`. */
  lemma {:induction false} SumCountsIsLength(text: string, letters: seq<char>)
    requires Distinct(letters) && forall i :: 0 <= i < |text| ==> text[i] in letters
    ensures SumCounts(text, letters) == |text|
  {
    if text == [] {
      SumCountsEmpty(letters);
    } else {
      var init, c := text[..|text| - 1], text[|text| - 1];
      SumCountsIsLength(init, letters);
      SumCountsSnoc(init, c, letters);
      assert text == init + [c];
      AtMostOnce(letters, c);
    }
  }

  lemma {:induction false} SumCountsEmpty(letters: seq<char>)
    ensures SumCounts([], letters) == 0
  {
    if letters != [] {
      SumCountsEmpty(letters[..|letters| - 1]);
    }
  }

  /** The initial `(count, letter)` list weighs `len(text)` and holds each letter once. */
  lemma {:induction false} LetterCountsTotals(text: string, letters: seq<char>)
    requires EnumeratesLetters(letters, text)
    ensures TotalWeight(LetterCounts(text, letters)) == |text|
    ensures LeafBag(LetterCounts(text, letters)) == multiset(letters)
  {
    LetterCountsSum(text, letters);
    SumCountsIsLength(text, letters);
    LeafBagOfLeaves(LetterCounts(text, letters), letters);
  }

  lemma {:induction false} LetterCountsSum(text: string, letters: seq<char>)
    ensures TotalWeight(LetterCounts(text, letters)) == SumCounts(text, letters)
  {
    if letters != [] {
      var pre := letters[..|letters| - 1];
      LetterCountsSum(text, pre);
      assert LetterCounts(text, letters)[..|pre|] == LetterCounts(text, pre);
    }
  }
}
