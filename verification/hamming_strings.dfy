/** The textbook Hamming coder on strings of digit characters.

    `encode` picks the least `r` with `2^r >= m + r + 1`, lays the `m` data characters out on
    the 1-indexed positions that are not powers of two, and writes at position `2^i` the parity
    of the digits at the positions whose digit of weight `2^i` is set. `decode` takes the least
    `r` with `2^r >= n + 1`, adds up the weights `2^i` of the checks that come out odd, flips
    the character at that position when the sum is not zero, and keeps the characters at the
    positions that are not powers of two.

    Each check reads `sum(int(bit) for bit in chunk)`. The model reads the ASCII digits '0' to
    '9' and makes any other covered character fail (`None`); Python's `int` also reads the
    other Unicode decimal digits, which the model does not. A syndrome beyond the end of the
    word makes the flip index past the list, which fails too. */
module HammingStrings {
  import opened Wrappers
  import opened Bits
  import opened HammingMath

  predicate IsDigit(c: char) {
    '0' <= c <= '9'
  }

  predicate AllDigits(s: string) {
    forall q :: 0 <= q < |s| ==> IsDigit(s[q])
  }

  /** `int(c)` for a digit character. */
  function DigitValue(c: char): nat {
    if IsDigit(c) then c as int - '0' as int else 0
  }

  function DigitSum(s: string): nat {
    if s == [] then 0 else DigitSum(s[..|s| - 1]) + DigitValue(s[|s| - 1])
  }

  /** `str(v % 2)`. */
  function ParityChar(v: nat): char {
    if v % 2 == 0 then '0' else '1'
  }

  /** `'1' if c == '0' else '0'`. */
  function FlipChar(c: char): char {
    if c == '0' then '1' else '0'
  }

  function Min(a: int, b: int): int {
    if a <= b then a else b
  }

  /** Check `i` covers the 0-indexed position `q`: digit `i` of `q + 1` is set. */
  predicate Covered(q: nat, i: nat) {
    Bit(q + 1, i) == 1
  }

  /** The sum of the digits that check `i` covers among the first `k` characters. */
  function CheckSum(s: string, i: nat, k: nat): nat
    requires k <= |s|
  {
    if k == 0 then 0
    else CheckSum(s, i, k - 1) + (if Covered(k - 1, i) then DigitValue(s[k - 1]) else 0)
  }

  /** Every character that check `i` covers among the first `k` is a digit. */
  predicate CheckDigits(s: string, i: nat, k: nat)
    requires k <= |s|
  {
    forall q :: 0 <= q < k && Covered(q, i) ==> IsDigit(s[q])
  }

  lemma {:induction false} RangeCovered(s: string, i: nat, lo: nat, hi: nat)
    requires lo <= hi <= |s|
    requires forall q :: lo <= q < hi ==> Covered(q, i)
    ensures CheckSum(s, i, hi) == CheckSum(s, i, lo) + DigitSum(s[lo..hi])
    ensures CheckDigits(s, i, hi) <==> CheckDigits(s, i, lo) && AllDigits(s[lo..hi])
    decreases hi
  {
    if lo < hi {
      RangeCovered(s, i, lo, hi - 1);
      assert s[lo..hi][..hi - 1 - lo] == s[lo..hi - 1];
      assert Covered(hi - 1, i);
      if CheckDigits(s, i, hi - 1) && AllDigits(s[lo..hi - 1]) && IsDigit(s[hi - 1]) {
        assert forall q :: lo <= q < hi ==> s[lo..hi][q - lo] == s[q];
      }
    }
  }

  lemma {:induction false} RangeUncovered(s: string, i: nat, lo: nat, hi: nat)
    requires lo <= hi <= |s|
    requires forall q :: lo <= q < hi ==> !Covered(q, i)
    ensures CheckSum(s, i, hi) == CheckSum(s, i, lo)
    ensures CheckDigits(s, i, hi) <==> CheckDigits(s, i, lo)
    decreases hi
  {
    if lo < hi {
      RangeUncovered(s, i, lo, hi - 1);
      assert !Covered(hi - 1, i);
    }
  }

  /** Inside the `k`-th block of width `2^i`, digit `i` of a position is the parity of `k`. */
  lemma BlockBit(i: nat, k: nat, q: nat)
    requires Pow2(i) * k <= q + 1 < Pow2(i) * k + Pow2(i)
    ensures Bit(q + 1, i) == k % 2
  {
    BitOfBlock(i, k, q + 1 - Pow2(i) * k);
  }

  /** The inner loop of check `i`, `x = 2^i`: the XOR of the digit sums of the chunks
      `s[j:j + x]` for `j` in `range(x - 1, n, 2 * x)`. Those chunks are exactly the covered
      positions, so the result fails where a covered character is not a digit and otherwise
      has the last digit of the covered digit sum. */
  method CheckParity(s: string, i: nat) returns (parity: Option<nat>)
    ensures parity.Some? <==> CheckDigits(s, i, |s|)
    ensures parity.Some? ==> parity.value % 2 == CheckSum(s, i, |s|) % 2
  {
    var n := |s|;
    var x := Pow2(i);
    var p := 0;
    var j := x - 1;
    ghost var k := 1;
    FirstChunk(s, i);
    while j < n
      invariant Chunking(s, i, j, k, p)
      decreases n - j
    {
      var chunk := s[j..Min(j + x, n)];
      ParityStep(s, i, j, k, p);
      if !AllDigits(chunk) {
        return None;
      }
      p := Xor(p, DigitSum(chunk));
      j := j + 2 * x;
      k := k + 2;
    }
    return Some(p);
  }

  /** The state of the chunk loop of check `i` before the chunk that starts at `j`, the
      `k`-th block of width `2^i`: the covered characters so far are digits, and `p` has the
      parity of their sum. */
  ghost predicate Chunking(s: string, i: nat, j: nat, k: nat, p: nat) {
    k % 2 == 1 && j + 1 == Pow2(i) * k &&
    CheckDigits(s, i, Min(j, |s|)) && p % 2 == CheckSum(s, i, Min(j, |s|)) % 2
  }

  /** One pass of the chunk loop keeps its invariant, or shows that a covered character is
      not a digit. */
  lemma ParityStep(s: string, i: nat, j: nat, k: nat, p: nat)
    requires j < |s| && Chunking(s, i, j, k, p)
    ensures !AllDigits(s[j..Min(j + Pow2(i), |s|)]) ==> !CheckDigits(s, i, |s|)
    ensures AllDigits(s[j..Min(j + Pow2(i), |s|)]) ==>
              Chunking(s, i, j + 2 * Pow2(i), k + 2, Xor(p, DigitSum(s[j..Min(j + Pow2(i), |s|)])))
  {
    var hi := Min(j + Pow2(i), |s|);
    ChunkStep(s, i, j, k);
    CheckDigitsPrefix(s, i, hi, |s|);
    XorSumParity(p, CheckSum(s, i, j), DigitSum(s[j..hi]));
  }

  lemma XorSumParity(p: nat, c: nat, d: nat)
    requires p % 2 == c % 2
    ensures Xor(p, d) % 2 == (c + d) % 2
  {
    XorParity(p, d);
    var a, b := p / 2, c / 2;
    assert p == 2 * a + p % 2 && c == 2 * b + p % 2;
    assert p + d == (c + d) + 2 * (a - b);
  }

  /** The positions before `2^i - 1` are not covered by check `i`. */
  lemma FirstChunk(s: string, i: nat)
    ensures CheckDigits(s, i, Min(Pow2(i) - 1, |s|))
    ensures CheckSum(s, i, Min(Pow2(i) - 1, |s|)) == 0
  {
    forall q | 0 <= q < Min(Pow2(i) - 1, |s|) ensures !Covered(q, i) {
      BitAbove(q + 1, i);
    }
    RangeUncovered(s, i, 0, Min(Pow2(i) - 1, |s|));
  }

  /** One pass of the chunk loop: the chunk `s[j:j + x]` is covered by check `i`, the gap of
      width `x` after it is not, and the next chunk starts at the next odd multiple of `x`. */
  lemma ChunkStep(s: string, i: nat, j: nat, k: nat)
    requires j < |s| && k % 2 == 1 && j + 1 == Pow2(i) * k
    ensures CheckSum(s, i, Min(j + Pow2(i), |s|)) == CheckSum(s, i, j) + DigitSum(s[j..Min(j + Pow2(i), |s|)])
    ensures CheckDigits(s, i, Min(j + Pow2(i), |s|)) <==> CheckDigits(s, i, j) && AllDigits(s[j..Min(j + Pow2(i), |s|)])
    ensures CheckSum(s, i, Min(j + 2 * Pow2(i), |s|)) == CheckSum(s, i, Min(j + Pow2(i), |s|))
    ensures CheckDigits(s, i, Min(j + 2 * Pow2(i), |s|)) <==> CheckDigits(s, i, Min(j + Pow2(i), |s|))
    ensures j + 2 * Pow2(i) + 1 == Pow2(i) * (k + 2)
  {
    var x := Pow2(i);
    ChunkCovered(i, j, k);
    RangeCovered(s, i, j, Min(j + x, |s|));
    GapUncovered(i, j, k);
    RangeUncovered(s, i, Min(j + x, |s|), Min(j + 2 * x, |s|));
  }

  lemma ChunkCovered(i: nat, j: nat, k: nat)
    requires k % 2 == 1 && j + 1 == Pow2(i) * k
    ensures forall q :: j <= q < j + Pow2(i) ==> Covered(q, i)
  {
    forall q | j <= q < j + Pow2(i) ensures Covered(q, i) {
      BlockBit(i, k, q);
    }
  }

  lemma GapUncovered(i: nat, j: nat, k: nat)
    requires k % 2 == 1 && j + 1 == Pow2(i) * k
    ensures forall q :: j + Pow2(i) <= q < j + 2 * Pow2(i) ==> !Covered(q, i)
    ensures j + 2 * Pow2(i) + 1 == Pow2(i) * (k + 2)
  {
    var x := Pow2(i);
    assert x * (k + 1) == x * k + x && x * (k + 2) == x * k + 2 * x;
    forall q | j + x <= q < j + 2 * x ensures !Covered(q, i) {
      BlockBit(i, k + 1, q);
    }
  }

  lemma CheckDigitsPrefix(s: string, i: nat, a: nat, b: nat)
    requires a <= b <= |s|
    ensures CheckDigits(s, i, b) ==> CheckDigits(s, i, a)
  {
  }

  /** Two words that agree on the positions check `i` covers give it the same sum. */
  lemma {:induction false} AgreeOnCheck(s: string, t: string, i: nat, k: nat)
    requires |s| == |t| && k <= |s|
    requires forall q :: 0 <= q < k && Covered(q, i) ==> s[q] == t[q]
    ensures CheckSum(s, i, k) == CheckSum(t, i, k)
    ensures CheckDigits(s, i, k) <==> CheckDigits(t, i, k)
  {
    if k > 0 {
      AgreeOnCheck(s, t, i, k - 1);
    }
  }

  /** Changing one character moves the sum of a check that covers it by the change of digit,
      and leaves every other check alone. */
  lemma {:induction false} CheckSumUpdate(s: string, i: nat, q: nat, c: char, k: nat)
    requires q < |s| && k <= |s|
    ensures q < k && Covered(q, i) ==>
              CheckSum(s[q := c], i, k) + DigitValue(s[q]) == CheckSum(s, i, k) + DigitValue(c)
    ensures !(q < k && Covered(q, i)) ==> CheckSum(s[q := c], i, k) == CheckSum(s, i, k)
  {
    if k > 0 {
      CheckSumUpdate(s, i, q, c, k - 1);
    }
  }

  /** The positions `1..n` that are not powers of two, in order, numbered from 0 on: the
      data character with index `DataUpTo(q)` goes to the position `q + 1`. */
  lemma {:induction false} DataPosition(k: nat, n: nat)
    requires k < DataUpTo(n)
    ensures exists q :: 0 <= q < n && !IsPowerOfTwo(q + 1) && DataUpTo(q) == k
  {
    if k < DataUpTo(n - 1) {
      DataPosition(k, n - 1);
    } else {
      assert !IsPowerOfTwo(n) && DataUpTo(n - 1) == k;
    }
  }

  /** A word of `m + ParityCount(m)` positions has room for exactly `m` data characters. */
  lemma CodewordData(m: nat)
    ensures DataUpTo(m + ParityCount(m)) == m
  {
    PowersUpToIsBitLength(m + ParityCount(m));
    BitLengthOfCodeword(m);
  }

  /** The character the first loop of `encode` puts at position `q`: '0' at the powers of
      two, the next data character elsewhere. */
  function LayoutAt(d: string, q: nat): char {
    if IsPowerOfTwo(q + 1) || DataUpTo(q) >= |d| then '0' else d[DataUpTo(q)]
  }

  /** The word after the first loop of `encode`. */
  function Layout(d: string, n: nat): (w: string)
    ensures |w| == n
  {
    seq(n, q requires 0 <= q < n => LayoutAt(d, q))
  }

  /** What `encode` returns: the layout with the parity of check `Log2(p)` written at each
      power of two `p`. */
  function Encoded(d: string): (e: string)
    ensures |e| == |d| + ParityCount(|d|)
  {
    var n := |d| + ParityCount(|d|);
    var w := Layout(d, n);
    seq(n, q requires 0 <= q < n => EncodedAt(w, q))
  }

  /** Position `q` of the encoded word, laid out as `w`: the parity of check `Log2(q + 1)` at
      the powers of two, the layout elsewhere. */
  function EncodedAt(w: string, q: nat): char
    requires q < |w|
  {
    if IsPowerOfTwo(q + 1) then ParityChar(CheckSum(w, Log2(q + 1), |w|)) else w[q]
  }

  /** The error position `decode` adds up from the checks below `c`. */
  function Syndrome(s: string, c: nat): nat {
    if c == 0 then 0
    else Syndrome(s, c - 1) + (if CheckSum(s, c - 1, |s|) % 2 != 0 then Pow2(c - 1) else 0)
  }

  /** The characters at the positions that are not powers of two, in order. */
  function Extract(s: string): string {
    if s == [] then []
    else Extract(s[..|s| - 1]) + LastData(s)
  }

  /** One character per position that is not a power of two. */
  lemma {:induction false} ExtractLength(s: string)
    ensures |Extract(s)| == DataUpTo(|s|)
  {
    if s != [] {
      ExtractLength(s[..|s| - 1]);
    }
  }

  /** The last character of `s` when its position is not a power of two, else nothing. */
  function LastData(s: string): string
    requires s != []
  {
    if IsPowerOfTwo(|s|) then [] else [s[|s| - 1]]
  }

  /** The word with the character at the 1-indexed position `e` flipped, if `e` is not 0. */
  function Corrected(s: string, e: nat): string
    requires e <= |s|
  {
    if e == 0 then s else s[e - 1 := FlipChar(s[e - 1])]
  }

  /** What `decode` returns: `None` where a character is not a digit or the syndrome points
      past the end of the word. */
  function Decoded(s: string): Option<string> {
    var e := Syndrome(s, BitLength(|s|));
    if !AllDigits(s) || e > |s| then None else Some(Extract(Corrected(s, e)))
  }

  /** `encode(data)`. */
  method Encode(data: string) returns (code: Option<string>)
    ensures code.None? <==> !AllDigits(data)
    ensures code.Some? ==> code.value == Encoded(data)
  {
    var m := |data|;
    var r := ParityBits(m);
    var n := m + r;
    CodewordData(m);
    var word := LayOut(data, n);
    ghost var layout := word;
    EncodedUpToZero(layout);
    var c := 0;
    while c < r
      invariant c <= r && Writing(layout, word, c) && ChecksRead(layout, c)
    {
      ParitySlot(m, c);
      var parity := CheckParity(word, c);
      SameCheck(layout, word, c);
      if parity.None? {
        LayoutNonDigit(data, n, c);
        return None;
      }
      var next := word[Pow2(c) - 1 := ParityChar(parity.value)];
      ParityLoopStep(layout, word, c, parity.value, next);
      word := next;
      c := c + 1;
    }
    EncodeDone(data, layout, word, r);
    return Some(word);
  }

  /** The search loop of `encode`: the least `r` with `2^r >= m + r + 1`. */
  method ParityBits(m: nat) returns (r: nat)
    ensures r == ParityCount(m)
  {
    r := 0;
    while Pow2(r) < m + r + 1
      invariant r <= ParityCount(m)
      invariant forall k :: 0 <= k < r ==> Pow2(k) < m + k + 1
      decreases ParityCount(m) - r
    {
      r := r + 1;
    }
  }

  /** The search loop of `decode`: the least `r` with `2^r >= n + 1`. */
  method CheckBits(n: nat) returns (r: nat)
    ensures r == BitLength(n)
  {
    r := 0;
    while Pow2(r) < n + 1
      invariant r <= BitLength(n)
      invariant forall k :: 0 <= k < r ==> Pow2(k) < n + 1
      decreases BitLength(n) - r
    {
      r := r + 1;
    }
  }

  /** `word` is `layout` with the parity of each check below `c` written in its slot. */
  ghost predicate Writing(layout: string, word: string, c: nat) {
    |word| == |layout| && forall q :: 0 <= q < |layout| ==> word[q] == EncodedUpTo(layout, c, q)
  }

  /** Every check below `c` reads digits only. */
  ghost predicate ChecksRead(layout: string, c: nat) {
    forall t :: 0 <= t < c ==> CheckDigits(layout, t, |layout|)
  }

  /** After all `r` checks the word is the encoded word, and the data was digits only. */
  lemma EncodeDone(d: string, layout: string, word: string, r: nat)
    requires r == ParityCount(|d|) && DataUpTo(|d| + r) == |d| && layout == Layout(d, |d| + r)
    requires Writing(layout, word, r) && ChecksRead(layout, r)
    ensures AllDigits(d) && word == Encoded(d)
  {
    var n := |d| + r;
    LayoutDigits(d, n, r);
    ParityLoopDone(layout, r);
    forall q | 0 <= q < n ensures word[q] == Encoded(d)[q] {
      EncodedIndex(d, q);
    }
  }

  lemma LayoutIs(d: string, w: string)
    requires forall q :: 0 <= q < |w| ==> w[q] == LayoutAt(d, q)
    ensures w == Layout(d, |w|)
  {
  }

  /** The first loop of `encode`: `['0'] * n`, then '0' at each power of two and the next
      data character at every other position. */
  method LayOut(data: string, n: nat) returns (word: string)
    requires DataUpTo(n) == |data|
    ensures word == Layout(data, n)
  {
    word := Zeros(n);
    var j := 0;
    var i := 1;
    while i <= n
      invariant 1 <= i <= n + 1
      invariant j == DataUpTo(i - 1)
      invariant |word| == n
      invariant forall q :: 0 <= q < i - 1 ==> word[q] == LayoutAt(data, q)
    {
      PowerTest(i);
      if BitAnd(i, i - 1) == 0 {
        word := word[i - 1 := '0'];
      } else {
        DataUpToMonotone(i, n);
        word := word[i - 1 := data[j]];
        j := j + 1;
      }
      i := i + 1;
    }
    LayoutIs(data, word);
  }

  lemma EncodedUpToZero(w: string)
    ensures Writing(w, w, 0) && ChecksRead(w, 0)
  {
  }

  /** Position `q` of the word after the checks below `c` have written their parity. */
  function EncodedUpTo(layout: string, c: nat, q: nat): char
    requires q < |layout|
  {
    if IsPowerOfTwo(q + 1) && Log2(q + 1) < c then ParityChar(CheckSum(layout, Log2(q + 1), |layout|))
    else layout[q]
  }

  /** Check `c` reads the same on the word being built as on the layout: the parity bits
      written so far sit at positions it does not cover. */
  lemma SameCheck(w: string, word: string, c: nat)
    requires Writing(w, word, c)
    ensures CheckSum(word, c, |w|) == CheckSum(w, c, |w|)
    ensures CheckDigits(word, c, |w|) <==> CheckDigits(w, c, |w|)
  {
    forall q | 0 <= q < |w| && Covered(q, c) ensures word[q] == w[q] {
      if IsPowerOfTwo(q + 1) {
        PowerPositionBits(q + 1, c);
      }
    }
    AgreeOnCheck(word, w, c, |w|);
  }

  /** Writing the parity of check `c` at `2^c - 1` extends the word to the next check. */
  lemma ParityLoopStep(w: string, word: string, c: nat, v: nat, next: string)
    requires Pow2(c) - 1 < |w| && Writing(w, word, c) && ChecksRead(w, c) && CheckDigits(w, c, |w|)
    requires v % 2 == CheckSum(w, c, |w|) % 2
    requires next == word[Pow2(c) - 1 := ParityChar(v)]
    ensures Writing(w, next, c + 1) && ChecksRead(w, c + 1)
  {
    forall q | 0 <= q < |w| ensures next[q] == EncodedUpTo(w, c + 1, q) {
      if q == Pow2(c) - 1 {
        IsPowerOfTwoPow2(c);
      } else {
        OtherSlot(q, c);
      }
    }
  }

  /** A parity position other than `2^c - 1` belongs to another check than `c`. */
  lemma OtherSlot(q: nat, c: nat)
    requires q != Pow2(c) - 1
    ensures IsPowerOfTwo(q + 1) ==> Log2(q + 1) != c
  {
    PowerOfTwoIff(q + 1);
  }

  /** Once all `r` checks have written their parity, the word is the encoded word. */
  lemma ParityLoopDone(w: string, r: nat)
    requires |w| < Pow2(r)
    ensures forall q :: 0 <= q < |w| ==> EncodedUpTo(w, r, q) == EncodedAt(w, q)
  {
    forall q | 0 <= q < |w| ensures EncodedUpTo(w, r, q) == EncodedAt(w, q) {
      if IsPowerOfTwo(q + 1) {
        Log2Below(q + 1, r);
      }
    }
  }

  /** A check that meets a non-digit in the layout met one in the data. */
  lemma LayoutNonDigit(d: string, n: nat, i: nat)
    requires DataUpTo(n) <= |d|
    requires !CheckDigits(Layout(d, n), i, n)
    ensures !AllDigits(d)
  {
    var q :| 0 <= q < n && Covered(q, i) && !IsDigit(Layout(d, n)[q]);
    assert !IsPowerOfTwo(q + 1);
    DataUpToMonotone(q + 1, n);
    assert Layout(d, n)[q] == d[DataUpTo(q)];
  }

  /** When all `r` checks read digits only, every data character is a digit: each one sits
      at a position some check covers. */
  lemma LayoutDigits(d: string, n: nat, r: nat)
    requires DataUpTo(n) == |d| && n < Pow2(r)
    requires forall t :: 0 <= t < r ==> CheckDigits(Layout(d, n), t, n)
    ensures AllDigits(d)
  {
    forall k | 0 <= k < |d| ensures IsDigit(d[k]) {
      DataPosition(k, n);
      var q :| 0 <= q < n && !IsPowerOfTwo(q + 1) && DataUpTo(q) == k;
      SomeBitSet(q + 1, r);
      var t :| 0 <= t < r && Bit(q + 1, t) == 1;
      var w := Layout(d, n);
      DataUpToMonotone(q + 1, n);
      assert CheckDigits(w, t, n);
      assert Covered(q, t);
      assert IsDigit(w[q]);
      assert w[q] == d[k];
    }
  }

  /** The characters at the positions that are not powers of two, in order. The loop of
      `decode` that builds `decoded_data`. */
  method ExtractData(s: string) returns (d: string)
    ensures d == Extract(s)
  {
    d := [];
    var i := 1;
    while i <= |s|
      invariant 1 <= i <= |s| + 1
      invariant d == Extract(s[..i - 1])
    {
      assert s[..i][..i - 1] == s[..i - 1];
      PowerTest(i);
      if BitAnd(i, i - 1) != 0 {
        d := d + [s[i - 1]];
      }
      i := i + 1;
    }
    assert s[..|s|] == s;
  }

  /** Every position of a word of length `n` is covered by one of the first `BitLength(n)`
      checks, so the checks read digits only exactly when the whole word is digits. */
  lemma ChecksCoverWord(s: string, r: nat)
    requires r == BitLength(|s|)
    ensures AllDigits(s) <==> forall t :: 0 <= t < r ==> CheckDigits(s, t, |s|)
  {
    if forall t :: 0 <= t < r ==> CheckDigits(s, t, |s|) {
      forall q | 0 <= q < |s| ensures IsDigit(s[q]) {
        SomeBitSet(q + 1, r);
        var t :| 0 <= t < r && Bit(q + 1, t) == 1;
        assert CheckDigits(s, t, |s|);
      }
    }
  }

  /** `decode(encoded_data)`. */
  method Decode(encoded: string) returns (decoded: Option<string>)
    ensures decoded == Decoded(encoded)
  {
    var word := encoded;
    var n := |word|;
    var r := CheckBits(n);
    var errorPos := 0;
    var c := 0;
    while c < r
      invariant c <= r
      invariant errorPos == Syndrome(word, c)
      invariant forall t :: 0 <= t < c ==> CheckDigits(word, t, n)
    {
      var x := Pow2(c);
      var parity := CheckParity(word, c);
      if parity.None? {
        ChecksCoverWord(word, r);
        return None;
      }
      if parity.value % 2 != 0 {
        errorPos := errorPos + x;
      }
      c := c + 1;
    }
    ChecksCoverWord(word, r);
    if errorPos != 0 {
      if errorPos - 1 >= n {
        return None;
      }
      word := word[errorPos - 1 := if word[errorPos - 1] == '0' then '1' else '0'];
    }
    var data := ExtractData(word);
    return Some(data);
  }

  /** `decode` returns `n - BitLength(n)` characters. */
  lemma DecodedLength(s: string)
    requires Decoded(s).Some?
    ensures |Decoded(s).value| == |s| - BitLength(|s|)
  {
    ExtractLength(Corrected(s, Syndrome(s, BitLength(|s|))));
    PowersUpToIsBitLength(|s|);
  }

  /** Two words that agree off the powers of two hold the same data. */
  lemma {:induction false} ExtractAgree(s: string, t: string)
    requires |s| == |t|
    requires forall q :: 0 <= q < |s| && !IsPowerOfTwo(q + 1) ==> s[q] == t[q]
    ensures Extract(s) == Extract(t)
  {
    if s != [] {
      ExtractAgree(s[..|s| - 1], t[..|t| - 1]);
    }
  }

  /** The data read back from a layout is the data laid out. */
  lemma {:induction false} ExtractLayout(d: string, n: nat)
    requires DataUpTo(n) <= |d|
    ensures Extract(Layout(d, n)) == d[..DataUpTo(n)]
  {
    if n > 0 {
      var m, w := n - 1, Layout(d, n);
      assert DataUpTo(m) <= |d| by {
        DataUpToMonotone(m, n);
      }
      var k := DataUpTo(m);
      assert Extract(Layout(d, m)) == d[..k] by {
        ExtractLayout(d, m);
      }
      assert Extract(w) == Extract(Layout(d, m)) + LastData(w) by {
        LayoutPrefix(d, n);
      }
      LayoutLast(d, n);
    }
  }

  /** The last position of a layout adds its data character, if it holds one. */
  lemma LayoutLast(d: string, n: nat)
    requires n > 0 && DataUpTo(n) <= |d|
    ensures d[..DataUpTo(n)] == d[..DataUpTo(n - 1)] + LastData(Layout(d, n))
  {
    var k := DataUpTo(n - 1);
    if !IsPowerOfTwo(n) {
      assert Layout(d, n)[n - 1] == LayoutAt(d, n - 1);
      assert d[..k + 1] == d[..k] + [d[k]];
    }
  }

  lemma LayoutPrefix(d: string, n: nat)
    requires n > 0
    ensures Layout(d, n)[..n - 1] == Layout(d, n - 1)
    ensures |Layout(d, n)| == n
  {
  }

  /** The data bits sit at the positions that are not powers of two, in their order. */
  lemma ExtractEncoded(d: string)
    ensures Extract(Encoded(d)) == d
  {
    var n := |d| + ParityCount(|d|);
    CodewordData(|d|);
    ExtractAgree(Encoded(d), Layout(d, n));
    ExtractLayout(d, n);
  }

  /** After `encode`, every check `i < r` covers an even digit sum. */
  lemma EncodedChecksEven(d: string, i: nat)
    requires i < ParityCount(|d|)
    ensures CheckSum(Encoded(d), i, |Encoded(d)|) % 2 == 0
  {
    ParitySlot(|d|, i);
    EncodedAgreesOnCheck(d, i);
    LayoutSlot(d, |Encoded(d)|, i);
    ParityWritten(Layout(d, |Encoded(d)|), Encoded(d), i);
  }

  /** The layout holds '0' at position `2^i - 1`, which check `i` covers. */
  lemma LayoutSlot(d: string, n: nat, i: nat)
    requires Pow2(i) - 1 < n
    ensures Layout(d, n)[Pow2(i) - 1] == '0' && Covered(Pow2(i) - 1, i)
  {
    var q := Pow2(i) - 1;
    assert q + 1 == Pow2(i);
    BitOfPow2(i, i);
    IsPowerOfTwoPow2(i);
    assert Layout(d, n)[q] == LayoutAt(d, q);
  }

  /** A word that agrees with `w` on the positions check `i` covers, except at `2^i - 1`
      where `w` holds '0' and the word holds the parity of the check on `w`, passes check `i`. */
  lemma ParityWritten(w: string, e: string, i: nat)
    requires |e| == |w| && Pow2(i) - 1 < |w| && Covered(Pow2(i) - 1, i) && w[Pow2(i) - 1] == '0'
    requires forall q :: 0 <= q < |w| && Covered(q, i) && q != Pow2(i) - 1 ==> e[q] == w[q]
    requires e[Pow2(i) - 1] == ParityChar(CheckSum(w, i, |w|))
    ensures CheckSum(e, i, |e|) % 2 == 0
  {
    var x, sum := Pow2(i), CheckSum(w, i, |w|);
    var fixed := w[x - 1 := ParityChar(sum)];
    AgreeOnCheck(e, fixed, i, |w|);
    CheckSumUpdate(w, i, x - 1, ParityChar(sum), |w|);
    ParityCharValue(sum);
  }

  /** Writing `str(v % 2)` next to digits summing to `v` makes the sum even. */
  lemma ParityCharValue(v: nat)
    ensures DigitValue(ParityChar(v)) == v % 2
    ensures (v + v % 2) % 2 == 0
  {
  }

  /** Parity bit `i < r` has its slot `2^i - 1` inside the word of `m + r` characters. */
  lemma ParitySlot(m: nat, i: nat)
    requires i < ParityCount(m)
    ensures Pow2(i) - 1 < m + ParityCount(m)
  {
    var r := ParityCount(m);
    assert Pow2(r - 1) < m + r;
    if i < r - 1 {
      Pow2Monotone(i, r - 1);
    }
  }

  /** On the positions check `i` covers, the encoded word is the layout, except at `2^i - 1`
      where it holds the parity of that check on the layout. */
  lemma EncodedAgreesOnCheck(d: string, i: nat)
    requires i < ParityCount(|d|) && Pow2(i) - 1 < |Encoded(d)|
    ensures forall q :: 0 <= q < |Encoded(d)| && Covered(q, i) && q != Pow2(i) - 1 ==>
              Encoded(d)[q] == Layout(d, |Encoded(d)|)[q]
    ensures Encoded(d)[Pow2(i) - 1] == ParityChar(CheckSum(Layout(d, |Encoded(d)|), i, |Encoded(d)|))
  {
    var e := Encoded(d);
    var w := Layout(d, |e|);
    forall q | 0 <= q < |e| && Covered(q, i) && q != Pow2(i) - 1 ensures e[q] == w[q] {
      EncodedIndex(d, q);
      CoveredNonSlot(w, q, i);
    }
    EncodedIndex(d, Pow2(i) - 1);
    SlotParity(w, i);
  }

  /** The encoder writes the parity of check `i` at position `2^i - 1`. */
  lemma SlotParity(w: string, i: nat)
    requires Pow2(i) - 1 < |w|
    ensures EncodedAt(w, Pow2(i) - 1) == ParityChar(CheckSum(w, i, |w|))
  {
    var q := Pow2(i) - 1;
    assert q + 1 == Pow2(i);
    IsPowerOfTwoPow2(i);
  }

  /** Position `q` of `Encoded(d)` is `EncodedAt` of the layout. */
  lemma EncodedIndex(d: string, q: nat)
    requires q < |Encoded(d)|
    ensures Encoded(d)[q] == EncodedAt(Layout(d, |Encoded(d)|), q)
  {
  }

  /** A position check `i` covers, other than `2^i - 1`, is not a parity position. */
  lemma CoveredNonSlot(w: string, q: nat, i: nat)
    requires q < |w| && Covered(q, i) && q != Pow2(i) - 1
    ensures EncodedAt(w, q) == w[q]
  {
    if IsPowerOfTwo(q + 1) {
      PowerPositionBits(q + 1, i);
      PowerOfTwoIff(q + 1);
    }
  }

  /** The syndrome of a word whose check `t` is odd exactly when digit `t` of `p` is set. */
  lemma {:induction false} SyndromeIs(s: string, c: nat, p: nat)
    requires forall t :: 0 <= t < c ==> (CheckSum(s, t, |s|) % 2 != 0 <==> Bit(p, t) == 1)
    ensures Syndrome(s, c) == BitSum(p, c)
  {
    if c > 0 {
      SyndromeIs(s, c - 1, p);
    }
  }

  lemma EncodedDigits(d: string)
    requires AllDigits(d)
    ensures AllDigits(Encoded(d))
    ensures IsBits(d) ==> IsBits(Encoded(d))
  {
    var e := Encoded(d);
    var w := Layout(d, |e|);
    forall q | 0 <= q < |e| ensures IsDigit(e[q]) && (IsBits(d) ==> IsBit(e[q])) {
      EncodedIndex(d, q);
      LayoutDigit(d, q);
      EncodedAtDigit(w, q);
    }
  }

  /** The layout holds '0' or a character of the data. */
  lemma LayoutDigit(d: string, q: nat)
    requires AllDigits(d)
    ensures IsDigit(LayoutAt(d, q)) && (IsBits(d) ==> IsBit(LayoutAt(d, q)))
  {
  }

  /** The encoder writes '0' or '1' at the parity positions and copies the rest. */
  lemma EncodedAtDigit(w: string, q: nat)
    requires q < |w|
    ensures IsDigit(w[q]) ==> IsDigit(EncodedAt(w, q))
    ensures IsBit(w[q]) ==> IsBit(EncodedAt(w, q))
  {
  }

  /** A word of digits on which every check `decode` makes comes out even. */
  ghost predicate Codeword(e: string) {
    AllDigits(e) && forall t :: 0 <= t < BitLength(|e|) ==> CheckSum(e, t, |e|) % 2 == 0
  }

  /** `encode` produces code words. */
  lemma EncodedIsCodeword(d: string)
    requires AllDigits(d)
    ensures Codeword(Encoded(d))
    ensures IsBits(d) ==> IsBits(Encoded(d))
  {
    BitLengthOfCodeword(|d|);
    EncodedDigits(d);
    forall t | 0 <= t < ParityCount(|d|) ensures CheckSum(Encoded(d), t, |Encoded(d)|) % 2 == 0 {
      EncodedChecksEven(d, t);
    }
  }

  /** A code word decodes to its data positions unchanged. */
  lemma DecodeCodeword(e: string)
    requires Codeword(e)
    ensures Decoded(e) == Some(Extract(e))
  {
    var r := BitLength(|e|);
    forall t | 0 <= t < r ensures CheckSum(e, t, |e|) % 2 != 0 <==> Bit(0, t) == 1 {
      BitOfZero(t);
    }
    SyndromeIs(e, r, 0);
    BitSumIs(0, r);
  }

  /** Flipping one bit of a word of bits makes exactly the checks that cover it change
      parity. */
  lemma FlipCheck(e: string, q: nat, t: nat)
    requires IsBits(e) && q < |e|
    ensures CheckSum(e[q := FlipChar(e[q])], t, |e|) % 2 != CheckSum(e, t, |e|) % 2 <==> Covered(q, t)
  {
    CheckSumUpdate(e, t, q, FlipChar(e[q]), |e|);
    assert IsBit(e[q]);
  }

  /** A code word of bits with one bit flipped decodes to the data of the code word. */
  lemma CorrectsOneFlip(e: string, q: nat)
    requires Codeword(e) && IsBits(e) && q < |e|
    ensures Decoded(e[q := FlipChar(e[q])]) == Some(Extract(e))
  {
    var r := BitLength(|e|);
    var f := e[q := FlipChar(e[q])];
    forall t | 0 <= t < r ensures CheckSum(f, t, |f|) % 2 != 0 <==> Bit(q + 1, t) == 1 {
      FlipCheck(e, q, t);
    }
    SyndromeIs(f, r, q + 1);
    BitSumIs(q + 1, r);
    assert AllDigits(f) by {
      assert forall k :: 0 <= k < |f| ==> IsBit(f[k]);
    }
    assert Corrected(f, q + 1) == e;
  }

  /** `decode(encode(d)) == d`. */
  lemma DecodeEncoded(d: string)
    requires AllDigits(d)
    ensures Decoded(Encoded(d)) == Some(d)
  {
    EncodedIsCodeword(d);
    DecodeCodeword(Encoded(d));
    ExtractEncoded(d);
  }

  /** Flipping any one bit of `encode(d)` and decoding gives `d` back: the odd checks are
      exactly those covering the flipped position, so the syndrome is that position. */
  lemma SingleErrorCorrected(d: string, q: nat)
    requires IsBits(d) && q < |Encoded(d)|
    ensures Decoded(Encoded(d)[q := FlipChar(Encoded(d)[q])]) == Some(d)
  {
    EncodedIsCodeword(d);
    CorrectsOneFlip(Encoded(d), q);
    ExtractEncoded(d);
  }

  /** The empty string encodes to the empty string and decodes to it. */
  lemma EmptyWord()
    ensures Encoded("") == "" && Decoded("") == Some("")
  {
    assert ParityCount(0) == 0 by {
      assert Pow2(0) >= 0 + 0 + 1;
    }
    assert BitLength(0) == 0;
  }

  lemma {:induction false} ZeroSum(s: string, t: nat, k: nat)
    requires k <= |s| && forall q :: 0 <= q < |s| ==> s[q] == '0'
    ensures CheckSum(s, t, k) == 0
  {
    if k > 0 {
      ZeroSum(s, t, k - 1);
    }
  }

  /** A data word of zeros lays out and encodes to a word of zeros. */
  lemma ZerosEncoded(d: string)
    requires forall q :: 0 <= q < |d| ==> d[q] == '0'
    ensures forall q :: 0 <= q < |Encoded(d)| ==> Encoded(d)[q] == '0'
  {
    var n := |d| + ParityCount(|d|);
    var w := Layout(d, n);
    assert forall q :: 0 <= q < n ==> w[q] == '0';
    forall q | 0 <= q < n ensures Encoded(d)[q] == '0' {
      if IsPowerOfTwo(q + 1) {
        ZeroSum(w, Log2(q + 1), n);
      }
    }
  }

  lemma ParityCountTwo()
    ensures ParityCount(2) == 3
  {
    assert Pow2(1) == 2 && Pow2(2) == 4 && Pow2(3) == 8;
  }

  lemma BitLengthFive()
    ensures BitLength(5) == 3
  {
    assert Pow2(1) == 2 && Pow2(2) == 4 && Pow2(3) == 8;
  }

  /** The three checks of "00110" each cover exactly one of its two ones. */
  lemma ChecksOfOverrun()
    ensures CheckSum("00110", 0, 5) == 1
    ensures CheckSum("00110", 1, 5) == 1
    ensures CheckSum("00110", 2, 5) == 1
  {
    var s := "00110";
    assert DigitValue(s[0]) == 0 && DigitValue(s[1]) == 0 && DigitValue(s[4]) == 0;
    assert DigitValue(s[2]) == 1 && DigitValue(s[3]) == 1;
    assert Covered(2, 0) && !Covered(3, 0) && Covered(2, 1) && !Covered(3, 1);
    assert Covered(3, 2) && !Covered(2, 2);
  }

  /** Two flipped bits can point the syndrome past the end: "00" encodes to "00000", flipping
      its third and fourth characters gives "00110", whose three checks all come out odd, and
      position 7 is beyond the five characters. */
  lemma TwoErrorsOverrun()
    ensures Encoded("00") == "00000"
    ensures Decoded("00110") == None
  {
    ParityCountTwo();
    ZerosEncoded("00");
    BitLengthFive();
    ChecksOfOverrun();
    assert Syndrome("00110", 3) == 7;
  }
}
