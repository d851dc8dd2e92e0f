/** The byte-level Hamming coder: whole bytes stand where a textbook coder has bits.

    `code` lists the parity positions `1, 2, 4, ...` for the configured word size, opens a zero
    byte at each of those 1-indexed positions of the whole input, and then overwrites the byte
    at index `2^i - 1` with the XOR of the bytes at the indices `q` where `(q + 1) & (2^i - 1)`
    is not zero. `decode` cuts its input into words of `word_size` bytes, flips the low bit of
    the bytes its checks point at, and drops the bytes at the positions `2^j`, `j < k`, where
    `k` is one less than the bit length of eight times the input length.

    The word size comes from the settings file; here it is a parameter. `int(...)` of a
    setting that is not a number and a missing section are not part of this model. */
module HammingBytes {
  import opened Wrappers
  import opened Bits
  import opened HammingMath

  function Min(a: int, b: int): int {
    if a <= b then a else b
  }

  /** `[2 ** i for i in range(t)]` */
  function Powers(t: nat): (pb: seq<int>)
    ensures |pb| == t
    ensures forall i :: 0 <= i < t ==> pb[i] == Pow2(i)
  {
    if t == 0 then [] else Powers(t - 1) + [Pow2(t - 1)]
  }

  /** How many positions `calculate_parity_bits(word_size)` lists: it stops at the first `i`
      with `2^i >= word_size + i + 1`, and `range(word_size)` stops it at `word_size`. */
  function ParityListLength(wordSize: int): nat {
    if wordSize <= 0 then 0 else Min(ParityCount(wordSize), wordSize)
  }

  /** `calculate_parity_bits(word_size)`: the powers of two `2^i` for which a data word of
      `word_size` bytes still needs a parity position, and never more than `word_size` of them. */
  method CalculateParityBits(wordSize: int) returns (pb: seq<int>)
    ensures pb == Powers(ParityListLength(wordSize))
    ensures forall i :: 0 <= i < |pb| ==> pb[i] < wordSize + i + 1
    ensures |pb| <= if wordSize <= 0 then 0 else wordSize
  {
    pb := [];
    var i := 0;
    while i < wordSize
      invariant if wordSize > 0 then 0 <= i <= wordSize else i == 0
      invariant pb == Powers(i)
      invariant forall k :: 0 <= k < i ==> Pow2(k) < wordSize + k + 1
      decreases wordSize - i
    {
      if Pow2(i) >= wordSize + i + 1 {
        assert ParityCount(wordSize) == i;
        return;
      }
      pb := pb + [Pow2(i)];
      i := i + 1;
    }
    if wordSize > 0 {
      assert i == wordSize && i <= ParityCount(wordSize);
    }
  }

  /** How many of the positions `1..k` are not in `pb`: the data bytes they take. */
  function FreeUpTo(k: nat, pb: seq<int>): nat {
    if k == 0 then 0 else FreeUpTo(k - 1, pb) + (if k in pb then 0 else 1)
  }

  lemma {:induction false} FreeUpToMonotone(j: nat, k: nat, pb: seq<int>)
    requires j <= k
    ensures FreeUpTo(j, pb) <= FreeUpTo(k, pb)
    decreases k
  {
    if j < k {
      FreeUpToMonotone(j, k - 1, pb);
    }
  }

  /** How many distinct values of `pb` lie in `1..k`. */
  function SlotsIn(pb: seq<int>, k: nat): (c: nat)
    ensures c <= |pb|
  {
    if pb == [] then 0
    else
      var init, x := pb[..|pb| - 1], pb[|pb| - 1];
      SlotsIn(init, k) + (if 1 <= x <= k && x !in init then 1 else 0)
  }

  /** Adding a position to the list takes one free position away when it is new and in range. */
  lemma {:induction false} FreeUpToSnoc(k: nat, init: seq<int>, x: int)
    ensures FreeUpTo(k, init + [x]) + (if 1 <= x <= k && x !in init then 1 else 0) == FreeUpTo(k, init)
  {
    if k > 0 {
      FreeUpToSnoc(k - 1, init, x);
    }
  }

  /** The positions `1..k` split into the free ones and the distinct listed ones. */
  lemma {:induction false} FreeAndSlots(k: nat, pb: seq<int>)
    ensures FreeUpTo(k, pb) + SlotsIn(pb, k) == k
  {
    if pb == [] {
      FreeNoSlots(k);
    } else {
      var init, x := pb[..|pb| - 1], pb[|pb| - 1];
      FreeAndSlots(k, init);
      FreeUpToSnoc(k, init, x);
      assert pb == init + [x];
    }
  }

  lemma {:induction false} FreeNoSlots(k: nat)
    ensures FreeUpTo(k, []) == k
  {
    if k > 0 {
      FreeNoSlots(k - 1);
    }
  }

  /** All `|pb|` values count exactly when they are distinct and lie in `1..k`. */
  lemma {:induction false} SlotsFull(pb: seq<int>, k: nat)
    ensures SlotsIn(pb, k) == |pb| <==>
              (forall i :: 0 <= i < |pb| ==> 1 <= pb[i] <= k) &&
              (forall i, j :: 0 <= i < j < |pb| ==> pb[i] != pb[j])
  {
    if pb != [] {
      var init, x := pb[..|pb| - 1], pb[|pb| - 1];
      SlotsFull(init, k);
      assert forall i :: 0 <= i < |init| ==> pb[i] == init[i];
      if x in init {
        var j :| 0 <= j < |init| && init[j] == x;
        assert pb[j] == pb[|pb| - 1];
      }
    }
  }

  /** The byte `insert_parity_bits` puts at index `q`: 0 at a listed position, otherwise the
      next input byte. */
  function InsertedAt(s: seq<Byte>, pb: seq<int>, q: nat): Byte {
    if q + 1 in pb || FreeUpTo(q, pb) >= |s| then 0 else s[FreeUpTo(q, pb)]
  }

  /** `insert_parity_bits(s, pb)`: `None` where `byte_sequence[position]` runs past the input,
      which happens exactly when fewer than `|pb|` distinct values of `pb` lie in
      `1..len(s) + len(pb)`. */
  function Inserted(s: seq<Byte>, pb: seq<int>): Option<seq<Byte>> {
    var n := |s| + |pb|;
    if FreeUpTo(n, pb) > |s| then None
    else Some(seq(n, q requires 0 <= q < n => InsertedAt(s, pb, q)))
  }

  method InsertParityBits(s: seq<Byte>, pb: seq<int>) returns (r: Option<seq<Byte>>)
    ensures r == Inserted(s, pb)
  {
    var n := |s| + |pb|;
    var out: seq<Byte> := [];
    var position := 0;
    var i := 0;
    while i < n
      invariant 0 <= i <= n && |out| == i
      invariant position == FreeUpTo(i, pb) && position <= |s|
      invariant forall q :: 0 <= q < i ==> out[q] == InsertedAt(s, pb, q)
    {
      if i + 1 in pb {
        out := out + [0];
      } else {
        if position >= |s| {
          FreeUpToMonotone(i + 1, n, pb);
          return None;
        }
        out := out + [s[position]];
        position := position + 1;
      }
      i := i + 1;
    }
    assert out == seq(n, q requires 0 <= q < n => InsertedAt(s, pb, q));
    return Some(out);
  }

  /** Insertion succeeds exactly when the listed positions are distinct and all lie inside the
      result, whose length is then `len(s) + len(pb)`. */
  lemma InsertedSucceeds(s: seq<Byte>, pb: seq<int>)
    ensures Inserted(s, pb).Some? <==>
              (forall i :: 0 <= i < |pb| ==> 1 <= pb[i] <= |s| + |pb|) &&
              (forall i, j :: 0 <= i < j < |pb| ==> pb[i] != pb[j])
    ensures Inserted(s, pb).Some? ==> |Inserted(s, pb).value| == |s| + |pb|
  {
    FreeAndSlots(|s| + |pb|, pb);
    SlotsFull(pb, |s| + |pb|);
  }

  /** A listed position holds 0, and every other position holds the next input byte. */
  lemma InsertedContents(s: seq<Byte>, pb: seq<int>, q: nat)
    requires Inserted(s, pb).Some? && q < |s| + |pb|
    ensures q + 1 in pb ==> Inserted(s, pb).value[q] == 0
    ensures q + 1 !in pb ==> FreeUpTo(q, pb) < |s| && Inserted(s, pb).value[q] == s[FreeUpTo(q, pb)]
  {
    FreeUpToMonotone(q + 1, |s| + |pb|, pb);
  }

  /** `remove_parity_bits(w, pb)` and `correct_byte(w, pb)`: the bytes at the 1-indexed
      positions not listed in `pb`, in order. */
  function Removed(w: seq<Byte>, pb: seq<int>): (r: seq<Byte>)
    ensures |r| == FreeUpTo(|w|, pb)
  {
    if w == [] then []
    else Removed(w[..|w| - 1], pb) + (if |w| in pb then [] else [w[|w| - 1]])
  }

  method RemoveParityBits(w: seq<Byte>, pb: seq<int>) returns (r: seq<Byte>)
    ensures r == Removed(w, pb)
  {
    r := [];
    var i := 0;
    while i < |w|
      invariant 0 <= i <= |w|
      invariant r == Removed(w[..i], pb)
    {
      assert w[..i + 1][..i] == w[..i];
      if i + 1 !in pb {
        r := r + [w[i]];
      }
      i := i + 1;
    }
    assert w[..|w|] == w;
  }

  /** The byte at an unlisted position `q + 1` is the `FreeUpTo(q)`-th byte kept. */
  lemma {:induction false} RemovedAt(w: seq<Byte>, pb: seq<int>, q: nat)
    requires q < |w| && q + 1 !in pb
    ensures FreeUpTo(q, pb) < |Removed(w, pb)| && Removed(w, pb)[FreeUpTo(q, pb)] == w[q]
  {
    FreeUpToMonotone(q + 1, |w|, pb);
    if q < |w| - 1 {
      RemovedAt(w[..|w| - 1], pb, q);
    }
  }

  /** Two byte strings that agree on the unlisted positions keep the same bytes. */
  lemma {:induction false} RemovedAgree(v: seq<Byte>, w: seq<Byte>, pb: seq<int>)
    requires |v| == |w| && forall q :: 0 <= q < |w| && q + 1 !in pb ==> v[q] == w[q]
    ensures Removed(v, pb) == Removed(w, pb)
  {
    if w != [] {
      RemovedAgree(v[..|v| - 1], w[..|w| - 1], pb);
    }
  }

  /** Removing the parity positions again gives back the bytes that were inserted. */
  lemma RemoveInserted(s: seq<Byte>, pb: seq<int>)
    requires Inserted(s, pb).Some?
    ensures Removed(Inserted(s, pb).value, pb) == s
  {
    var w := Inserted(s, pb).value;
    FreeAndSlots(|w|, pb);
    assert FreeUpTo(|w|, pb) == |s|;
    forall k | 0 <= k < |s| ensures Removed(w, pb)[k] == s[k] {
      FreePosition(k, |w|, pb);
      var q :| 0 <= q < |w| && q + 1 !in pb && FreeUpTo(q, pb) == k;
      RemovedAt(w, pb, q);
    }
  }

  /** The `k`-th free position. */
  lemma {:induction false} FreePosition(k: nat, n: nat, pb: seq<int>)
    requires k < FreeUpTo(n, pb)
    ensures exists q :: 0 <= q < n && q + 1 !in pb && FreeUpTo(q, pb) == k
  {
    if k < FreeUpTo(n - 1, pb) {
      FreePosition(k, n - 1, pb);
    } else {
      assert n - 1 + 1 !in pb && FreeUpTo(n - 1, pb) == k;
    }
  }

  /** The XOR of the bytes among the first `k` whose index `i` has `(i + 1) & position != 0`. */
  function ParityByte(w: seq<Byte>, position: nat, k: nat): (v: Byte)
    requires k <= |w|
  {
    if k == 0 then 0
    else
      var v := ParityByte(w, position, k - 1);
      if BitAnd(k, position) != 0 then (XorBound(v, w[k - 1], 8); Xor(v, w[k - 1])) else v
  }

  /** `calculate_parity_bit(w, position, parity_bit)`; `parity_bit` is not read. */
  method CalculateParityBit(w: seq<Byte>, position: nat, parityBit: int) returns (value: Byte)
    ensures value == ParityByte(w, position, |w|)
  {
    value := 0;
    var i := 0;
    while i < |w|
      invariant 0 <= i <= |w|
      invariant value == ParityByte(w, position, i)
    {
      if BitAnd(i + 1, position) != 0 {
        XorBound(value, w[i], 8);
        value := Xor(value, w[i]);
      }
      i := i + 1;
    }
  }

  /** Position 0 selects no byte: `(i + 1) & 0` is always 0. */
  lemma {:induction false} ParityAtZero(w: seq<Byte>, k: nat)
    requires k <= |w|
    ensures ParityByte(w, 0, k) == 0
  {
    if k > 0 {
      ParityAtZero(w, k - 1);
    }
  }

  /** A parity position of the first `t`: `q + 1` is `2^i` for some `i < t`. */
  predicate ParityIndex(q: nat, t: nat) {
    IsPowerOfTwo(q + 1) && Log2(q + 1) < t
  }

  /** The parity loop of `code` after `t` passes: pass `i` overwrites index `2^i - 1` with
      the parity byte of the current bytes. */
  function Filled(w: seq<Byte>, t: nat): (r: seq<Byte>)
    requires t == 0 || Pow2(t - 1) <= |w|
    ensures |r| == |w|
    ensures forall q :: 0 <= q < |w| && !ParityIndex(q, t) ==> r[q] == w[q]
  {
    if t == 0 then w
    else
      PreviousFits(w, t);
      var v := Filled(w, t - 1);
      var x := Pow2(t - 1);
      IsPowerOfTwoPow2(t - 1);
      assert forall q :: 0 <= q < |w| && !ParityIndex(q, t) ==> q != x - 1;
      v[x - 1 := ParityByte(v, x - 1, |v|)]
  }

  lemma PreviousFits(w: seq<Byte>, t: nat)
    requires t >= 1 && Pow2(t - 1) <= |w|
    ensures t - 1 == 0 || Pow2(t - 2) <= |w|
  {
    if t >= 2 {
      Pow2Monotone(t - 2, t - 1);
    }
  }

  /** What `code(byte_sequence)` returns: `None` where insertion runs past the input. */
  function Coded(data: seq<Byte>, wordSize: int): Option<seq<Byte>> {
    var pb := Powers(ParityListLength(wordSize));
    match Inserted(data, pb)
    case None => None
    case Some(w) =>
      PowersFit(data, wordSize);
      Some(Filled(w, |pb|))
  }

  lemma PowersFit(data: seq<Byte>, wordSize: int)
    requires Inserted(data, Powers(ParityListLength(wordSize))).Some?
    ensures var t := ParityListLength(wordSize);
            t == 0 || Pow2(t - 1) <= |Inserted(data, Powers(t)).value|
  {
    var t := ParityListLength(wordSize);
    InsertedSucceeds(data, Powers(t));
  }

  /** Every listed power of two is at most the largest one. */
  lemma PowerBelow(i: nat, t: nat, n: nat)
    requires i < t && Pow2(t - 1) <= n
    ensures Pow2(i) <= n
  {
    if i < t - 1 {
      Pow2Monotone(i, t - 1);
    }
  }

  /** `code(byte_sequence)` with the configured word size. */
  method Code(data: seq<Byte>, wordSize: int) returns (r: Option<seq<Byte>>)
    ensures r == Coded(data, wordSize)
  {
    var pb := CalculateParityBits(wordSize);
    var inserted := InsertParityBits(data, pb);
    if inserted.None? {
      return None;
    }
    PowersFit(data, wordSize);
    var w := FillParity(inserted.value, pb);
    return Some(w);
  }

  /** The loop of `code` that writes the parity byte of each listed position in turn. */
  method FillParity(inserted: seq<Byte>, pb: seq<int>) returns (w: seq<Byte>)
    requires |pb| == 0 || Pow2(|pb| - 1) <= |inserted|
    ensures w == Filled(inserted, |pb|)
  {
    w := inserted;
    var i := 0;
    while i < |pb|
      invariant 0 <= i <= |pb|
      invariant i == 0 || Pow2(i - 1) <= |inserted|
      invariant w == Filled(inserted, i)
    {
      PowerBelow(i, |pb|, |inserted|);
      var position := Pow2(i) - 1;
      var value := CalculateParityBit(w, position, pb[i]);
      w := w[position := value];
      i := i + 1;
    }
  }

  /** Coding succeeds exactly when the largest listed power of two fits in the result, the
      result is `len(data) + len(parity_bits)` bytes long, and the data bytes are the bytes at
      the unlisted positions: `remove_parity_bits(code(data), parity_bits) == data`. */
  lemma CodedShape(data: seq<Byte>, wordSize: int)
    ensures var t := ParityListLength(wordSize);
            Coded(data, wordSize).Some? <==> t == 0 || Pow2(t - 1) <= |data| + t
    ensures Coded(data, wordSize).Some? ==>
              |Coded(data, wordSize).value| == |data| + ParityListLength(wordSize) &&
              (forall q :: 0 <= q < |data| + ParityListLength(wordSize) &&
                           !ParityIndex(q, ParityListLength(wordSize)) ==>
                 Coded(data, wordSize).value[q] == Inserted(data, Powers(ParityListLength(wordSize))).value[q]) &&
              Removed(Coded(data, wordSize).value, Powers(ParityListLength(wordSize))) == data
  {
    var t := ParityListLength(wordSize);
    var pb := Powers(t);
    InsertedSucceeds(data, pb);
    PowersDistinct(t);
    if t > 0 && Pow2(t - 1) <= |data| + t {
      forall i | 0 <= i < t ensures 1 <= pb[i] <= |data| + t {
        if i < t - 1 {
          Pow2Monotone(i, t - 1);
        }
      }
    }
    if Coded(data, wordSize).Some? {
      var w := Inserted(data, pb).value;
      var r := Coded(data, wordSize).value;
      forall q | 0 <= q < |w| && q + 1 !in pb ensures r[q] == w[q] {
        ParityIndexListed(q, t);
      }
      RemovedAgree(r, w, pb);
      RemoveInserted(data, pb);
    }
  }

  lemma ParityIndexListed(q: nat, t: nat)
    ensures ParityIndex(q, t) ==> q + 1 in Powers(t)
  {
    if ParityIndex(q, t) {
      PowerOfTwoIff(q + 1);
      assert Powers(t)[Log2(q + 1)] == q + 1;
    }
  }

  lemma {:induction false} PowersDistinct(t: nat)
    ensures forall i, j :: 0 <= i < j < t ==> Powers(t)[i] != Powers(t)[j]
  {
    forall i, j | 0 <= i < j < t ensures Powers(t)[i] != Powers(t)[j] {
      Pow2Monotone(i, j);
    }
  }

  /** The first parity byte is always 0: `calculate_parity_bit` gets `2^0 - 1 = 0` as its
      position. */
  lemma FirstParityZero(data: seq<Byte>, wordSize: int)
    requires Coded(data, wordSize).Some? && ParityListLength(wordSize) >= 1
    ensures Coded(data, wordSize).value[0] == 0
  {
    var t := ParityListLength(wordSize);
    var w := Inserted(data, Powers(t)).value;
    PowersFit(data, wordSize);
    FilledFirst(w, t);
  }

  lemma {:induction false} FilledFirst(w: seq<Byte>, t: nat)
    requires t >= 1 && Pow2(t - 1) <= |w|
    ensures Filled(w, t)[0] == 0
  {
    if t >= 2 {
      Pow2Monotone(t - 2, t - 1);
      FilledFirst(w, t - 1);
      IsPowerOfTwoPow2(t - 1);
      assert Pow2(t - 1) - 1 != 0;
    } else {
      ParityAtZero(w, |w|);
    }
  }

  /** `error_correction` checks position `i` unless `i` is one of `2, 4, 8, ...`; position 1
      is checked. */
  predicate Checked(i: nat) {
    !(i >= 2 && IsPowerOfTwo(i))
  }

  /** `sum(word[j] for j in range(k) if j & i)`: the bytes themselves are added, and `j` is
      the zero-based index. */
  function CheckSum(w: seq<Byte>, i: nat, k: nat): nat
    requires k <= |w|
  {
    if k == 0 then 0 else CheckSum(w, i, k - 1) + (if BitAnd(k - 1, i) != 0 then w[k - 1] else 0)
  }

  /** The zero-based index `q` is recorded as an error: position `q + 1` is checked and its
      sum is odd. */
  predicate Odd(w: seq<Byte>, q: nat) {
    q < |w| && Checked(q + 1) && CheckSum(w, q + 1, |w|) % 2 != 0
  }

  /** The word `error_correction` returns: the low bit of every recorded byte is flipped. */
  function Corrected(w: seq<Byte>): (r: seq<Byte>)
    ensures |r| == |w|
  {
    seq(|w|, q requires 0 <= q < |w| => if Odd(w, q) then FlipLow(w[q]) else w[q])
  }

  /** `b ^ 1` */
  function FlipLow(b: Byte): (c: Byte)
    ensures c / 2 == b / 2 && c % 2 != b % 2
  {
    if b % 2 == 0 then b + 1 else b - 1
  }

  lemma {:induction false} FlipLowIsXor(b: Byte)
    ensures FlipLow(b) == Xor(b, 1)
  {
    if b > 1 {
      assert Xor(b, 1) == 2 * Xor(b / 2, 0) + (if b % 2 != 1 then 1 else 0);
    }
  }

  /** `k1` and `k2` agree on which powers of two they skip between `i` and the next power. */
  lemma PowerBetween(e: nat, p: nat)
    requires p >= 1 && Pow2(p - 1) < Pow2(e) <= Pow2(p)
    ensures e == p
  {
    if e < p - 1 {
      Pow2Monotone(e, p - 1);
    } else if e > p {
      Pow2Monotone(p, e);
    }
  }

  /** Between the previous skipped power and the next one, `i` is skipped exactly when it is
      `2 ** parity_check_index`. */
  lemma SkipIsPower(i: nat, pci: nat)
    requires pci >= 1 && 1 <= i <= Pow2(pci) && (pci == 1 || Pow2(pci - 1) < i)
    ensures i == Pow2(pci) <==> !Checked(i)
  {
    IsPowerOfTwoPow2(pci);
    Pow2Monotone(0, pci);
    if !Checked(i) {
      PowerOfTwoIff(i);
      PowerBetween(Log2(i), pci);
    }
  }

  /** `error_correction(word, k)`: records every checked position whose sum is odd, then
      flips those bytes; the flag says whether any was recorded. `k` is not read. */
  method ErrorCorrection(word: seq<Byte>, k: int) returns (corrected: seq<Byte>, detected: bool)
    ensures corrected == Corrected(word)
    ensures detected <==> exists q :: 0 <= q < |word| && Odd(word, q)
  {
    var positions: seq<nat> := [];
    var pci := 1;
    var i := 1;
    while i <= |word|
      invariant 1 <= i <= |word| + 1 && pci >= 1
      invariant i <= Pow2(pci) && (pci == 1 || Pow2(pci - 1) < i)
      invariant forall q :: q in positions <==> 0 <= q < i - 1 && Odd(word, q)
      invariant forall a, b :: 0 <= a < b < |positions| ==> positions[a] < positions[b]
      invariant forall a :: 0 <= a < |positions| ==> positions[a] < i - 1
    {
      SkipIsPower(i, pci);
      if i == Pow2(pci) {
        pci := pci + 1;
        i := i + 1;
        continue;
      }
      var position := i - 1;
      var paritySum := CheckSum(word, position + 1, |word|);
      if paritySum % 2 != 0 {
        positions := positions + [position];
      }
      i := i + 1;
    }
    corrected := FlipAll(word, positions);
    detected := positions != [];
    if detected {
      assert positions[0] in positions;
    }
  }

  /** `for position in error_positions: word[position] ^= 1` over distinct positions. */
  method FlipAll(word: seq<Byte>, positions: seq<nat>) returns (corrected: seq<Byte>)
    requires forall a, b :: 0 <= a < b < |positions| ==> positions[a] < positions[b]
    requires forall a :: 0 <= a < |positions| ==> positions[a] < |word|
    ensures |corrected| == |word|
    ensures forall q :: 0 <= q < |word| ==>
              corrected[q] == if q in positions then FlipLow(word[q]) else word[q]
  {
    corrected := word;
    var j := 0;
    while j < |positions|
      invariant 0 <= j <= |positions| && |corrected| == |word|
      invariant forall q :: 0 <= q < |word| ==>
                  corrected[q] == if q in positions[..j] then FlipLow(word[q]) else word[q]
    {
      var position := positions[j];
      FlipLowIsXor(corrected[position]);
      XorBound(corrected[position], 1, 8);
      corrected := corrected[position := Xor(corrected[position], 1)];
      assert positions[..j + 1] == positions[..j] + [position];
      j := j + 1;
    }
    assert positions[..j] == positions;
  }

  /** With no odd check the word comes back unchanged; correction only ever touches the low
      bit of a byte. */
  lemma CorrectedChanges(w: seq<Byte>)
    ensures (forall q :: 0 <= q < |w| ==> !Odd(w, q)) ==> Corrected(w) == w
    ensures forall q :: 0 <= q < |w| ==> Corrected(w)[q] / 2 == w[q] / 2
    ensures forall q :: 0 <= q < |w| ==> (Corrected(w)[q] != w[q] <==> Odd(w, q))
  {
  }

  /** `extract_information_bits(word, k)`: the bytes at the 1-indexed positions other than
      `2^j`, `j < k`. */
  method ExtractInformationBits(word: seq<Byte>, k: int) returns (bits: seq<Byte>)
    ensures bits == Removed(word, Powers(if k < 0 then 0 else k))
  {
    bits := RemoveParityBits(word, Powers(if k < 0 then 0 else k));
  }

  /** `[s[i:i + word_size] for i in range(0, len(s), word_size)]`; `range` raises for a zero
      step and is empty for a negative one. */
  function Words(s: seq<Byte>, wordSize: int): (words: seq<seq<Byte>>)
    requires wordSize != 0
    decreases |s|
  {
    if wordSize < 0 || s == [] then []
    else
      var cut := if |s| < wordSize then |s| else wordSize;
      [s[..cut]] + Words(s[cut..], wordSize)
  }

  /** Joining the words gives the input back; every word is non-empty, and every one but the
      last holds exactly `word_size` bytes. */
  lemma {:induction false} WordsSplit(s: seq<Byte>, wordSize: int)
    requires wordSize > 0
    ensures Concat(Words(s, wordSize)) == s
    ensures forall i :: 0 <= i < |Words(s, wordSize)| ==> 1 <= |Words(s, wordSize)[i]| <= wordSize
    ensures forall i :: 0 <= i < |Words(s, wordSize)| - 1 ==> |Words(s, wordSize)[i]| == wordSize
    decreases |s|
  {
    if s != [] {
      var cut := if |s| < wordSize then |s| else wordSize;
      WordsSplit(s[cut..], wordSize);
      assert s == s[..cut] + s[cut..];
      if cut < wordSize {
        assert Words(s[cut..], wordSize) == [];
      }
    }
  }

  function Concat(words: seq<seq<Byte>>): seq<Byte> {
    if words == [] then [] else words[0] + Concat(words[1..])
  }

  /** What `decode` returns: `(None, "error")` for an empty input, an exception for a zero
      word size, and otherwise the information bytes of every corrected word, joined. */
  datatype Decoding = Raised | Returned(data: Option<seq<Byte>>, status: string)

  /** The information bytes of the corrected words, joined. */
  function DecodedWords(words: seq<seq<Byte>>, k: nat): seq<Byte> {
    if words == [] then [] else Removed(Corrected(words[0]), Powers(k)) + DecodedWords(words[1..], k)
  }

  /** `(8 * len(s)).bit_length() - 1` for a non-empty `s`. */
  function CheckCount(s: seq<Byte>): nat
    requires s != []
  {
    Pow2Monotone(0, 3);
    assert Pow2(3) == 8;
    BitLength(8 * |s|) - 1
  }

  method Decode(bytes: seq<Byte>, wordSize: int) returns (r: Decoding)
    ensures bytes == [] ==> r == Returned(None, "error")
    ensures bytes != [] && wordSize == 0 ==> r == Raised
    ensures bytes != [] && wordSize != 0 ==>
              r == Returned(Some(DecodedWords(Words(bytes, wordSize), CheckCount(bytes))), "success")
  {
    if bytes == [] {
      return Returned(None, "error");
    }
    if wordSize == 0 {
      return Raised;
    }
    var n := |bytes| * 8;
    var k := BitLength(n) - 1;
    var words := Words(bytes, wordSize);
    var decoded: seq<Byte> := [];
    var i := 0;
    while i < |words|
      invariant 0 <= i <= |words|
      invariant decoded + DecodedWords(words[i..], k) == DecodedWords(words, k)
    {
      var correctedWord, errorDetected := ErrorCorrection(words[i], k);
      var informationBits := ExtractInformationBits(correctedWord, k);
      assert words[i..][1..] == words[i + 1..];
      decoded := decoded + informationBits;
      i := i + 1;
    }
    assert words[i..] == [];
    assert decoded == DecodedWords(words, k);
    assert k == CheckCount(bytes);
    return Returned(Some(decoded), "success");
  }

  /** A word with no odd check decodes to its bytes at the positions other than `2^j`. */
  lemma DecodeCleanWord(s: seq<Byte>, wordSize: int)
    requires s != [] && wordSize >= |s| && forall q :: 0 <= q < |s| ==> !Odd(s, q)
    ensures DecodedWords(Words(s, wordSize), CheckCount(s)) == Removed(s, Powers(CheckCount(s)))
  {
    CorrectedChanges(s);
    assert Words(s, wordSize) == [s] by {
      assert s[..|s|] == s;
      assert Words(s[|s|..], wordSize) == [];
    }
  }

  /** A positive word size keeps `len(s) // word_size` whole words and one shorter word for
      the rest, and the decoded length is what the words keep. */
  lemma {:induction false} DecodedLength(words: seq<seq<Byte>>, k: nat)
    ensures |DecodedWords(words, k)| == FreeTotal(words, k)
    decreases |words|
  {
    if words != [] {
      DecodedLength(words[1..], k);
    }
  }

  function FreeTotal(words: seq<seq<Byte>>, k: nat): nat {
    if words == [] then 0 else FreeUpTo(|words[0]|, Powers(k)) + FreeTotal(words[1..], k)
  }
}
