/** The matrix-based Hamming coder: every data byte stands for one bit, blocks of `word_size`
    bytes are coded one at a time, and both directions build a matrix whose column for the
    1-indexed position `p` holds the `r` binary digits of `p`, most significant first.

    Coding never gets past its first parity row for a non-empty block: the row-0 index list
    runs to the largest odd number at most `n + r`, which is past the block. Decoding computes
    a syndrome, reads it as a number with row `i` weighted `2^i`, flips the entry that number
    points at, and keeps the first `n - r` entries, where a negative `n - r` counts from the
    end as a Python slice does. A Python exception is `None` here.

    The word size is read once from the settings file; here it is a parameter. */
module HammingBlocks {
  import opened Wrappers
  import opened Bits
  import opened HammingMath
  import HammingBytes

  /** `_calculate_parity_bits(n)`: the least `r >= 0` with `2^r >= n + r + 1`. */
  function ParityBits(n: int): (r: nat)
    ensures Pow2(r) >= n + r + 1
    ensures forall k :: 0 <= k < r ==> Pow2(k) < n + k + 1
  {
    if n <= 0 then 0 else ParityCount(n)
  }

  method CalculateParityBits(n: int) returns (r: nat)
    ensures r == ParityBits(n)
  {
    r := 0;
    while Pow2(r) < n + r + 1
      invariant r <= ParityBits(n)
      decreases ParityBits(n) - r
    {
      r := r + 1;
    }
  }

  /** A non-empty block needs at least two parity rows. */
  lemma TwoRowsAtLeast(n: int)
    requires n >= 1
    ensures ParityBits(n) >= 2
  {
    assert Pow2(1) == 2;
  }

  /** `hamming_matrix[:, i + offset] = digits of i + 1` for `i < n`: column `i + offset`
      holds the `r` binary digits of `i + 1`, most significant first, and nothing else changes. */
  method FillPositions(matrix: array2<int>, n: nat, r: nat, offset: nat)
    requires matrix.Length0 == r && (n == 0 || n + offset <= matrix.Length1)
    modifies matrix
    ensures forall rho, c :: 0 <= rho < r && 0 <= c < matrix.Length1 ==>
              matrix[rho, c] == if offset <= c < n + offset then Bit(c - offset + 1, r - 1 - rho)
                                else old(matrix[rho, c])
  {
    var i := 0;
    while i < n
      invariant 0 <= i <= n
      invariant forall rho, c :: 0 <= rho < r && 0 <= c < matrix.Length1 ==>
                  matrix[rho, c] == if offset <= c < i + offset then Bit(c - offset + 1, r - 1 - rho)
                                    else old(matrix[rho, c])
    {
      var rho := 0;
      while rho < r
        invariant 0 <= rho <= r
        invariant forall rh, c :: 0 <= rh < r && 0 <= c < matrix.Length1 ==>
                    matrix[rh, c] == if offset <= c < i + offset || (c == i + offset && rh < rho)
                                     then Bit(c - offset + 1, r - 1 - rh)
                                     else old(matrix[rh, c])
      {
        matrix[rho, i + offset] := Bit(i + 1, r - 1 - rho);
        rho := rho + 1;
      }
      i := i + 1;
    }
  }

  /** `list(range(start, stop, step))` for a positive step. */
  function Range(start: int, stop: int, step: nat): (xs: seq<int>)
    requires step > 0
    ensures forall k :: 0 <= k < |xs| ==> start <= xs[k] < stop
    decreases stop - start
  {
    if start >= stop then [] else [start] + Range(start + step, stop, step)
  }

  /** Entry `m` of the range is `start + m * step`, as long as that is below `stop`. */
  lemma {:induction false} RangeAt(start: int, stop: int, step: nat, m: nat)
    requires step > 0 && start + m * step < stop
    ensures m < |Range(start, stop, step)| && Range(start, stop, step)[m] == start + m * step
    decreases m
  {
    if m > 0 {
      RangeAt(start + step, stop, step, m - 1);
      assert start + step + (m - 1) * step == start + m * step;
    }
  }

  /** `[2 ** i - 1] + [j for j in range(2 ** i, n + r + 1, 2 ** (i + 1))]` */
  function Indices(i: nat, n: nat, r: nat): seq<int> {
    [Pow2(i) - 1] + Range(Pow2(i), n + r + 1, Pow2(i + 1))
  }

  /** `block[x]` is defined for `-len(block) <= x < len(block)`. */
  predicate InBounds(block: seq<Byte>, x: int) {
    -|block| <= x < |block|
  }

  function At(block: seq<Byte>, x: int): Byte
    requires InBounds(block, x)
  {
    if x < 0 then block[x + |block|] else block[x]
  }

  /** `sum([block[j - 1] for j in indices])`, or `None` for an index past the block. */
  function IndexedSum(block: seq<Byte>, indices: seq<int>): Option<nat> {
    if indices == [] then Some(0)
    else
      var x := indices[|indices| - 1] - 1;
      match IndexedSum(block, indices[..|indices| - 1])
      case None => None
      case Some(t) => if InBounds(block, x) then Some(t + At(block, x)) else None
  }

  /** One index past the block makes the whole sum fail. */
  lemma IndexedSumOut(block: seq<Byte>, indices: seq<int>, k: nat)
    requires k < |indices| && !InBounds(block, indices[k] - 1)
    ensures IndexedSum(block, indices) == None
  {
    var prefix := indices[..k + 1];
    assert prefix[..k] == indices[..k];
    assert IndexedSum(block, prefix) == None;
    IndexedSumFails(block, indices, k + 1);
  }

  lemma {:induction false} IndexedSumFails(block: seq<Byte>, indices: seq<int>, k: nat)
    requires k <= |indices| && IndexedSum(block, indices[..k]) == None
    ensures IndexedSum(block, indices) == None
    decreases |indices| - k
  {
    if k == |indices| {
      assert indices[..k] == indices;
    } else {
      assert indices[..k + 1][..k] == indices[..k];
      IndexedSumFails(block, indices, k + 1);
    }
  }

  /** The parity entries `hamming_matrix[i, 0]` of rows `0..i-1`, or `None` where a row's
      index list runs past the block. */
  function ParityRows(block: seq<Byte>, r: nat, i: nat): (rows: Option<seq<nat>>)
    ensures rows.Some? ==> |rows.value| == i
  {
    if i == 0 then Some([])
    else
      match ParityRows(block, r, i - 1)
      case None => None
      case Some(rows) =>
        match IndexedSum(block, Indices(i - 1, |block|, r))
        case None => None
        case Some(t) => Some(rows + [t % 2])
  }

  lemma {:induction false} ParityRowsFail(block: seq<Byte>, r: nat, i: nat, j: nat)
    requires i <= j && ParityRows(block, r, i) == None
    ensures ParityRows(block, r, j) == None
    decreases j - i
  {
    if i < j {
      ParityRowsFail(block, r, i, j - 1);
    }
  }

  /** `hamming_matrix[rho, c]` once the parity entries of the rows in `rows` are in place. */
  function Entry(n: nat, r: nat, rows: seq<nat>, rho: nat, c: nat): nat
    requires rho < r && |rows| <= r
  {
    if c == 0 then (if rho < |rows| then rows[rho] else 0)
    else if c <= n then Bit(c, r - 1 - rho) else 0
  }

  /** `sum(hamming_matrix[:k, c])` */
  function ColumnSum(n: nat, r: nat, rows: seq<nat>, c: nat, k: nat): nat
    requires k <= r && |rows| == r
  {
    if k == 0 then 0 else ColumnSum(n, r, rows, c, k - 1) + Entry(n, r, rows, k - 1, c)
  }

  /** What `_hamming_encode_block(block)` returns: the column parities of the matrix. */
  function EncodedBlock(block: seq<Byte>): Option<seq<Byte>> {
    var n := |block|;
    var r := ParityBits(n);
    match ParityRows(block, r, r)
    case None => None
    case Some(rows) => Some(Columns(n, r, rows))
  }

  /** `[sum(hamming_matrix[:, c]) % 2 for c in range(n + r)]` */
  function Columns(n: nat, r: nat, rows: seq<nat>): (bits: seq<Byte>)
    requires |rows| == r
    ensures |bits| == n + r
  {
    seq(n + r, c requires 0 <= c < n + r => ColumnSum(n, r, rows, c, r) % 2)
  }

  /** `sum([block[j - 1] for j in indices])`; `None` is the `IndexError`. */
  method SumAt(block: seq<Byte>, indices: seq<int>) returns (total: Option<nat>)
    ensures total == IndexedSum(block, indices)
  {
    var sum := 0;
    var k := 0;
    while k < |indices|
      invariant 0 <= k <= |indices|
      invariant IndexedSum(block, indices[..k]) == Some(sum)
    {
      assert indices[..k + 1][..k] == indices[..k];
      var x := indices[k] - 1;
      if !(-|block| <= x < |block|) {
        IndexedSumFails(block, indices, k + 1);
        return None;
      }
      sum := sum + At(block, x);
      k := k + 1;
    }
    assert indices[..k] == indices;
    return Some(sum);
  }

  /** `sum(hamming_matrix[:, c])` */
  method SumColumn(matrix: array2<int>, n: nat, r: nat, rows: seq<nat>, c: nat) returns (sum: nat)
    requires matrix.Length0 == r && c < matrix.Length1 && |rows| == r
    requires forall rho :: 0 <= rho < r ==> matrix[rho, c] == Entry(n, r, rows, rho, c)
    ensures sum == ColumnSum(n, r, rows, c, r)
  {
    sum := 0;
    var rho := 0;
    while rho < r
      invariant 0 <= rho <= r
      invariant sum == ColumnSum(n, r, rows, c, rho)
    {
      sum := sum + matrix[rho, c];
      rho := rho + 1;
    }
  }

  method EncodeBlock(block: seq<Byte>) returns (encoded: Option<seq<Byte>>)
    ensures encoded == EncodedBlock(block)
  {
    var n := |block|;
    var r := CalculateParityBits(n);
    var matrix := new int[r, n + r]((_, _) => 0);
    FillPositions(matrix, n, r, 1);
    var rows := FillParityRows(matrix, block, r);
    if rows.None? {
      return None;
    }
    var bits := ColumnParities(matrix, n, r, rows.value);
    return Some(bits);
  }

  /** The loop `hamming_matrix[i, 0] = sum([block[j - 1] for j in indices]) % 2` over the
      rows `i`; `None` is the `IndexError` of the first row whose index list runs past the block. */
  method FillParityRows(matrix: array2<int>, block: seq<Byte>, r: nat) returns (result: Option<seq<nat>>)
    requires matrix.Length0 == r && matrix.Length1 == |block| + r
    requires forall rho, c :: 0 <= rho < r && 0 <= c < |block| + r ==> matrix[rho, c] == Entry(|block|, r, [], rho, c)
    modifies matrix
    ensures result == ParityRows(block, r, r)
    ensures result.Some? ==>
              forall rho, c :: 0 <= rho < r && 0 <= c < |block| + r ==> matrix[rho, c] == Entry(|block|, r, result.value, rho, c)
  {
    var n := |block|;
    var rows: seq<nat> := [];
    var i := 0;
    while i < r
      invariant 0 <= i <= r
      invariant ParityRows(block, r, i) == Some(rows)
      invariant |rows| == i
      invariant forall rho, c :: 0 <= rho < r && 0 <= c < n + r ==> matrix[rho, c] == Entry(n, r, rows, rho, c)
    {
      var total := SumAt(block, Indices(i, n, r));
      if total.None? {
        ParityRowsFail(block, r, i + 1, r);
        return None;
      }
      matrix[i, 0] := total.value % 2;
      rows := rows + [total.value % 2];
      i := i + 1;
    }
    return Some(rows);
  }

  /** The loop that appends `sum(hamming_matrix[:, c]) % 2` for every column `c`. */
  method ColumnParities(matrix: array2<int>, n: nat, r: nat, rows: seq<nat>) returns (bits: seq<Byte>)
    requires matrix.Length0 == r && matrix.Length1 == n + r && |rows| == r
    requires forall rho, c :: 0 <= rho < r && 0 <= c < n + r ==> matrix[rho, c] == Entry(n, r, rows, rho, c)
    ensures bits == Columns(n, r, rows)
  {
    bits := [];
    var c := 0;
    while c < n + r
      invariant 0 <= c <= n + r && |bits| == c
      invariant forall d :: 0 <= d < c ==> bits[d] == ColumnSum(n, r, rows, d, r) % 2
    {
      var sum := SumColumn(matrix, n, r, rows, c);
      bits := bits + [sum % 2];
      c := c + 1;
    }
  }

  /** Coding an empty block gives an empty block, and coding any other block fails. */
  lemma EncodeBlockFails(block: seq<Byte>)
    ensures EncodedBlock(block) == if block == [] then Some([]) else None
  {
    if block == [] {
      EmptyBlock();
    } else {
      NonEmptyBlockFails(block);
    }
  }

  lemma EmptyBlock()
    ensures EncodedBlock([]) == Some([])
  {
    assert ParityBits(0) == 0;
    assert EncodedBlock([]).value == [];
  }

  /** Entry `m + 1` of the row-0 index list is the odd number `2 * m + 1`, when that is at
      most `n + r`. */
  lemma IndicesAt(n: nat, r: nat, m: nat)
    requires 2 * m + 1 < n + r + 1
    ensures m + 1 < |Indices(0, n, r)| && Indices(0, n, r)[m + 1] == 2 * m + 1
  {
    RangeAt(1, n + r + 1, 2, m);
    IndicesZero(n, r);
  }

  /** Row 0 checks the odd positions. */
  lemma IndicesZero(n: nat, r: nat)
    ensures Indices(0, n, r) == [0] + Range(1, n + r + 1, 2)
  {
    assert Pow2(0) == 1 && Pow2(1) == 2;
  }

  /** The row-0 index list of a non-empty block reaches past it: one of `n + 1` and `n + 2`
      is odd and both are at most `n + r`, so `block[j - 1]` fails. */
  lemma NonEmptyBlockFails(block: seq<Byte>)
    requires block != []
    ensures EncodedBlock(block) == None
  {
    var r := ParityBits(|block|);
    TwoRowsAtLeast(|block|);
    RowZeroFails(block);
    assert ParityRows(block, r, 1) == None;
    ParityRowsFail(block, r, 1, r);
  }

  /** One of `n + 1` and `n + 2` is odd and at most `n + r`, so the row-0 sum fails. */
  lemma RowZeroFails(block: seq<Byte>)
    requires block != []
    ensures IndexedSum(block, Indices(0, |block|, ParityBits(|block|))) == None
  {
    var n := |block|;
    var r := ParityBits(n);
    TwoRowsAtLeast(n);
    var m := (n + 1) / 2;
    assert n <= 2 * m <= n + 1;
    IndicesAt(n, r, m);
    IndexedSumOut(block, Indices(0, n, r), m + 1);
  }

  /** `[s[i:i + size] for i in range(0, len(s), size)]` followed by zero padding of a short
      block to `size`. */
  function Padded(blocks: seq<seq<Byte>>, size: nat): (padded: seq<seq<Byte>>)
    ensures |padded| == |blocks|
    ensures forall i :: 0 <= i < |blocks| ==> padded[i] == PadBlock(blocks[i], size)
  {
    seq(|blocks|, i requires 0 <= i < |blocks| => PadBlock(blocks[i], size))
  }

  /** `block + b'\x00' * (size - len(block))` for a block shorter than `size`. */
  function PadBlock(block: seq<Byte>, size: nat): (padded: seq<Byte>)
    ensures |padded| == if |block| < size then size else |block|
    ensures padded[..|block|] == block
    ensures forall i :: |block| <= i < |padded| ==> padded[i] == 0
  {
    if |block| < size then block + ZeroBytes(size - |block|) else block
  }

  /** `b'\x00' * k` */
  function ZeroBytes(k: nat): (z: seq<Byte>)
    ensures |z| == k && forall i :: 0 <= i < k ==> z[i] == 0
  {
    seq(k, _ => 0)
  }

  /** The blocks passed through `f` in order and joined, or `None` as soon as one fails. */
  function Joined(blocks: seq<seq<Byte>>, f: seq<Byte> -> Option<seq<Byte>>): Option<seq<Byte>> {
    if blocks == [] then Some([])
    else
      match Joined(blocks[..|blocks| - 1], f)
      case None => None
      case Some(done) =>
        match f(blocks[|blocks| - 1])
        case None => None
        case Some(e) => Some(done + e)
  }

  /** What `code(data)` returns; `range` raises for a zero word size. */
  function Coded(data: seq<Byte>, wordSize: int): Option<seq<Byte>> {
    if wordSize == 0 then None
    else Joined(Padded(HammingBytes.Words(data, wordSize), if wordSize < 0 then 0 else wordSize), EncodedBlock)
  }

  method Code(data: seq<Byte>, wordSize: int) returns (encoded: Option<seq<Byte>>)
    ensures encoded == Coded(data, wordSize)
  {
    if wordSize == 0 {
      return None;
    }
    var size: nat := if wordSize < 0 then 0 else wordSize;
    encoded := EncodeAll(HammingBytes.Words(data, wordSize), size);
  }

  /** The loop of `code`: pad each block to `size`, code it and extend the result. */
  method EncodeAll(blocks: seq<seq<Byte>>, size: nat) returns (encoded: Option<seq<Byte>>)
    ensures encoded == Joined(Padded(blocks, size), EncodedBlock)
  {
    ghost var padded := Padded(blocks, size);
    var out: seq<Byte> := [];
    var i := 0;
    while i < |blocks|
      invariant 0 <= i <= |blocks|
      invariant Joined(padded[..i], EncodedBlock) == Some(out)
    {
      var block := PadBlock(blocks[i], size);
      assert padded[..i + 1][..i] == padded[..i];
      var e := EncodeBlock(block);
      if e.None? {
        JoinedFails(padded, EncodedBlock, i + 1);
        return None;
      }
      out := out + e.value;
      i := i + 1;
    }
    assert padded[..i] == padded;
    return Some(out);
  }

  lemma {:induction false} JoinedFails(blocks: seq<seq<Byte>>, f: seq<Byte> -> Option<seq<Byte>>, k: nat)
    requires k <= |blocks| && Joined(blocks[..k], f) == None
    ensures Joined(blocks, f) == None
    decreases |blocks| - k
  {
    if k == |blocks| {
      assert blocks[..k] == blocks;
    } else {
      assert blocks[..k + 1][..k] == blocks[..k];
      JoinedFails(blocks, f, k + 1);
    }
  }

  /** `code` succeeds only where it has nothing to code: it fails for a zero word size and for
      any non-empty input with a positive word size, and otherwise returns an empty result. */
  lemma CodeFails(data: seq<Byte>, wordSize: int)
    ensures Coded(data, wordSize) ==
              if wordSize == 0 || (wordSize > 0 && data != []) then None else Some([])
  {
    if wordSize > 0 && data != [] {
      var blocks := Padded(HammingBytes.Words(data, wordSize), wordSize);
      HammingBytes.WordsSplit(data, wordSize);
      assert |blocks[0]| >= 1;
      EncodeBlockFails(blocks[0]);
      var first: seq<seq<Byte>> := blocks[..1];
      assert first[..0] == [];
      JoinedFails(blocks, EncodedBlock, 1);
    }
  }

  /** With a positive word size every block is padded to exactly `word_size` bytes. */
  lemma PaddedLengths(data: seq<Byte>, wordSize: int)
    requires wordSize > 0
    ensures forall i :: 0 <= i < |Padded(HammingBytes.Words(data, wordSize), wordSize)| ==>
              |Padded(HammingBytes.Words(data, wordSize), wordSize)[i]| == wordSize
  {
    HammingBytes.WordsSplit(data, wordSize);
  }

  /** How many zeros pad `n` bytes cut into blocks of `wordSize`: none when the last block is
      full, else what it lacks. */
  function Fill(n: nat, wordSize: int): nat
    requires wordSize > 0
  {
    if n == 0 then 0 else if n < wordSize then wordSize - n else Fill(n - wordSize, wordSize)
  }

  /** The zeros round the data up to a whole number of blocks, and fill less than a block. */
  lemma {:induction false} FillRounds(n: nat, wordSize: int)
    requires wordSize > 0
    ensures Fill(n, wordSize) < wordSize && (n + Fill(n, wordSize)) % wordSize == 0
    decreases n
  {
    if n >= wordSize {
      FillRounds(n - wordSize, wordSize);
      ModShift(n - wordSize + Fill(n, wordSize), wordSize);
    }
  }

  /** The padded blocks joined are the data followed by the zeros that fill the last block. */
  lemma {:induction false} PaddedWords(data: seq<Byte>, wordSize: int)
    requires wordSize > 0
    ensures HammingBytes.Concat(Padded(HammingBytes.Words(data, wordSize), wordSize)) ==
              data + ZeroBytes(Fill(|data|, wordSize))
    decreases |data|
  {
    if data == [] {
      assert Padded(HammingBytes.Words(data, wordSize), wordSize) == [];
    } else if |data| < wordSize {
      LastBlock(data, wordSize);
    } else {
      PaddedWords(data[wordSize..], wordSize);
      FullBlock(data, wordSize);
    }
  }

  /** Data shorter than the word size is one block, padded with the zeros that fill it. */
  lemma LastBlock(data: seq<Byte>, wordSize: int)
    requires 0 < |data| < wordSize
    ensures HammingBytes.Concat(Padded(HammingBytes.Words(data, wordSize), wordSize)) ==
              data + ZeroBytes(Fill(|data|, wordSize))
  {
    assert HammingBytes.Words(data, wordSize) == [data] by {
      assert data[..|data|] == data && data[|data|..] == [];
    }
    var p := PadBlock(data, wordSize);
    assert Padded([data], wordSize) == [p];
    ConcatCons(p, []);
    assert p == data + ZeroBytes(wordSize - |data|);
  }

  /** A full first block is kept as it is, ahead of the padded blocks of the rest. */
  lemma FullBlock(data: seq<Byte>, wordSize: int)
    requires 0 < wordSize <= |data|
    requires HammingBytes.Concat(Padded(HammingBytes.Words(data[wordSize..], wordSize), wordSize)) ==
               data[wordSize..] + ZeroBytes(Fill(|data| - wordSize, wordSize))
    ensures HammingBytes.Concat(Padded(HammingBytes.Words(data, wordSize), wordSize)) ==
              data + ZeroBytes(Fill(|data|, wordSize))
  {
    var first, rest := data[..wordSize], data[wordSize..];
    var tail := Padded(HammingBytes.Words(rest, wordSize), wordSize);
    var zeros := ZeroBytes(Fill(|data|, wordSize));
    assert Padded(HammingBytes.Words(data, wordSize), wordSize) == [first] + tail by {
      assert HammingBytes.Words(data, wordSize) == [first] + HammingBytes.Words(rest, wordSize);
      PaddedCons(first, HammingBytes.Words(rest, wordSize), wordSize);
    }
    ConcatCons(first, tail);
    assert first + (rest + zeros) == data + zeros by {
      assert data == first + rest;
    }
  }

  lemma PaddedCons(b: seq<Byte>, rest: seq<seq<Byte>>, size: nat)
    ensures Padded([b] + rest, size) == [PadBlock(b, size)] + Padded(rest, size)
  {
  }

  lemma ConcatCons(w: seq<Byte>, rest: seq<seq<Byte>>)
    ensures HammingBytes.Concat([w] + rest) == w + HammingBytes.Concat(rest)
  {
    assert ([w] + rest)[1..] == rest;
  }

  lemma ModShift(x: nat, m: nat)
    requires m > 0
    ensures (x + m) % m == x % m
  {
    var q, r := x / m, x % m;
    assert x + m == m * (q + 1) + r;
    ModUnique(x + m, m, q + 1, r);
  }

  /** `sum([block[i] * row[i] for i in range(k)])` for row `rho` of the decoding matrix,
      whose entry in column `i` is digit `rho` of `i + 1`, most significant first. */
  function RowSum(block: seq<Byte>, r: nat, rho: nat, k: nat): nat
    requires rho < r && k <= |block|
  {
    if k == 0 then 0 else RowSum(block, r, rho, k - 1) + block[k - 1] * Bit(k, r - 1 - rho)
  }

  /** `syndrome[rho]` */
  function Syndrome(block: seq<Byte>, r: nat, rho: nat): nat
    requires rho < r
  {
    RowSum(block, r, rho, |block|) % 2
  }

  /** `sum([syndrome[i] * 2 ** i for i in range(k)])`: row `i` weighted `2^i`. */
  function ErrorPosition(block: seq<Byte>, r: nat, k: nat): nat
    requires k <= r
  {
    if k == 0 then 0 else ErrorPosition(block, r, k - 1) + Syndrome(block, r, k - 1) * Pow2(k - 1)
  }

  /** `s[:m]`: a negative `m` counts from the end. */
  function PyPrefix(s: seq<Byte>, m: int): (p: seq<Byte>)
    ensures |p| == if m >= 0 then HammingBytes.Min(m, |s|) else if |s| + m >= 0 then |s| + m else 0
    ensures p == s[..|p|]
  {
    if m >= 0 then s[..HammingBytes.Min(m, |s|)]
    else if |s| + m >= 0 then s[..|s| + m]
    else []
  }

  /** The end of `_hamming_decode_block`: a non-zero `position` flips `block[position - 1]`
      to `1 - block[position - 1]`, which fails (`None`) past the block and for an entry above
      1, since a byte cannot be negative; then the first `n - r` entries are kept. */
  function Repaired(block: seq<Byte>, position: nat, r: nat): Option<seq<Byte>> {
    if position == 0 then Some(PyPrefix(block, |block| - r))
    else if position - 1 >= |block| || block[position - 1] > 1 then None
    else Some(PyPrefix(block[position - 1 := 1 - block[position - 1]], |block| - r))
  }

  /** What `_hamming_decode_block(block)` returns. */
  function DecodedBlock(block: seq<Byte>): Option<seq<Byte>> {
    var r := ParityBits(|block|);
    Repaired(block, ErrorPosition(block, r, r), r)
  }

  /** The loop over the rows of the matrix that collects the syndrome. */
  method Syndromes(matrix: array2<int>, block: seq<Byte>, r: nat) returns (syndrome: seq<nat>)
    requires matrix.Length0 == r && matrix.Length1 == |block|
    requires forall rho, c :: 0 <= rho < r && 0 <= c < |block| ==> matrix[rho, c] == Bit(c + 1, r - 1 - rho)
    ensures |syndrome| == r
    ensures forall rho :: 0 <= rho < r ==> syndrome[rho] == Syndrome(block, r, rho)
  {
    syndrome := [];
    var rho := 0;
    while rho < r
      invariant 0 <= rho <= r && |syndrome| == rho
      invariant forall k :: 0 <= k < rho ==> syndrome[k] == Syndrome(block, r, k)
    {
      var total := 0;
      var i := 0;
      while i < |block|
        invariant 0 <= i <= |block|
        invariant total == RowSum(block, r, rho, i)
      {
        total := total + block[i] * matrix[rho, i];
        i := i + 1;
      }
      syndrome := syndrome + [total % 2];
      rho := rho + 1;
    }
  }

  method DecodeBlock(block: seq<Byte>) returns (decoded: Option<seq<Byte>>)
    ensures decoded == DecodedBlock(block)
  {
    var n := |block|;
    var r := CalculateParityBits(n);
    var matrix := new int[r, n]((_, _) => 0);
    FillPositions(matrix, n, r, 0);
    var syndrome := Syndromes(matrix, block, r);
    var errorPosition := WeightedSum(block, r, syndrome);
    var word := block;
    if errorPosition != 0 {
      if errorPosition - 1 >= n || word[errorPosition - 1] > 1 {
        return None;
      }
      word := word[errorPosition - 1 := 1 - word[errorPosition - 1]];
    }
    return Some(PyPrefix(word, n - r));
  }

  /** `sum([syndrome[i] * 2 ** i for i in range(len(syndrome))])` */
  method WeightedSum(ghost block: seq<Byte>, r: nat, syndrome: seq<nat>) returns (position: nat)
    requires |syndrome| == r && forall rho :: 0 <= rho < r ==> syndrome[rho] == Syndrome(block, r, rho)
    ensures position == ErrorPosition(block, r, r)
  {
    position := 0;
    var i := 0;
    while i < |syndrome|
      invariant 0 <= i <= r
      invariant position == ErrorPosition(block, r, i)
    {
      position := position + syndrome[i] * Pow2(i);
      i := i + 1;
    }
  }

  /** The decoded block is the first entries of the block, with at most the one entry at
      `error_position - 1` flipped; decoding fails exactly when that entry is past the block
      or above 1. */
  lemma DecodedBlockEntries(block: seq<Byte>, r: nat, e: nat)
    requires r == ParityBits(|block|) && e == ErrorPosition(block, r, r)
    ensures DecodedBlock(block).None? <==> e != 0 && (e > |block| || block[e - 1] > 1)
    ensures DecodedBlock(block).Some? ==>
              |DecodedBlock(block).value| == |PyPrefix(block, |block| - r)| &&
              forall i :: 0 <= i < |DecodedBlock(block).value| ==>
                DecodedBlock(block).value[i] == if i == e - 1 then 1 - block[i] else block[i]
  {
    assert DecodedBlock(block) == Repaired(block, e, r);
    RepairedEntries(block, e, r);
  }

  lemma RepairedEntries(block: seq<Byte>, e: nat, r: nat)
    ensures Repaired(block, e, r).None? <==> e != 0 && (e > |block| || block[e - 1] > 1)
    ensures Repaired(block, e, r).Some? ==>
              |Repaired(block, e, r).value| == |PyPrefix(block, |block| - r)| &&
              forall i :: 0 <= i < |Repaired(block, e, r).value| ==>
                Repaired(block, e, r).value[i] == if i == e - 1 then 1 - block[i] else block[i]
  {
    if e != 0 && e <= |block| && block[e - 1] <= 1 {
      var w := block[e - 1 := 1 - block[e - 1]];
      assert Repaired(block, e, r) == Some(PyPrefix(w, |block| - r));
    }
  }

  /** The blocks `decode` cuts its input into are `word_size + r(word_size)` bytes long;
      a zero word size makes `range` raise. */
  function Decoded(data: seq<Byte>, wordSize: int): Option<seq<Byte>> {
    var size := wordSize + ParityBits(wordSize);
    if size == 0 then None else Joined(HammingBytes.Words(data, size), DecodedBlock)
  }

  method Decode(data: seq<Byte>, wordSize: int) returns (decoded: Option<seq<Byte>>)
    ensures decoded == Decoded(data, wordSize)
  {
    var r := CalculateParityBits(wordSize);
    var size := wordSize + r;
    if size == 0 {
      return None;
    }
    decoded := DecodeAll(HammingBytes.Words(data, size));
  }

  /** The loop that decodes the blocks one by one and extends the result. */
  method DecodeAll(blocks: seq<seq<Byte>>) returns (decoded: Option<seq<Byte>>)
    ensures decoded == Joined(blocks, DecodedBlock)
  {
    var out: seq<Byte> := [];
    var i := 0;
    while i < |blocks|
      invariant 0 <= i <= |blocks|
      invariant Joined(blocks[..i], DecodedBlock) == Some(out)
    {
      assert blocks[..i + 1][..i] == blocks[..i];
      var d := DecodeBlock(blocks[i]);
      if d.None? {
        JoinedFails(blocks, DecodedBlock, i + 1);
        return None;
      }
      out := out + d.value;
      i := i + 1;
    }
    assert blocks[..i] == blocks;
    return Some(out);
  }

  /** A zero word size fails, a negative one decodes nothing, and a positive one cuts blocks
      of `word_size + r(word_size)` bytes; the block length then yields its own `r`, which can
      differ: blocks cut for a 4-byte word are 7 bytes long and need 4 rows, not 3. */
  lemma DecodeBlocks(data: seq<Byte>, wordSize: int)
    ensures wordSize == 0 ==> Decoded(data, wordSize) == None
    ensures wordSize < 0 ==> Decoded(data, wordSize) == Some([])
    ensures wordSize > 0 ==> wordSize + ParityBits(wordSize) >= wordSize + 2
    ensures ParityBits(4) == 3 && ParityBits(7) == 4
  {
    if wordSize > 0 {
      TwoRowsAtLeast(wordSize);
    }
    assert Pow2(2) == 4 && Pow2(3) == 8 && Pow2(4) == 16;
  }

  /** The position the syndrome names when row `rho` is weighted `2^(r - 1 - rho)`, the weight
      of the digit that row holds. */
  function IntendedPosition(block: seq<Byte>, r: nat, k: nat): nat
    requires k <= r
  {
    if k == 0 then 0 else IntendedPosition(block, r, k - 1) + Syndrome(block, r, k - 1) * Pow2(r - k)
  }

  /** `_hamming_decode_block` with the syndrome read in the order the matrix writes digits. */
  function CorrectedDecodedBlock(block: seq<Byte>): Option<seq<Byte>> {
    var r := ParityBits(|block|);
    Repaired(block, IntendedPosition(block, r, r), r)
  }

  /** A single flipped entry at index 0 of a 7-byte block is read as position 8, one past the
      block, so decoding fails; with the intended weights it is position 1 and is repaired. */
  lemma SyndromeReversed()
    ensures DecodedBlock([1, 0, 0, 0, 0, 0, 0]) == None
    ensures CorrectedDecodedBlock([1, 0, 0, 0, 0, 0, 0]) == Some([0, 0, 0])
  {
    var b: seq<Byte> := [1, 0, 0, 0, 0, 0, 0];
    assert ParityBits(7) == 4 by {
      assert Pow2(3) == 8 && Pow2(4) == 16;
    }
    FirstEntrySyndrome(b);
    assert ErrorPosition(b, 4, 4) == 8;
    assert IntendedPosition(b, 4, 4) == 1;
    assert b[0 := 1 - b[0]] == [0, 0, 0, 0, 0, 0, 0];
    assert PyPrefix([0, 0, 0, 0, 0, 0, 0], 3) == [0, 0, 0];
  }

  /** Of the four rows of a 7-entry block that is 1 at index 0 and 0 elsewhere, only the row
      of the lowest digit comes out odd. */
  lemma FirstEntrySyndrome(b: seq<Byte>)
    requires b == [1, 0, 0, 0, 0, 0, 0]
    ensures forall rho :: 0 <= rho < 4 ==> Syndrome(b, 4, rho) == if rho == 3 then 1 else 0
  {
    forall rho | 0 <= rho < 4 ensures Syndrome(b, 4, rho) == if rho == 3 then 1 else 0 {
      RowSumOfFirst(b, 4, rho, 7);
      if rho < 3 {
        BitOfOne(3 - rho);
      }
    }
  }

  /** Only the first entry of a block that is zero elsewhere adds to a row. */
  lemma {:induction false} RowSumOfFirst(block: seq<Byte>, r: nat, rho: nat, k: nat)
    requires rho < r && 1 <= k <= |block| && forall i :: 1 <= i < |block| ==> block[i] == 0
    ensures RowSum(block, r, rho, k) == block[0] * Bit(1, r - 1 - rho)
  {
    if k > 1 {
      RowSumOfFirst(block, r, rho, k - 1);
    }
  }

  lemma BitOfOne(e: nat)
    requires e >= 1
    ensures Bit(1, e) == 0
  {
    BitOfZero(e - 1);
  }

  /** Changing the entry at `q` changes each row sum by the change times digit `rho` of
      position `q + 1`. */
  lemma {:induction false} RowSumFlip(w: seq<Byte>, v: seq<Byte>, q: nat, r: nat, rho: nat, k: nat)
    requires rho < r && |v| == |w| && q < |w| && k <= |w|
    requires forall i :: 0 <= i < |w| && i != q ==> v[i] == w[i]
    ensures RowSum(v, r, rho, k) + (if q < k then w[q] * Bit(q + 1, r - 1 - rho) else 0)
         == RowSum(w, r, rho, k) + (if q < k then v[q] * Bit(q + 1, r - 1 - rho) else 0)
  {
    if k > 0 {
      RowSumFlip(w, v, q, r, rho, k - 1);
    }
  }

  /** Flipping one 0/1 entry of a block whose syndrome row is even makes that row the digit of
      the flipped position. */
  lemma FlipSyndrome(w: seq<Byte>, q: nat, r: nat, rho: nat)
    requires rho < r && q < |w| && w[q] <= 1 && Syndrome(w, r, rho) == 0
    ensures Syndrome(w[q := 1 - w[q]], r, rho) == Bit(q + 1, r - 1 - rho)
  {
    var v := w[q := 1 - w[q]];
    RowSumFlip(w, v, q, r, rho, |w|);
    var b := Bit(q + 1, r - 1 - rho);
    var sum := RowSum(w, r, rho, |w|);
    var half := sum / 2;
    assert sum == 2 * half;
    if w[q] == 0 {
      assert RowSum(v, r, rho, |v|) == 2 * half + b;
    } else {
      assert RowSum(v, r, rho, |v|) + b == 2 * half;
      if b == 1 {
        assert RowSum(v, r, rho, |v|) == 2 * (half - 1) + 1;
      }
    }
  }

  /** Read with the intended weights, the first `k` rows give the top `k` digits of `p`. */
  lemma {:induction false} IntendedTopDigits(v: seq<Byte>, r: nat, k: nat, p: nat)
    requires k <= r && forall rho :: 0 <= rho < r ==> Syndrome(v, r, rho) == Bit(p, r - 1 - rho)
    ensures IntendedPosition(v, r, k) + BitSum(p, r - k) == BitSum(p, r)
  {
    if k > 0 {
      IntendedTopDigits(v, r, k - 1, p);
      assert BitSum(p, r - k + 1) == BitSum(p, r - k) + Bit(p, r - k) * Pow2(r - k);
    }
  }

  /** With the intended weights, a block of 0/1 entries with an all-zero syndrome and one
      flipped entry is repaired: decoding gives the same entries as decoding the block itself. */
  lemma SingleFlipCorrected(w: seq<Byte>, q: nat)
    requires q < |w| && forall i :: 0 <= i < |w| ==> w[i] <= 1
    requires forall rho :: 0 <= rho < ParityBits(|w|) ==> Syndrome(w, ParityBits(|w|), rho) == 0
    ensures CorrectedDecodedBlock(w[q := 1 - w[q]]) == Some(PyPrefix(w, |w| - ParityBits(|w|)))
  {
    var r := ParityBits(|w|);
    var v := w[q := 1 - w[q]];
    FlipPosition(w, q, r);
    RepairFlip(w, q, r);
  }

  /** The intended weights read the syndrome of a once-flipped code block as the flipped
      position. */
  lemma FlipPosition(w: seq<Byte>, q: nat, r: nat)
    requires q < |w| && forall i :: 0 <= i < |w| ==> w[i] <= 1
    requires r == ParityBits(|w|) && forall rho :: 0 <= rho < r ==> Syndrome(w, r, rho) == 0
    ensures IntendedPosition(w[q := 1 - w[q]], r, r) == q + 1
  {
    var v := w[q := 1 - w[q]];
    forall rho | 0 <= rho < r ensures Syndrome(v, r, rho) == Bit(q + 1, r - 1 - rho) {
      FlipSyndrome(w, q, r, rho);
    }
    IntendedTopDigits(v, r, r, q + 1);
    BitSumIs(q + 1, r);
  }

  /** Flipping the entry at `q` back restores the block. */
  lemma RepairFlip(w: seq<Byte>, q: nat, r: nat)
    requires q < |w| && w[q] <= 1
    ensures Repaired(w[q := 1 - w[q]], q + 1, r) == Some(PyPrefix(w, |w| - r))
  {
    var v := w[q := 1 - w[q]];
    assert v[q := 1 - v[q]] == w;
  }
}
