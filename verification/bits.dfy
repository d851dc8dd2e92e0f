/** Bit strings of '0'/'1' characters and their packing into bytes.

    The Huffman coders pad an encoded bit string with `8 - len % 8` zeros (one to eight of
    them: a whole zero byte when the length is already a multiple of eight), cut it into
    eight-character chunks, read each chunk most-significant-bit first with `int(chunk, 2)`,
    and read a byte back with the format `{:08b}`. */
module Bits {
  import opened Wrappers

  type Byte = b: int | 0 <= b < 256

  predicate IsBit(c: char) {
    c == '0' || c == '1'
  }

  predicate IsBits(s: string) {
    forall i :: 0 <= i < |s| ==> IsBit(s[i])
  }

  function Pow2(n: nat): (p: nat)
    ensures p >= 1
  {
    if n == 0 then 1 else 2 * Pow2(n - 1)
  }

  /** `'0' * n` */
  function Zeros(n: nat): (z: string)
    ensures |z| == n && IsBits(z)
    ensures forall i :: 0 <= i < n ==> z[i] == '0'
  {
    seq(n, _ => '0')
  }

  /** `8 - len % 8`: between one and eight, and it always reaches the next multiple of eight. */
  function PadLength(n: nat): (p: nat)
    ensures 1 <= p <= 8
    ensures (n + p) % 8 == 0
    ensures p == 8 <==> n % 8 == 0
  {
    8 - n % 8
  }

  /** The padded string written before packing. */
  function Pad(s: string): (r: string)
    ensures |r| % 8 == 0 && |s| < |r| <= |s| + 8
    ensures r[..|s|] == s
    ensures IsBits(s) ==> IsBits(r)
  {
    s + Zeros(PadLength(|s|))
  }

  /** `int(s, 2)`: the bits read most significant first. */
  function Value(s: string): (v: nat)
    requires IsBits(s)
    ensures v < Pow2(|s|)
  {
    if s == [] then 0
    else 2 * Value(s[..|s| - 1]) + (if s[|s| - 1] == '1' then 1 else 0)
  }

  /** `format(v, '0wb')`: the low `w` bits of `v`, most significant first. */
  function Digits(v: nat, w: nat): (s: string)
    ensures |s| == w && IsBits(s)
  {
    if w == 0 then [] else Digits(v / 2, w - 1) + [if v % 2 == 1 then '1' else '0']
  }

  /** Writing a number that fits in `w` bits and reading it back gives the number. */
  lemma {:induction false} ValueOfDigits(v: nat, w: nat)
    requires v < Pow2(w)
    ensures Value(Digits(v, w)) == v
  {
    if w > 0 {
      ValueOfDigits(v / 2, w - 1);
      var s := Digits(v, w);
      assert s[..|s| - 1] == Digits(v / 2, w - 1);
    }
  }

  /** Reading a bit string and writing it back at the same width gives the string. */
  lemma {:induction false} DigitsOfValue(s: string)
    requires IsBits(s)
    ensures Digits(Value(s), |s|) == s
  {
    if s != [] {
      var init := s[..|s| - 1];
      DigitsOfValue(init);
      assert Value(s) / 2 == Value(init);
      assert s == init + [s[|s| - 1]];
    }
  }

  /** `'{:08b}'.format(b)` */
  function ByteBits(b: Byte): (s: string)
    ensures |s| == 8 && IsBits(s)
  {
    Digits(b, 8)
  }

  /** `int(chunk, 2)` on an eight-bit chunk. */
  function ByteOf(chunk: string): (b: Byte)
    requires |chunk| == 8 && IsBits(chunk)
    ensures ByteBits(b) == chunk
  {
    assert Pow2(8) == 256;
    DigitsOfValue(chunk);
    Value(chunk)
  }

  /** `bytes([int(s[i*8:i*8+8], 2) for i in range(len(s) // 8)])` on a bit string. */
  function Pack(s: string): (bs: seq<Byte>)
    requires IsBits(s)
    ensures |bs| == |s| / 8
    ensures forall i :: 0 <= i < |bs| ==> ByteBits(bs[i]) == s[8 * i..8 * i + 8]
  {
    seq(|s| / 8, i requires 0 <= i < |s| / 8 => ByteOf(s[8 * i..8 * i + 8]))
  }

  /** `''.join('{:08b}'.format(b) for b in bs)` */
  function Unpack(bs: seq<Byte>): (s: string)
    ensures |s| == 8 * |bs| && IsBits(s)
  {
    if bs == [] then [] else ByteBits(bs[0]) + Unpack(bs[1..])
  }

  /** Unpacking a packed string that is a whole number of bytes gives it back. */
  lemma {:induction false} UnpackPack(s: string)
    requires IsBits(s) && |s| % 8 == 0
    ensures Unpack(Pack(s)) == s
  {
    if s != [] {
      var bs := Pack(s);
      var rest := s[8..];
      assert IsBits(rest);
      assert bs[1..] == Pack(rest) by {
        forall i | 0 <= i < |bs[1..]|
          ensures bs[1..][i] == Pack(rest)[i]
        {
          assert rest[8 * i..8 * i + 8] == s[8 * (i + 1)..8 * (i + 1) + 8];
          ValueOfDigits(bs[1..][i], 8);
          ValueOfDigits(Pack(rest)[i], 8);
        }
      }
      UnpackPack(rest);
      assert s == s[..8] + rest;
    }
  }

  /** Packing the unpacked bytes gives the bytes back. */
  lemma {:induction false} PackUnpack(bs: seq<Byte>)
    ensures Pack(Unpack(bs)) == bs
  {
    var s := Unpack(bs);
    forall i | 0 <= i < |bs|
      ensures Pack(s)[i] == bs[i]
    {
      UnpackAt(bs, i);
      ValueOfDigits(Pack(s)[i], 8);
      ValueOfDigits(bs[i], 8);
    }
  }

  /** Byte `i` of the unpacked string is the eight bits of `bs[i]`. */
  lemma {:induction false} UnpackAt(bs: seq<Byte>, i: nat)
    requires i < |bs|
    ensures Unpack(bs)[8 * i..8 * i + 8] == ByteBits(bs[i])
  {
    if i > 0 {
      UnpackAt(bs[1..], i - 1);
      assert Unpack(bs)[8 * i..8 * i + 8] == Unpack(bs[1..])[8 * (i - 1)..8 * (i - 1) + 8];
    }
  }

  /** What a save followed by a load returns: the bits followed by their padding. */
  lemma SaveLoad(s: string)
    requires IsBits(s)
    ensures Unpack(Pack(Pad(s))) == s + Zeros(PadLength(|s|))
    ensures |Unpack(Pack(Pad(s)))| == |s| + PadLength(|s|)
  {
    UnpackPack(Pad(s));
  }

  /** The packing expression of `save_binary_data`: pad, then one byte per eight characters.
      Only strings of '0' and '1' are packed; any other string is `None`, although
      `int(chunk, 2)` also reads chunks with surrounding whitespace, a sign, a `0b` prefix,
      underscores or non-ASCII binary digits. What comes back through `{:08b}` is the string
      followed by its padding. */
  function SaveBinary(s: string): (r: Option<seq<Byte>>)
    ensures r.None? <==> !IsBits(s)
    ensures r.Some? ==> |r.value| == (|s| + PadLength(|s|)) / 8
    ensures r.Some? ==> Unpack(r.value) == s + Zeros(PadLength(|s|))
  {
    if IsBits(s) then
      SaveLoad(s);
      Some(Pack(Pad(s)))
    else
      None
  }

  /** Euclidean division is unique: a remainder in `[0, m)` is the remainder. */
  lemma ModUnique(y: int, m: int, a: int, b: int)
    requires m > 0 && y == m * a + b && 0 <= b < m
    ensures y % m == b
  {
    var a', b' := y / m, y % m;
    assert m * a + b == m * a' + b';
    MulGrows(m, a - a');
    assert m * (a - a') == b' - b;
  }

  /** A non-zero multiple of `m` is at least `m` away from zero. */
  lemma MulGrows(m: int, d: int)
    requires m >= 0
    ensures d >= 1 ==> m * d >= m
    ensures d <= -1 ==> m * d <= -m
  {
    if d >= 1 {
      assert m * d == m + m * (d - 1);
    } else if d <= -1 {
      assert m * d == -m + m * (d + 1);
    }
  }
}
