/** The integer facts the Hamming coders rest on. Positions are numbered from 1; the check
    with index `i` covers the positions whose binary digit of weight `2^i` is set, and parity
    bits sit at the positions that are powers of two. Python's `&` and `^` on non-negative
    integers are written out digit by digit. */
module HammingMath {
  import opened Bits

  /** The binary digit of weight `2^i` of `p`. */
  function Bit(p: nat, i: nat): (b: nat)
    ensures b <= 1
  {
    if i == 0 then p % 2 else Bit(p / 2, i - 1)
  }

  /** Python's `a & b`. */
  function BitAnd(a: nat, b: nat): nat {
    if a == 0 || b == 0 then 0
    else 2 * BitAnd(a / 2, b / 2) + (if a % 2 == 1 && b % 2 == 1 then 1 else 0)
  }

  /** Python's `a ^ b`. */
  function Xor(a: nat, b: nat): nat {
    if a == 0 then b
    else if b == 0 then a
    else 2 * Xor(a / 2, b / 2) + (if a % 2 != b % 2 then 1 else 0)
  }

  /** `i` is one of 1, 2, 4, 8, ... */
  predicate IsPowerOfTwo(i: nat) {
    i == 1 || (i >= 2 && i % 2 == 0 && IsPowerOfTwo(i / 2))
  }

  /** The exponent of the largest power of two not above `p`. */
  function Log2(p: nat): nat {
    if p <= 1 then 0 else 1 + Log2(p / 2)
  }

  /** The sum of the digits of `p` below weight `2^r`, each times its weight. */
  function BitSum(p: nat, r: nat): nat {
    if r == 0 then 0 else BitSum(p, r - 1) + Bit(p, r - 1) * Pow2(r - 1)
  }

  /** XOR and addition agree on the last binary digit. */
  lemma XorParity(a: nat, b: nat)
    ensures Xor(a, b) % 2 == (a + b) % 2
  {
  }

  /** XOR of two numbers of `w` digits has `w` digits: bytes stay bytes. */
  lemma {:induction false} XorBound(a: nat, b: nat, w: nat)
    requires a < Pow2(w) && b < Pow2(w)
    ensures Xor(a, b) < Pow2(w)
  {
    if a != 0 && b != 0 {
      XorBound(a / 2, b / 2, w - 1);
    }
  }

  lemma {:induction false} Pow2Monotone(a: nat, b: nat)
    requires a < b
    ensures Pow2(a) < Pow2(b)
    decreases b
  {
    if a < b - 1 {
      Pow2Monotone(a, b - 1);
    }
  }

  /** `2^a` exceeds `a`. */
  lemma {:induction false} Pow2Exceeds(a: nat)
    ensures Pow2(a) >= a + 1
  {
    if a > 0 {
      Pow2Exceeds(a - 1);
    }
  }

  lemma {:induction false} BitOfZero(i: nat)
    ensures Bit(0, i) == 0
  {
    if i > 0 {
      BitOfZero(i - 1);
    }
  }

  /** Inside a block of `2^i` consecutive numbers starting at a multiple `k * 2^i`, digit `i`
      is the parity of `k`: the blocks `range(x - 1, n, 2 * x)` of width `x = 2^i` that the
      checks sum are exactly the positions with digit `i` set. */
  lemma {:induction false} BitOfBlock(i: nat, k: nat, u: nat)
    requires u < Pow2(i)
    ensures Bit(Pow2(i) * k + u, i) == k % 2
  {
    if i > 0 {
      var h := Pow2(i - 1);
      assert Pow2(i) * k + u == 2 * (h * k + u / 2) + u % 2;
      assert (Pow2(i) * k + u) / 2 == h * k + u / 2;
      BitOfBlock(i - 1, k, u / 2);
    }
  }

  lemma BitAbove(p: nat, i: nat)
    requires p < Pow2(i)
    ensures Bit(p, i) == 0
  {
    BitOfBlock(i, 0, p);
  }

  /** A power of two has exactly one digit set. */
  lemma {:induction false} BitOfPow2(a: nat, i: nat)
    ensures Bit(Pow2(a), i) == if i == a then 1 else 0
  {
    if a == 0 {
      if i > 0 {
        BitOfZero(i - 1);
      }
    } else if i > 0 {
      BitOfPow2(a - 1, i - 1);
    }
  }

  lemma {:induction false} BitSumShift(p: nat, j: nat)
    ensures BitSum(p, j + 1) == p % 2 + 2 * BitSum(p / 2, j)
  {
    if j > 0 {
      BitSumShift(p, j - 1);
      assert Bit(p, j) * Pow2(j) == 2 * (Bit(p / 2, j - 1) * Pow2(j - 1));
    }
  }

  /** A number below `2^r` is the sum of its first `r` digits times their weights. */
  lemma {:induction false} BitSumIs(p: nat, r: nat)
    requires p < Pow2(r)
    ensures BitSum(p, r) == p
  {
    if r > 0 {
      BitSumShift(p, r - 1);
      BitSumIs(p / 2, r - 1);
    } else {
      assert p == 0;
    }
  }

  lemma {:induction false} BitSumOfNoBits(p: nat, r: nat)
    requires forall i :: 0 <= i < r ==> Bit(p, i) == 0
    ensures BitSum(p, r) == 0
  {
    if r > 0 {
      BitSumOfNoBits(p, r - 1);
    }
  }

  /** Every position below `2^r` is covered by at least one of the first `r` checks. */
  lemma SomeBitSet(p: nat, r: nat)
    requires 1 <= p < Pow2(r)
    ensures exists i :: 0 <= i < r && Bit(p, i) == 1
  {
    BitSumIs(p, r);
    if forall i :: 0 <= i < r ==> Bit(p, i) == 0 {
      BitSumOfNoBits(p, r);
    }
  }

  lemma {:induction false} BitAndSelf(a: nat)
    ensures BitAnd(a, a) == a
  {
    if a > 0 {
      BitAndSelf(a / 2);
    }
  }

  /** `a & 2^e` keeps digit `e` of `a` alone. */
  lemma {:induction false} BitAndPow2(a: nat, e: nat)
    ensures BitAnd(a, Pow2(e)) == Bit(a, e) * Pow2(e)
  {
    if a == 0 {
      BitOfZero(e);
    } else if e > 0 {
      BitAndPow2(a / 2, e - 1);
    }
  }

  lemma {:induction false} Log2Bounds(p: nat)
    requires p >= 1
    ensures Pow2(Log2(p)) <= p < Pow2(Log2(p) + 1)
  {
    if p > 1 {
      Log2Bounds(p / 2);
    }
  }

  lemma {:induction false} Log2OfPow2(e: nat)
    ensures Log2(Pow2(e)) == e
  {
    if e > 0 {
      Log2OfPow2(e - 1);
    }
  }

  /** The powers of two are the `p` equal to `2^Log2(p)`. */
  lemma {:induction false} PowerOfTwoIff(p: nat)
    requires p >= 1
    ensures IsPowerOfTwo(p) <==> p == Pow2(Log2(p))
  {
    if p > 1 {
      assert Log2(p) == 1 + Log2(p / 2);
      if p % 2 == 0 {
        PowerOfTwoIff(p / 2);
      }
    }
  }

  /** The test `(i & (i - 1)) == 0` the coders apply to a position `i >= 1` picks exactly the
      powers of two. */
  lemma {:induction false} PowerTest(i: nat)
    requires i >= 1
    ensures BitAnd(i, i - 1) == 0 <==> IsPowerOfTwo(i)
  {
    if i > 1 {
      if i % 2 == 0 {
        PowerTest(i / 2);
        assert 2 * (i / 2) == i;
        EvenPowerStep(i / 2);
      } else {
        OddNotPower(i);
      }
    }
  }

  lemma EvenPowerStep(h: nat)
    requires h >= 1
    ensures BitAnd(2 * h, 2 * h - 1) == 2 * BitAnd(h, h - 1)
  {
    var a, b := 2 * h, 2 * h - 1;
    assert a / 2 == h && a % 2 == 0;
    assert b / 2 == h - 1 && b % 2 == 1;
  }

  lemma OddNotPower(p: nat)
    requires p >= 3 && p % 2 == 1
    ensures BitAnd(p, p - 1) == p - 1 && p - 1 != 0
  {
    BitAndSelf(p / 2);
    assert (p - 1) / 2 == p / 2;
  }

  lemma IsPowerOfTwoPow2(e: nat)
    ensures IsPowerOfTwo(Pow2(e)) && Log2(Pow2(e)) == e
  {
    Log2OfPow2(e);
    PowerOfTwoIff(Pow2(e));
  }

  /** A power of two below `2^r` has its exponent below `r`. */
  lemma Log2Below(p: nat, r: nat)
    requires 1 <= p < Pow2(r)
    ensures Log2(p) < r
  {
    Log2Bounds(p);
    if Log2(p) >= r {
      if Log2(p) > r {
        Pow2Monotone(r, Log2(p));
      }
    }
  }

  /** Position `p` is checked by check `Log2(p)` and by no other one when it is a power. */
  lemma PowerPositionBits(p: nat, i: nat)
    requires IsPowerOfTwo(p)
    ensures Bit(p, i) == if i == Log2(p) then 1 else 0
  {
    PowerOfTwoIff(p);
    BitOfPow2(Log2(p), i);
  }

  /** The least `r` with `2^r >= m + r + 1`: how many parity bits `m` data bits get. */
  function ParityCount(m: nat): (r: nat)
    ensures Pow2(r) >= m + r + 1
    ensures forall k :: 0 <= k < r ==> Pow2(k) < m + k + 1
  {
    ParitySearch(m, 0)
  }

  function ParitySearch(m: nat, r: nat): (res: nat)
    requires r <= m + 1
    requires forall k :: 0 <= k < r ==> Pow2(k) < m + k + 1
    ensures Pow2(res) >= m + res + 1
    ensures forall k :: 0 <= k < res ==> Pow2(k) < m + k + 1
    decreases m + 1 - r
  {
    Pow2Exceeds(m);
    if Pow2(r) >= m + r + 1 then r else ParitySearch(m, r + 1)
  }

  /** The least `r` with `2^r >= n + 1`: the number of binary digits of `n`. */
  function BitLength(n: nat): (r: nat)
    ensures Pow2(r) >= n + 1
    ensures forall k :: 0 <= k < r ==> Pow2(k) < n + 1
  {
    LengthSearch(n, 0)
  }

  function LengthSearch(n: nat, r: nat): (res: nat)
    requires r <= n
    requires forall k :: 0 <= k < r ==> Pow2(k) < n + 1
    ensures Pow2(res) >= n + 1
    ensures forall k :: 0 <= k < res ==> Pow2(k) < n + 1
    decreases n + 1 - r
  {
    Pow2Exceeds(n);
    if Pow2(r) >= n + 1 then r else LengthSearch(n, r + 1)
  }

  /** The parity bits the decoder finds in a word of `m + ParityCount(m)` characters are the
      ones the encoder put there. */
  lemma BitLengthOfCodeword(m: nat)
    ensures BitLength(m + ParityCount(m)) == ParityCount(m)
  {
  }

  /** How many of the positions `1..k` are powers of two. */
  function PowersUpTo(k: nat): (c: nat)
    ensures c <= k
  {
    if k == 0 then 0 else PowersUpTo(k - 1) + (if IsPowerOfTwo(k) then 1 else 0)
  }

  /** How many of the positions `1..k` are not powers of two: the data characters they hold. */
  function DataUpTo(k: nat): (c: nat)
  {
    k - PowersUpTo(k)
  }

  lemma {:induction false} DataUpToMonotone(j: nat, k: nat)
    requires j <= k
    ensures DataUpTo(j) <= DataUpTo(k)
    decreases k
  {
    if j < k {
      DataUpToMonotone(j, k - 1);
    }
  }

  /** Between `2^(t-1)` and `2^t` there are exactly `t` powers of two from 1 on. */
  lemma {:induction false} PowersUpToBetween(n: nat, t: nat)
    requires t >= 1 && Pow2(t - 1) <= n < Pow2(t)
    ensures PowersUpTo(n) == t
    decreases n
  {
    if n == Pow2(t - 1) {
      IsPowerOfTwoPow2(t - 1);
      if t >= 2 {
        assert Pow2(t - 2) <= n - 1 by {
          assert Pow2(t - 1) == 2 * Pow2(t - 2);
        }
        PowersUpToBetween(n - 1, t - 1);
      }
    } else {
      if IsPowerOfTwo(n) {
        PowerOfTwoIff(n);
        var e := Log2(n);
        // e == t - 1 and e == t need no step.
        if e < t - 1 {
          Pow2Monotone(e, t - 1);
        } else if e > t {
          Pow2Monotone(t, e);
        }
      }
      PowersUpToBetween(n - 1, t);
    }
  }

  /** The positions `1..n` hold `BitLength(n)` powers of two. */
  lemma PowersUpToIsBitLength(n: nat)
    ensures PowersUpTo(n) == BitLength(n)
  {
    var t := BitLength(n);
    if n > 0 {
      PowersUpToBetween(n, t);
    }
  }
}
