/** `caesar_cipher(text, key, n)`: each ASCII letter moves `key` places round an alphabet of
    `n` letters that starts at `'A'` for an upper-case letter and at `'a'` otherwise; every
    other character is copied. The arithmetic is Python's, so `%` takes the sign of `n`, a
    zero `n` raises `ZeroDivisionError` and `chr` of a value outside `0 .. 0x10FFFF` raises
    `ValueError`; both are `None` here. A Dafny `char` cannot hold a surrogate, so a value in
    `0xD800 .. 0xDFFF`, which `chr` accepts, is `None` as well. Decrypting is the same call
    with `-key`. */
module Caesar {
  import opened Wrappers
  import Bits

  /** The text is ASCII: `isalpha` and `isupper` are modelled for ASCII only. */
  predicate IsAscii(text: string) {
    forall i :: 0 <= i < |text| ==> text[i] < 128 as char
  }

  predicate IsUpper(c: char) {
    'A' <= c <= 'Z'
  }

  predicate IsLower(c: char) {
    'a' <= c <= 'z'
  }

  /** `char.isalpha()` on an ASCII character. */
  predicate IsLetter(c: char) {
    IsUpper(c) || IsLower(c)
  }

  /** Python's `a % n`: the remainder takes the sign of `n`. */
  function PyMod(a: int, n: int): (m: int)
    requires n != 0
    ensures n > 0 ==> 0 <= m < n
    ensures n < 0 ==> n < m <= 0
  {
    if n > 0 then a % n
    else if a % -n == 0 then 0
    else a % -n + n
  }

  /** Code points that are Unicode scalar values: every value `chr` accepts except the
      surrogates. */
  predicate IsScalar(v: int) {
    0 <= v < 0xD800 || 0xE000 <= v < 0x11_0000
  }

  /** The character `caesar_cipher` writes for `c`, or `None` for the exceptions. */
  function ShiftChar(c: char, key: int, n: int): Option<char> {
    if !IsLetter(c) then Some(c)
    else if n == 0 then None
    else
      var base := if IsUpper(c) then 'A' as int else 'a' as int;
      var v := PyMod(c as int - base + key, n) + base;
      if IsScalar(v) then Some(v as char) else None
  }

  /** What `caesar_cipher(text, key, n)` returns. */
  function Ciphered(text: string, key: int, n: int): (r: Option<string>)
    ensures r.Some? <==> forall i :: 0 <= i < |text| ==> ShiftChar(text[i], key, n).Some?
    ensures r.Some? ==> |r.value| == |text|
    ensures r.Some? ==> forall i :: 0 <= i < |text| ==> Some(r.value[i]) == ShiftChar(text[i], key, n)
  {
    if forall i :: 0 <= i < |text| ==> ShiftChar(text[i], key, n).Some?
    then Some(seq(|text|, i requires 0 <= i < |text| => ShiftChar(text[i], key, n).value))
    else None
  }

  method CaesarCipher(text: string, key: int, n: int) returns (result: Option<string>)
    requires IsAscii(text)
    ensures result == Ciphered(text, key, n)
  {
    var out := "";
    var i := 0;
    while i < |text|
      invariant 0 <= i <= |text| && |out| == i
      invariant forall j :: 0 <= j < i ==> Some(out[j]) == ShiftChar(text[j], key, n)
    {
      var c := text[i];
      if IsLetter(c) {
        if n == 0 {
          return None;
        }
        var shift := if IsUpper(c) then 'A' as int else 'a' as int;
        var v := PyMod(c as int - shift + key, n) + shift;
        if !IsScalar(v) {
          return None;
        }
        out := out + [v as char];
      } else {
        out := out + [c];
      }
      i := i + 1;
    }
    assert out == Ciphered(text, key, n).value;
    return Some(out);
  }

  /** Every character that is not a letter is copied; with `n = 26` every letter goes to a
      letter of the same case, `((c - base + key) mod 26) + base`, so the cipher never fails. */
  lemma ShiftChar26(c: char, key: int)
    ensures ShiftChar(c, key, 26).Some?
    ensures !IsLetter(c) ==> ShiftChar(c, key, 26).value == c
    ensures IsUpper(c) ==> IsUpper(ShiftChar(c, key, 26).value)
    ensures IsUpper(c) ==>
              ShiftChar(c, key, 26).value as int == (c as int - 'A' as int + key) % 26 + 'A' as int
    ensures IsLower(c) ==> IsLower(ShiftChar(c, key, 26).value)
    ensures IsLower(c) ==>
              ShiftChar(c, key, 26).value as int == (c as int - 'a' as int + key) % 26 + 'a' as int
  {
  }

  /** With `n = 26` the result is as long as the text, copies the non-letters and keeps the
      case of every letter. */
  lemma Cipher26(text: string, key: int)
    ensures Ciphered(text, key, 26).Some?
    ensures |Ciphered(text, key, 26).value| == |text|
    ensures forall i :: 0 <= i < |text| ==>
              (!IsLetter(text[i]) ==> Ciphered(text, key, 26).value[i] == text[i]) &&
              (IsUpper(text[i]) <==> IsUpper(Ciphered(text, key, 26).value[i])) &&
              (IsLower(text[i]) <==> IsLower(Ciphered(text, key, 26).value[i]))
  {
    forall i | 0 <= i < |text| ensures ShiftChar(text[i], key, 26).Some? {
      ShiftChar26(text[i], key);
    }
    forall i | 0 <= i < |text|
      ensures (!IsLetter(text[i]) ==> Ciphered(text, key, 26).value[i] == text[i]) &&
              (IsUpper(text[i]) <==> IsUpper(Ciphered(text, key, 26).value[i])) &&
              (IsLower(text[i]) <==> IsLower(Ciphered(text, key, 26).value[i]))
    {
      ShiftChar26(text[i], key);
    }
  }

  /** Adding `n` to a value does not change it modulo `n`. */
  lemma PyModShift(a: int, n: int)
    requires n != 0
    ensures PyMod(a + n, n) == PyMod(a, n)
  {
    var m := if n > 0 then n else -n;
    var q := a / m;
    if n > 0 {
      Bits.ModUnique(a + n, m, q + 1, a % m);
    } else {
      Bits.ModUnique(a + n, m, q - 1, a % m);
    }
  }

  /** The keys `k` and `k + n` give the same output. */
  lemma KeyPeriodic(text: string, key: int, n: int)
    ensures Ciphered(text, key + n, n) == Ciphered(text, key, n)
  {
    forall i | 0 <= i < |text| ensures ShiftChar(text[i], key + n, n) == ShiftChar(text[i], key, n) {
      var c := text[i];
      if IsLetter(c) && n != 0 {
        var base := if IsUpper(c) then 'A' as int else 'a' as int;
        PyModShift(c as int - base + key, n);
        assert c as int - base + (key + n) == (c as int - base + key) + n;
      }
    }
    if Ciphered(text, key, n).Some? {
      assert Ciphered(text, key + n, n).value == Ciphered(text, key, n).value;
    }
  }

  /** Decrypting a character encrypted with the same key and `n = 26` gives it back. */
  lemma CharRoundTrip(c: char, key: int)
    ensures ShiftChar(ShiftChar(c, key, 26).value, -key, 26) == Some(c)
  {
    ShiftChar26(c, key);
    var e := ShiftChar(c, key, 26).value;
    if IsLetter(c) {
      var base := if IsUpper(c) then 'A' as int else 'a' as int;
      var m := (c as int - base + key) % 26;
      assert e as int - base == m;
      ModCancel(c as int - base, key);
    }
  }

  /** `((a + k) mod 26 - k) mod 26 == a` for `0 <= a < 26`. */
  lemma ModCancel(a: int, k: int)
    requires 0 <= a < 26
    ensures ((a + k) % 26 - k) % 26 == a
  {
    var q := (a + k) / 26;
    assert a + k == 26 * q + (a + k) % 26;
    assert (a + k) % 26 - k == a - 26 * q;
    Bits.ModUnique(a - 26 * q, 26, -q, a);
  }

  /** For ASCII text and `n = 26`, decrypting (the cipher with `-key`) an encryption returns
      the original. */
  lemma RoundTrip(text: string, key: int)
    ensures Ciphered(text, key, 26).Some?
    ensures Ciphered(Ciphered(text, key, 26).value, -key, 26) == Some(text)
  {
    Cipher26(text, key);
    var e := Ciphered(text, key, 26).value;
    forall i | 0 <= i < |text| ensures ShiftChar(e[i], -key, 26) == Some(text[i]) {
      CharRoundTrip(text[i], key);
    }
    assert Ciphered(e, -key, 26).value == text;
  }
}
