/** `caesar_decrypt(ciphertext, shift)`: every character of the 33-letter lower-case Russian
    alphabet moves `shift` places back round that alphabet; every other character, upper-case
    letters included, is copied. The alphabet places `ё` after `е`, so it is not in code-point
    order. */
module CyrillicCaesar {
  import Bits

  /** The code point at place `i` of the alphabet: `а`..`е`, then `ё`, then `ж`..`я`. */
  function Code(i: nat): (c: int)
    ensures 0x430 <= c <= 0x451
  {
    if i < 6 then 0x430 + i else if i == 6 then 0x451 else if i < 33 then 0x430 + i - 1 else 0x430
  }

  /** `'абвгдеёжзийклмнопрстуфхцчшщъыьэюя'`, place by place. */
  function Alphabet(): (a: string)
    ensures |a| == 33
  {
    seq(33, i requires 0 <= i < 33 => Code(i) as char)
  }

  /** The alphabet is the 33-letter string literal of the source. */
  lemma AlphabetLiteral()
    ensures Alphabet() ==
      "\U{0430}\U{0431}\U{0432}\U{0433}\U{0434}\U{0435}\U{0451}\U{0436}\U{0437}\U{0438}\U{0439}"
      + "\U{043A}\U{043B}\U{043C}\U{043D}\U{043E}\U{043F}\U{0440}\U{0441}\U{0442}\U{0443}\U{0444}"
      + "\U{0445}\U{0446}\U{0447}\U{0448}\U{0449}\U{044A}\U{044B}\U{044C}\U{044D}\U{044E}\U{044F}"
  {
  }

  /** No letter occurs twice, so `index` finds the place a letter was taken from. */
  lemma AlphabetDistinct()
    ensures forall i, j :: 0 <= i < j < |Alphabet()| ==> Alphabet()[i] != Alphabet()[j]
  {
    forall i, j | 0 <= i < j < |Alphabet()| ensures Alphabet()[i] != Alphabet()[j] {
      assert Code(i) != Code(j);
    }
  }

  /** `s.index(c)`: the first place of `c`. */
  function IndexOf(s: string, c: char): (i: nat)
    requires c in s
    ensures i < |s| && s[i] == c && c !in s[..i]
  {
    if s[0] == c then 0 else 1 + IndexOf(s[1..], c)
  }

  /** The character `caesar_decrypt` writes for `c`. */
  function DecryptChar(c: char, shift: int): char {
    if c in Alphabet() then Alphabet()[(IndexOf(Alphabet(), c) - shift) % |Alphabet()|] else c
  }

  /** What `caesar_decrypt(ciphertext, shift)` returns, character by character. */
  function Decrypted(text: string, shift: int): (r: string)
    ensures |r| == |text|
    ensures forall i :: 0 <= i < |text| ==> r[i] == DecryptChar(text[i], shift)
  {
    seq(|text|, i requires 0 <= i < |text| => DecryptChar(text[i], shift))
  }

  method CaesarDecrypt(ciphertext: string, shift: int) returns (decrypted: string)
    ensures decrypted == Decrypted(ciphertext, shift)
  {
    decrypted := "";
    for i := 0 to |ciphertext|
      invariant |decrypted| == i
      invariant forall j :: 0 <= j < i ==> decrypted[j] == DecryptChar(ciphertext[j], shift)
    {
      var c := ciphertext[i];
      if c in Alphabet() {
        var shifted := (IndexOf(Alphabet(), c) - shift) % |Alphabet()|;
        decrypted := decrypted + [Alphabet()[shifted]];
      } else {
        decrypted := decrypted + [c];
      }
    }
  }

  /** `index` of the letter at place `j` is `j`. */
  lemma IndexOfAt(j: nat)
    requires j < |Alphabet()|
    ensures IndexOf(Alphabet(), Alphabet()[j]) == j
  {
    AlphabetDistinct();
  }

  /** A letter of the alphabet decrypts to a letter of the alphabet, anything else to itself;
      `index` of the result is `(index(c) - shift) mod 33`. */
  lemma DecryptCharShape(c: char, shift: int)
    ensures c in Alphabet() <==> DecryptChar(c, shift) in Alphabet()
    ensures c !in Alphabet() ==> DecryptChar(c, shift) == c
    ensures c in Alphabet() ==>
              IndexOf(Alphabet(), DecryptChar(c, shift)) == (IndexOf(Alphabet(), c) - shift) % 33
  {
    if c in Alphabet() {
      var j := (IndexOf(Alphabet(), c) - shift) % 33;
      assert DecryptChar(c, shift) == Alphabet()[j];
      IndexOfAt(j);
    }
  }

  /** Going `shift` places back round the 33 places and `shift` places forward again returns
      to the start. */
  lemma ModBack(x: int, shift: int)
    requires 0 <= x < 33
    ensures ((x - shift) % 33 + shift) % 33 == x
  {
    var q, y := (x - shift) / 33, (x - shift) % 33;
    assert x - shift == 33 * q + y;
    assert y + shift == 33 * -q + x;
    Bits.ModUnique(y + shift, 33, -q, x);
  }

  /** Decryption keeps the length, copies every character outside the alphabet and keeps every
      letter of the alphabet inside it. */
  lemma DecryptedShape(text: string, shift: int)
    ensures |Decrypted(text, shift)| == |text|
    ensures forall i :: 0 <= i < |text| ==>
              (text[i] in Alphabet() <==> Decrypted(text, shift)[i] in Alphabet())
    ensures forall i :: 0 <= i < |text| && text[i] !in Alphabet() ==>
              Decrypted(text, shift)[i] == text[i]
  {
    forall i | 0 <= i < |text|
      ensures text[i] in Alphabet() <==> Decrypted(text, shift)[i] in Alphabet()
    {
      DecryptCharShape(text[i], shift);
    }
  }

  /** The shifts `s` and `s + 33` decrypt alike. */
  lemma ShiftPeriodic(text: string, shift: int)
    ensures Decrypted(text, shift + 33) == Decrypted(text, shift)
  {
    forall i | 0 <= i < |text| && text[i] in Alphabet()
      ensures DecryptChar(text[i], shift + 33) == DecryptChar(text[i], shift)
    {
      var x := IndexOf(Alphabet(), text[i]) - shift - 33;
      Bits.ModUnique(x + 33, 33, x / 33 + 1, x % 33);
    }
  }

  /** Shift 0 changes nothing. */
  lemma ShiftZero(text: string)
    ensures Decrypted(text, 0) == text
  {
    forall i | 0 <= i < |text| ensures DecryptChar(text[i], 0) == text[i] {
      if text[i] in Alphabet() {
        var x := IndexOf(Alphabet(), text[i]);
        Bits.ModUnique(x, 33, 0, x);
      }
    }
  }

  /** Decrypting a character with `-shift` undoes decrypting it with `shift`. */
  lemma CharRoundTrip(c: char, shift: int)
    ensures DecryptChar(DecryptChar(c, shift), -shift) == c
  {
    if c in Alphabet() {
      var x := IndexOf(Alphabet(), c);
      var y := (x - shift) % 33;
      assert DecryptChar(c, shift) == Alphabet()[y];
      IndexOfAt(y);
      ModBack(x, shift);
      assert y - -shift == y + shift;
    }
  }

  /** Decrypting with `-shift` undoes decrypting with `shift`. */
  lemma RoundTrip(text: string, shift: int)
    ensures Decrypted(Decrypted(text, shift), -shift) == text
  {
    var d := Decrypted(text, shift);
    forall i | 0 <= i < |text| ensures DecryptChar(d[i], -shift) == text[i] {
      CharRoundTrip(text[i], shift);
    }
  }
}
