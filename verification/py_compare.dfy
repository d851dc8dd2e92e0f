/** Python's `<` on the values the group-heap coders put on their heap: lists
    `[weight, [symbol, code], [symbol, code], ...]`. Lists and strings compare
    lexicographically: the first position where they differ decides, and a proper prefix is the
    smaller. Every such order built from strict total orders is again a strict total order, so
    `heapq` gets the strict weak order it needs. */
module PyCompare {
  import opened Heapq

  ghost predicate StrictTotal<T(!new)>(lt: (T, T) -> bool) {
    (forall x :: !lt(x, x)) &&
    (forall x, y, z :: lt(x, y) && lt(y, z) ==> lt(x, z)) &&
    (forall x, y :: x != y ==> lt(x, y) || lt(y, x))
  }

  lemma TotalIsWeak<T(!new)>(lt: (T, T) -> bool)
    requires StrictTotal(lt)
    ensures StrictWeakOrder(lt)
  {
    forall x, y, z | !lt(x, y) && !lt(y, z) ensures !lt(x, z) {
      if x != y && y != z {
        assert lt(z, x);
      }
    }
  }

  /** Lexicographic `<` on sequences, as Python compares lists and strings. */
  function Lex<T(==)>(a: seq<T>, b: seq<T>, lt: (T, T) -> bool): bool
    decreases |a|
  {
    if a == [] then b != []
    else if b == [] then false
    else if a[0] != b[0] then lt(a[0], b[0])
    else Lex(a[1..], b[1..], lt)
  }

  lemma {:induction false} LexIrreflexive<T(!new)>(a: seq<T>, lt: (T, T) -> bool)
    requires StrictTotal(lt)
    ensures !Lex(a, a, lt)
    decreases |a|
  {
    if a != [] {
      LexIrreflexive(a[1..], lt);
    }
  }

  lemma {:induction false} LexTransitive<T(!new)>(a: seq<T>, b: seq<T>, c: seq<T>, lt: (T, T) -> bool)
    requires StrictTotal(lt) && Lex(a, b, lt) && Lex(b, c, lt)
    ensures Lex(a, c, lt)
    decreases |a|
  {
    if a != [] && a[0] == b[0] && b[0] == c[0] {
      LexTransitive(a[1..], b[1..], c[1..], lt);
    }
  }

  lemma {:induction false} LexTrichotomous<T(!new)>(a: seq<T>, b: seq<T>, lt: (T, T) -> bool)
    requires StrictTotal(lt) && a != b
    ensures Lex(a, b, lt) || Lex(b, a, lt)
    decreases |a|
  {
    if a != [] && b != [] && a[0] == b[0] {
      assert a == [a[0]] + a[1..] && b == [b[0]] + b[1..];
      LexTrichotomous(a[1..], b[1..], lt);
    }
  }

  lemma LexTotal<T(!new)>(lt: (T, T) -> bool)
    requires StrictTotal(lt)
    ensures forall a :: !Lex(a, a, lt)
    ensures forall a, b, c :: Lex(a, b, lt) && Lex(b, c, lt) ==> Lex(a, c, lt)
    ensures forall a, b :: a != b ==> Lex(a, b, lt) || Lex(b, a, lt)
  {
    forall a ensures !Lex(a, a, lt) {
      LexIrreflexive(a, lt);
    }
    forall a, b, c | Lex(a, b, lt) && Lex(b, c, lt) ensures Lex(a, c, lt) {
      LexTransitive(a, b, c, lt);
    }
    forall a, b | a != b ensures Lex(a, b, lt) || Lex(b, a, lt) {
      LexTrichotomous(a, b, lt);
    }
  }

  /** `<` on characters: by code point. */
  function CharLess(x: char, y: char): bool {
    x < y
  }

  /** `<` on strings. */
  function StrLess(a: string, b: string): bool {
    Lex(a, b, CharLess)
  }

  /** `<` on the two-element lists `[symbol, code]`: the symbols first, then the codes. */
  function PairLess(p: (char, string), q: (char, string)): bool {
    if p.0 != q.0 then CharLess(p.0, q.0) else StrLess(p.1, q.1)
  }

  /** `<` on the tails `[[symbol, code], ...]` of two heap entries. */
  function PairsLess(a: seq<(char, string)>, b: seq<(char, string)>): bool {
    Lex(a, b, PairLess)
  }

  lemma StrLessTotal()
    ensures StrictTotal(StrLess)
  {
    assert StrictTotal(CharLess);
    LexTotal(CharLess);
  }

  lemma PairLessTotal()
    ensures StrictTotal(PairLess)
  {
    StrLessTotal();
  }

  lemma PairsLessTotal()
    ensures StrictTotal(PairsLess)
  {
    PairLessTotal();
    LexTotal(PairLess);
  }
}
