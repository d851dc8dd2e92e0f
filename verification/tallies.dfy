/** Sums over a list that do not depend on its order: a total of integer weights and a
    multiset of characters, each read off every element by a measure. The Huffman builders
    keep both unchanged while they pop, merge and push. */
module Tallies {

  function Total<T>(s: seq<T>, w: T -> int): int {
    if s == [] then 0 else Total(s[..|s| - 1], w) + w(s[|s| - 1])
  }

  function Bag<T>(s: seq<T>, b: T -> multiset<char>): multiset<char> {
    if s == [] then multiset{} else Bag(s[..|s| - 1], b) + b(s[|s| - 1])
  }

  lemma {:induction false} Concat<T>(x: seq<T>, y: seq<T>, w: T -> int, b: T -> multiset<char>)
    ensures Total(x + y, w) == Total(x, w) + Total(y, w)
    ensures Bag(x + y, b) == Bag(x, b) + Bag(y, b)
    decreases |y|
  {
    if y == [] {
      assert x + y == x;
    } else {
      assert (x + y)[..|x + y| - 1] == x + y[..|y| - 1];
      Concat(x, y[..|y| - 1], w, b);
    }
  }

  /** Both sums depend only on the multiset of elements. */
  lemma {:induction false} Perm<T>(x: seq<T>, y: seq<T>, w: T -> int, b: T -> multiset<char>)
    requires multiset(x) == multiset(y)
    ensures Total(x, w) == Total(y, w) && Bag(x, b) == Bag(y, b)
    decreases |x|
  {
    if x == [] {
      assert |multiset(y)| == 0;
    } else {
      var e := x[|x| - 1];
      assert x == x[..|x| - 1] + [e];
      assert e in multiset(y);
      var i :| 0 <= i < |y| && y[i] == e;
      var rest := y[..i] + y[i + 1..];
      assert y == y[..i] + [e] + y[i + 1..];
      assert multiset(y) == multiset(y[..i]) + multiset{e} + multiset(y[i + 1..]);
      assert multiset(x) == multiset(x[..|x| - 1]) + multiset{e};
      assert multiset(rest) == multiset(y[..i]) + multiset(y[i + 1..]);
      assert multiset(rest) == multiset(y) - multiset{e};
      assert multiset(x[..|x| - 1]) == multiset(x) - multiset{e};
      Perm(x[..|x| - 1], rest, w, b);
      Concat(y[..i], [e], w, b);
      Concat(y[..i] + [e], y[i + 1..], w, b);
      Concat(y[..i], y[i + 1..], w, b);
    }
  }

  lemma Pair<T>(p: T, q: T, w: T -> int, b: T -> multiset<char>)
    ensures Total([p, q], w) == w(p) + w(q) && Bag([p, q], b) == b(p) + b(q)
    ensures Total([p], w) == w(p) && Bag([p], b) == b(p)
  {
    assert [p, q][..1] == [p];
    assert [p][..0] == [];
    assert Total([p], w) == Total([], w) + w(p) && Bag([p], b) == Bag([], b) + b(p);
    assert Total([p, q], w) == Total([p], w) + w(q) && Bag([p, q], b) == Bag([p], b) + b(q);
  }

  /** Replacing two elements by one whose measures are their sums keeps both sums. */
  lemma {:induction false} Replace<T>(before: seq<T>, rest: seq<T>, p: T, q: T, m: T, after: seq<T>,
                                      w: T -> int, b: T -> multiset<char>)
    requires multiset(before) == multiset(rest) + multiset{p, q}
    requires multiset(after) == multiset(rest) + multiset{m}
    requires w(m) == w(p) + w(q) && b(m) == b(p) + b(q)
    ensures Total(after, w) == Total(before, w) && Bag(after, b) == Bag(before, b)
  {
    assert multiset(before) == multiset(rest + [p, q]);
    assert multiset(after) == multiset(rest + [m]);
    Perm(before, rest + [p, q], w, b);
    Perm(after, rest + [m], w, b);
    Concat(rest, [p, q], w, b);
    Concat(rest, [m], w, b);
    Pair(p, q, w, b);
    Pair(m, m, w, b);
  }
}
