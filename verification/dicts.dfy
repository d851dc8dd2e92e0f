/** A Python `dict` as the sequence of its items in insertion order.

    The order matters to the code being modelled: `next(k for k, v in d.items() if ...)` and a
    `for ... break` over `d.items()` return the FIRST matching item, `{v: k for k, v in d.items()}`
    keeps the LAST key for a repeated value, and `d[k] = v` on an existing key keeps the key's
    position. */
module Dicts {
  import opened Wrappers

  type Dict<K, V> = seq<(K, V)>

  /** Every key occurs once, as in a real dict. */
  predicate DistinctKeys<K(==), V>(d: Dict<K, V>) {
    forall i, j :: 0 <= i < j < |d| ==> d[i].0 != d[j].0
  }

  /** No value occurs twice (the dict is injective). */
  predicate DistinctValues<K, V(==)>(d: Dict<K, V>) {
    forall i, j :: 0 <= i < j < |d| ==> d[i].1 != d[j].1
  }

  predicate HasKey<K(==), V>(d: Dict<K, V>, k: K) {
    exists i :: 0 <= i < |d| && d[i].0 == k
  }

  predicate HasValue<K, V(==)>(d: Dict<K, V>, v: V) {
    exists i :: 0 <= i < |d| && d[i].1 == v
  }

  function Keys<K, V>(d: Dict<K, V>): (r: seq<K>)
    ensures |r| == |d| && forall i :: 0 <= i < |d| ==> r[i] == d[i].0
  {
    seq(|d|, i requires 0 <= i < |d| => d[i].0)
  }

  /** Position of the item with key `k`; the first one if keys repeat. */
  function KeyIndex<K(==), V>(d: Dict<K, V>, k: K): (i: nat)
    requires HasKey(d, k)
    ensures i < |d| && d[i].0 == k
    ensures forall j :: 0 <= j < i ==> d[j].0 != k
  {
    if d[0].0 == k then 0
    else
      assert HasKey(d[1..], k) by {
        var i :| 0 <= i < |d| && d[i].0 == k;
        assert d[1..][i - 1].0 == k;
      }
      1 + KeyIndex(d[1..], k)
  }

  /** `d[k]` (None where Python raises KeyError). */
  function Get<K(==), V>(d: Dict<K, V>, k: K): (r: Option<V>)
    ensures r.None? <==> !HasKey(d, k)
    ensures r.Some? ==> exists i :: 0 <= i < |d| && d[i] == (k, r.value)
    ensures DistinctKeys(d) ==> forall i :: 0 <= i < |d| && d[i].0 == k ==> r == Some(d[i].1)
  {
    if HasKey(d, k) then
      var i := KeyIndex(d, k);
      assert d[i] == (k, d[i].1);
      Some(d[i].1)
    else None
  }

  /** `d[k] = v`: an existing key keeps its position and gets the new value, a new key is
      appended at the end. */
  function Put<K(==,!new), V>(d: Dict<K, V>, k: K, v: V): (r: Dict<K, V>)
    ensures Get(r, k) == Some(v)
    ensures forall k' :: k' != k ==> Get(r, k') == Get(d, k')
    ensures HasKey(d, k) ==> Keys(r) == Keys(d) && r == d[KeyIndex(d, k) := (k, v)]
    ensures !HasKey(d, k) ==> r == d + [(k, v)]
    ensures DistinctKeys(d) ==> DistinctKeys(r)
  {
    if HasKey(d, k) then
      var r := d[KeyIndex(d, k) := (k, v)];
      PutSameKeys(d, r, k);
      r
    else
      var r := d + [(k, v)];
      PutAppend(d, r, k);
      r
  }

  /** Replacing the value at the first occurrence of `k` leaves every other lookup alone. */
  lemma PutSameKeys<K(!new), V>(d: Dict<K, V>, r: Dict<K, V>, k: K)
    requires HasKey(d, k) && |r| == |d|
    requires forall j :: 0 <= j < |d| ==> r[j].0 == d[j].0
    requires forall j :: 0 <= j < |d| && d[j].0 != k ==> r[j] == d[j]
    ensures forall k' :: k' != k ==> Get(r, k') == Get(d, k')
  {
    forall k' | k' != k
      ensures Get(r, k') == Get(d, k')
    {
      if HasKey(d, k') {
        var j :| 0 <= j < |d| && d[j].0 == k';
        assert r[j].0 == k';
      }
    }
  }

  /** Appending a new key leaves every other lookup alone. */
  lemma PutAppend<K(!new), V>(d: Dict<K, V>, r: Dict<K, V>, k: K)
    requires !HasKey(d, k) && |r| == |d| + 1 && r[..|d|] == d && r[|d|].0 == k
    ensures forall k' :: k' != k ==> Get(r, k') == Get(d, k')
  {
    forall k' | k' != k
      ensures Get(r, k') == Get(d, k')
    {
      if HasKey(d, k') {
        var j :| 0 <= j < |d| && d[j].0 == k';
        assert r[j].0 == k';
      }
    }
  }

  /** No item before position `i` has the value `v`. */
  predicate NoValueBefore<K, V(==)>(d: Dict<K, V>, v: V, i: nat)
    requires i <= |d|
  {
    forall j :: 0 <= j < i ==> d[j].1 != v
  }

  /** No item after position `i` has the value of item `i`. */
  predicate LastWithValue<K, V(==)>(d: Dict<K, V>, i: nat)
    requires i < |d|
  {
    forall j :: i < j < |d| ==> d[j].1 != d[i].1
  }

  /** The first key whose value is `v`: `next(k for k, c in d.items() if c == v)`, and the
      `for k, c in d.items(): if c == v: ... break` search. */
  function KeyOf<K, V(==)>(d: Dict<K, V>, v: V): (r: Option<K>)
    ensures r.None? <==> !HasValue(d, v)
    ensures r.Some? ==> exists i :: 0 <= i < |d| && d[i] == (r.value, v) && NoValueBefore(d, v, i)
    ensures DistinctValues(d) ==> forall i :: 0 <= i < |d| && d[i].1 == v ==> r == Some(d[i].0)
  {
    if d == [] then None
    else if d[0].1 == v then
      assert d[0] == (d[0].0, v) && NoValueBefore(d, v, 0);
      Some(d[0].0)
    else
      var r := KeyOf(d[1..], v);
      assert r.Some? ==> exists i :: 1 <= i < |d| && d[i] == (r.value, v) && NoValueBefore(d, v, i) by {
        if r.Some? {
          var i :| 0 <= i < |d[1..]| && d[1..][i] == (r.value, v) && NoValueBefore(d[1..], v, i);
          assert d[i + 1] == (r.value, v);
          forall j | 0 <= j < i + 1 ensures d[j].1 != v {
            if j > 0 { assert d[j] == d[1..][j - 1]; }
          }
        }
      }
      assert !HasValue(d[1..], v) ==> !HasValue(d, v) by {
        if HasValue(d, v) {
          var i :| 0 <= i < |d| && d[i].1 == v;
          assert i > 0 && d[1..][i - 1].1 == v;
        }
      }
      r
  }

  /** `{v: k for k, v in d.items()}`: later items overwrite earlier ones. */
  function Invert<K, V(==,!new)>(d: Dict<K, V>): (r: Dict<V, K>)
    ensures DistinctKeys(r)
    ensures forall v :: Get(r, v).None? <==> !HasValue(d, v)
    ensures forall i :: 0 <= i < |d| && LastWithValue(d, i) ==> Get(r, d[i].1) == Some(d[i].0)
  {
    if d == [] then []
    else
      var init := d[..|d| - 1];
      var last := d[|d| - 1];
      var r0 := Invert(init);
      var r := Put(r0, last.1, last.0);
      assert forall i :: 0 <= i < |d| && LastWithValue(d, i) ==> Get(r, d[i].1) == Some(d[i].0) by {
        forall i | 0 <= i < |d| && LastWithValue(d, i) ensures Get(r, d[i].1) == Some(d[i].0) {
          if i < |d| - 1 {
            assert d[i] == init[i] && d[i].1 != last.1;
            assert LastWithValue(init, i) by {
              forall j | i < j < |init| ensures init[j].1 != init[i].1 {
                assert init[j] == d[j];
              }
            }
          }
        }
      }
      assert forall v :: HasValue(d, v) <==> HasValue(init, v) || v == last.1 by {
        forall v | HasValue(d, v) ensures HasValue(init, v) || v == last.1 {
          var i :| 0 <= i < |d| && d[i].1 == v;
          if i < |d| - 1 { assert init[i].1 == v; }
        }
        forall v | HasValue(init, v) ensures HasValue(d, v) {
          var i :| 0 <= i < |init| && init[i].1 == v;
          assert d[i].1 == v;
        }
      }
      r
  }

  /** For an injective dict the inverted dict answers exactly what the first-match search
      answers, so the two decoding styles of the source agree. */
  lemma {:induction false} InvertAgreesWithKeyOf<K, V(!new)>(d: Dict<K, V>, v: V)
    requires DistinctValues(d)
    ensures Get(Invert(d), v) == KeyOf(d, v)
  {
    if d != [] {
      var init := d[..|d| - 1];
      var last := d[|d| - 1];
      assert DistinctValues(init);
      InvertAgreesWithKeyOf(init, v);
      if v != last.1 {
        assert KeyOf(d, v) == KeyOf(init, v) by {
          KeyOfPrefix(d, v);
        }
      }
    }
  }

  /** A search that misses the last item finds what it finds in the rest. */
  lemma {:induction false} KeyOfPrefix<K, V>(d: Dict<K, V>, v: V)
    requires d != [] && d[|d| - 1].1 != v
    ensures KeyOf(d, v) == KeyOf(d[..|d| - 1], v)
  {
    var init := d[..|d| - 1];
    if |d| == 1 {
      assert KeyOf(d, v) == KeyOf(d[1..], v) && d[1..] == [] && init == [];
    } else if d[0].1 == v {
      assert KeyOf(d, v) == Some(d[0].0) && init[0] == d[0];
    } else {
      assert KeyOf(d, v) == KeyOf(d[1..], v);
      assert init[0] == d[0] && init[1..] == d[1..][..|d[1..]| - 1];
      assert KeyOf(init, v) == KeyOf(init[1..], v);
      KeyOfPrefix(d[1..], v);
    }
  }

  /** `dict(pairs)` built from a list of pairs: later pairs overwrite earlier ones. */
  function FromPairs<K(==,!new), V>(ps: seq<(K, V)>): (r: Dict<K, V>)
    ensures DistinctKeys(r)
    ensures DistinctKeys(ps) ==> r == ps
  {
    if ps == [] then []
    else
      var init := ps[..|ps| - 1];
      var last := ps[|ps| - 1];
      var r0 := FromPairs(init);
      var r := Put(r0, last.0, last.1);
      assert DistinctKeys(ps) ==> r == ps by {
        if DistinctKeys(ps) {
          assert DistinctKeys(init);
          assert r0 == init;
          assert init + [last] == ps;
        }
      }
      r
  }
}
