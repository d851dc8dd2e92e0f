/** Python's `sorted(items, key=weight)` and `sorted(items, key=weight, reverse=True)` on the
    weighted items of the Huffman builders.

    Python's sort is stable, and `reverse=True` keeps it stable: items of equal weight stay in
    their original order in both directions. Each direction is modelled as an insertion sort that
    places every item behind the earlier items it does not have to precede; its result is
    characterised by three facts proved below (ordered, a permutation, equal weights in original
    order), and those three determine the output of a stable sort uniquely. */
module StableSort {
  import opened Forests

  predicate Ascending(s: seq<Item>) {
    forall i, j :: 0 <= i < j < |s| ==> s[i].weight <= s[j].weight
  }

  predicate Descending(s: seq<Item>) {
    forall i, j :: 0 <= i < j < |s| ==> s[i].weight >= s[j].weight
  }

  /** The items of weight `w`, in their order in `s`. */
  function WithWeight(s: seq<Item>, w: int): (r: seq<Item>)
    ensures |r| <= |s|
  {
    if s == [] then []
    else WithWeight(s[..|s| - 1], w) + (if s[|s| - 1].weight == w then [s[|s| - 1]] else [])
  }

  lemma {:induction false} WithWeightSnoc(s: seq<Item>, x: Item, w: int)
    ensures WithWeight(s + [x], w) == WithWeight(s, w) + (if x.weight == w then [x] else [])
  {
    assert (s + [x])[..|s|] == s;
  }

  lemma {:induction false} WithWeightConcat(a: seq<Item>, b: seq<Item>, w: int)
    ensures WithWeight(a + b, w) == WithWeight(a, w) + WithWeight(b, w)
    decreases |b|
  {
    if b == [] {
      assert a + b == a;
    } else {
      assert (a + b)[..|a + b| - 1] == a + b[..|b| - 1];
      WithWeightConcat(a, b[..|b| - 1], w);
    }
  }

  /** Puts `x` behind the last item of `s` whose weight is at most `x.weight`. */
  function Insert(x: Item, s: seq<Item>): (r: seq<Item>)
    ensures |r| == |s| + 1 && multiset(r) == multiset(s) + multiset{x}
    ensures Ascending(s) ==> Ascending(r)
    ensures forall w :: WithWeight(r, w) == WithWeight(s, w) + (if x.weight == w then [x] else [])
  {
    if s == [] then
      assert forall w :: WithWeight([x], w) == WithWeight([], w) + (if x.weight == w then [x] else []) by {
        forall w { WithWeightSnoc([], x, w); }
      }
      [x]
    else if s[|s| - 1].weight <= x.weight then
      assert forall w :: WithWeight(s + [x], w) == WithWeight(s, w) + (if x.weight == w then [x] else []) by {
        forall w { WithWeightSnoc(s, x, w); }
      }
      s + [x]
    else
      var init, last := s[..|s| - 1], s[|s| - 1];
      var pre := Insert(x, init);
      assert s == init + [last];
      InsertOrder(x, init, last, pre);
      InsertKeeps(x, init, last, pre);
      pre + [last]
  }

  /** Moving `x` in front of a heavier last item keeps the sequence ascending. */
  lemma InsertOrder(x: Item, init: seq<Item>, last: Item, pre: seq<Item>)
    requires x.weight < last.weight
    requires multiset(pre) == multiset(init) + multiset{x}
    requires Ascending(init + [last]) ==> Ascending(pre)
    ensures Ascending(init + [last]) ==> Ascending(pre + [last])
  {
    var s := init + [last];
    if Ascending(s) {
      forall i | 0 <= i < |pre| ensures pre[i].weight <= last.weight {
        assert pre[i] in multiset(pre);
        if pre[i] != x {
          assert pre[i] in multiset(init);
          var m :| 0 <= m < |init| && init[m] == pre[i];
          assert s[m] == init[m] && s[|s| - 1] == last;
        }
      }
    }
  }

  /** Moving `x` in front of a heavier last item keeps every weight class in order. */
  lemma InsertKeeps(x: Item, init: seq<Item>, last: Item, pre: seq<Item>)
    requires x.weight < last.weight
    requires forall w :: WithWeight(pre, w) == WithWeight(init, w) + (if x.weight == w then [x] else [])
    ensures forall w :: WithWeight(pre + [last], w) ==
                        WithWeight(init + [last], w) + (if x.weight == w then [x] else [])
  {
    forall w
      ensures WithWeight(pre + [last], w) == WithWeight(init + [last], w) + (if x.weight == w then [x] else [])
    {
      WithWeightSnoc(pre, last, w);
      WithWeightSnoc(init, last, w);
      if x.weight != w {
        assert WithWeight(pre, w) == WithWeight(init, w);
      } else {
        assert last.weight != w;
      }
    }
  }

  /** `sorted(s, key=weight)` */
  function SortAscending(s: seq<Item>): (r: seq<Item>)
    ensures |r| == |s| && multiset(r) == multiset(s)
    ensures Ascending(r)
    ensures forall w :: WithWeight(r, w) == WithWeight(s, w)
  {
    if s == [] then []
    else
      var init, last := s[..|s| - 1], s[|s| - 1];
      assert s == init + [last];
      assert forall w :: WithWeight(s, w) == WithWeight(init, w) + (if last.weight == w then [last] else []);
      Insert(last, SortAscending(init))
  }

  /** Puts `x` behind the last item of `s` whose weight is at least `x.weight`. */
  function InsertDesc(x: Item, s: seq<Item>): (r: seq<Item>)
    ensures |r| == |s| + 1 && multiset(r) == multiset(s) + multiset{x}
    ensures Descending(s) ==> Descending(r)
    ensures forall w :: WithWeight(r, w) == WithWeight(s, w) + (if x.weight == w then [x] else [])
  {
    if s == [] then
      assert forall w :: WithWeight([x], w) == WithWeight([], w) + (if x.weight == w then [x] else []) by {
        forall w { WithWeightSnoc([], x, w); }
      }
      [x]
    else if s[|s| - 1].weight >= x.weight then
      assert forall w :: WithWeight(s + [x], w) == WithWeight(s, w) + (if x.weight == w then [x] else []) by {
        forall w { WithWeightSnoc(s, x, w); }
      }
      s + [x]
    else
      var init, last := s[..|s| - 1], s[|s| - 1];
      var pre := InsertDesc(x, init);
      assert s == init + [last];
      InsertDescOrder(x, init, last, pre);
      InsertDescKeeps(x, init, last, pre);
      pre + [last]
  }

  lemma InsertDescOrder(x: Item, init: seq<Item>, last: Item, pre: seq<Item>)
    requires x.weight > last.weight
    requires multiset(pre) == multiset(init) + multiset{x}
    requires Descending(init + [last]) ==> Descending(pre)
    ensures Descending(init + [last]) ==> Descending(pre + [last])
  {
    var s := init + [last];
    if Descending(s) {
      forall i | 0 <= i < |pre| ensures pre[i].weight >= last.weight {
        assert pre[i] in multiset(pre);
        if pre[i] != x {
          assert pre[i] in multiset(init);
          var m :| 0 <= m < |init| && init[m] == pre[i];
          assert s[m] == init[m] && s[|s| - 1] == last;
        }
      }
    }
  }

  lemma InsertDescKeeps(x: Item, init: seq<Item>, last: Item, pre: seq<Item>)
    requires x.weight > last.weight
    requires forall w :: WithWeight(pre, w) == WithWeight(init, w) + (if x.weight == w then [x] else [])
    ensures forall w :: WithWeight(pre + [last], w) ==
                        WithWeight(init + [last], w) + (if x.weight == w then [x] else [])
  {
    forall w
      ensures WithWeight(pre + [last], w) == WithWeight(init + [last], w) + (if x.weight == w then [x] else [])
    {
      WithWeightSnoc(pre, last, w);
      WithWeightSnoc(init, last, w);
      if x.weight != w {
        assert WithWeight(pre, w) == WithWeight(init, w);
      } else {
        assert last.weight != w;
      }
    }
  }

  /** `sorted(s, key=weight, reverse=True)` */
  function SortDescending(s: seq<Item>): (r: seq<Item>)
    ensures |r| == |s| && multiset(r) == multiset(s)
    ensures Descending(r)
    ensures forall w :: WithWeight(r, w) == WithWeight(s, w)
  {
    if s == [] then []
    else
      var init, last := s[..|s| - 1], s[|s| - 1];
      assert s == init + [last];
      assert forall w :: WithWeight(s, w) == WithWeight(init, w) + (if last.weight == w then [last] else []);
      InsertDesc(last, SortDescending(init))
  }
}
