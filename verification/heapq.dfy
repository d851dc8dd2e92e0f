/** Python's `heapq` module on a list: `heapify`, `heappush`, `heappop` and their two helpers
    `_siftdown` and `_siftup`, step for step, over a sequence and the only comparison heapq
    ever makes, `a < b` (here the parameter `lt`).

    Which items the Huffman coders pop first, and so which tree they build, depends on these
    exact steps (heapq's `_siftup` walks the hole down to a leaf before it compares with the
    new item), so they are kept as written rather than replaced by any priority queue. */
module Heapq {

  /** `a < b` is a strict weak order: asymmetric, and "not less than" is transitive. Python's
      `<` on numbers, and the orders built from it in the coders, are of this kind. */
  ghost predicate StrictWeakOrder<T(!new)>(lt: (T, T) -> bool) {
    (forall x, y :: lt(x, y) ==> !lt(y, x)) &&
    (forall x, y, z :: !lt(x, y) && !lt(y, z) ==> !lt(x, z))
  }

  /** The child at `c` is not less than its parent. */
  ghost predicate EdgeOk<T(!new)>(h: seq<T>, lt: (T, T) -> bool, c: nat)
    requires 0 < c < |h|
  {
    !lt(h[c], h[(c - 1) / 2])
  }

  /** Every child whose parent is at `start` or beyond is not less than that parent. */
  ghost predicate HeapFrom<T(!new)>(h: seq<T>, lt: (T, T) -> bool, start: nat) {
    forall c :: 0 < c < |h| && (c - 1) / 2 >= start ==> EdgeOk(h, lt, c)
  }

  /** heapq's invariant: `heap[k] <= heap[2*k+1]` and `heap[k] <= heap[2*k+2]`. */
  ghost predicate IsHeap<T(!new)>(h: seq<T>, lt: (T, T) -> bool) {
    HeapFrom(h, lt, 0)
  }

  /** `i` lies in the subtree rooted at `s`. */
  ghost predicate InSubtree(i: nat, s: nat)
    decreases i
  {
    i == s || (i > s && InSubtree((i - 1) / 2, s))
  }

  lemma {:induction false} InRootSubtree(i: nat)
    ensures InSubtree(i, 0)
  {
    if i > 0 {
      InRootSubtree((i - 1) / 2);
    }
  }

  /** In a heap nothing is less than the root: `heap[0]` is a smallest item. */
  lemma {:induction false} RootIsMinimal<T(!new)>(h: seq<T>, lt: (T, T) -> bool, i: nat)
    requires StrictWeakOrder(lt) && IsHeap(h, lt) && i < |h|
    ensures !lt(h[i], h[0])
  {
    if i > 0 {
      RootIsMinimal(h, lt, (i - 1) / 2);
      assert EdgeOk(h, lt, i);
    }
  }

  /** Moving the item at `q` into the hole at `p` and lifting the moving item out at `q`
      instead keeps the multiset of the list with the moving item put back. */
  lemma MoveKeepsMultiset<T>(a: seq<T>, p: nat, q: nat, x: T)
    requires p < |a| && q < |a| && p != q
    ensures multiset(a[p := a[q]][q := x]) == multiset(a[p := x])
  {
    var b := a[p := a[q]];
    assert b[q] == a[q];
    assert multiset(b) == multiset(a) - multiset{a[p]} + multiset{a[q]};
    assert multiset(b[q := x]) == multiset(b) - multiset{a[q]} + multiset{x};
    assert multiset(a[p := x]) == multiset(a) - multiset{a[p]} + multiset{x};
  }

  /** State of `_siftdown` with the moving item `newitem` lifted out of the hole at `p`: every
      edge away from the hole is in order, the hole's children are not less than `newitem`,
      and they are not less than the hole's parent either. */
  ghost predicate DownInv<T(!new)>(a: seq<T>, lt: (T, T) -> bool, start: nat, p: nat, newitem: T) {
    p < |a| && InSubtree(p, start) &&
    (forall c :: 0 < c < |a| && (c - 1) / 2 >= start && c != p && (c - 1) / 2 != p ==> EdgeOk(a, lt, c)) &&
    (forall c :: 0 < c < |a| && (c - 1) / 2 == p ==> !lt(a[c], newitem)) &&
    (p > start ==> forall c :: 0 < c < |a| && (c - 1) / 2 == p ==> !lt(a[c], a[(p - 1) / 2]))
  }

  /** Moving the parent down into the hole, when `newitem` is less than it, keeps `DownInv`. */
  lemma DownStep<T(!new)>(a: seq<T>, lt: (T, T) -> bool, start: nat, p: nat, newitem: T)
    requires StrictWeakOrder(lt) && DownInv(a, lt, start, p, newitem)
    requires p > start && lt(newitem, a[(p - 1) / 2])
    ensures DownInv(a[p := a[(p - 1) / 2]], lt, start, (p - 1) / 2, newitem)
  {
    var pp := (p - 1) / 2;
    var b := a[p := a[pp]];
    assert InSubtree(pp, start);
    forall c | 0 < c < |b| && (c - 1) / 2 >= start && c != pp && (c - 1) / 2 != pp
      ensures EdgeOk(b, lt, c)
    {
      if (c - 1) / 2 == p {
        assert !lt(a[c], a[pp]);
      } else {
        assert EdgeOk(a, lt, c);
      }
    }
    forall c | 0 < c < |b| && (c - 1) / 2 == pp
      ensures !lt(b[c], newitem)
    {
      if c != p {
        assert EdgeOk(a, lt, c);
      }
    }
    if pp > start {
      var gp := (pp - 1) / 2;
      assert InSubtree(gp, start);
      assert EdgeOk(a, lt, pp);
      forall c | 0 < c < |b| && (c - 1) / 2 == pp
        ensures !lt(b[c], b[gp])
      {
        if c != p {
          assert EdgeOk(a, lt, c);
        }
      }
    }
  }

  /** Putting `newitem` into the hole once it is not less than its parent gives a heap below
      `start`. */
  lemma DownDone<T(!new)>(a: seq<T>, lt: (T, T) -> bool, start: nat, p: nat, newitem: T)
    requires DownInv(a, lt, start, p, newitem)
    requires p > start ==> !lt(newitem, a[(p - 1) / 2])
    ensures HeapFrom(a[p := newitem], lt, start)
  {
    var f := a[p := newitem];
    forall c | 0 < c < |f| && (c - 1) / 2 >= start
      ensures EdgeOk(f, lt, c)
    {
      if c != p && (c - 1) / 2 != p {
        assert EdgeOk(a, lt, c);
      }
    }
  }

  /** `_siftdown(heap, startpos, pos)`: the item at `pos` moves towards `startpos` while it is
      less than its parent, each parent it passes moving down one level. */
  method SiftDown<T(!new)>(h: seq<T>, lt: (T, T) -> bool, start: nat, pos: nat) returns (r: seq<T>)
    requires StrictWeakOrder(lt)
    requires pos < |h| && InSubtree(pos, start)
    requires forall c :: 0 < c < |h| && (c - 1) / 2 >= start && c != pos ==> EdgeOk(h, lt, c)
    requires pos > start ==> forall c :: 0 < c < |h| && (c - 1) / 2 == pos ==> !lt(h[c], h[(pos - 1) / 2])
    ensures |r| == |h| && multiset(r) == multiset(h)
    ensures HeapFrom(r, lt, start)
    ensures forall i :: 0 <= i < start ==> r[i] == h[i]
  {
    var a := h;
    var p: nat := pos;
    var newitem := h[pos];
    forall c | 0 < c < |a| && (c - 1) / 2 == p
      ensures !lt(a[c], newitem)
    {
      assert EdgeOk(h, lt, c);
    }
    while p > start
      invariant |a| == |h| && DownInv(a, lt, start, p, newitem)
      invariant multiset(a[p := newitem]) == multiset(h)
      invariant forall i :: 0 <= i < start ==> a[i] == h[i]
    {
      var parentpos := (p - 1) / 2;
      var parent := a[parentpos];
      if lt(newitem, parent) {
        DownStep(a, lt, start, p, newitem);
        MoveKeepsMultiset(a, p, parentpos, newitem);
        a := a[p := parent];
        p := parentpos;
      } else {
        break;
      }
    }
    DownDone(a, lt, start, p, newitem);
    r := a[p := newitem];
  }

  /** State of `_siftup`'s descent: every edge below `start` is in order, except those from
      `start` itself while the hole is still there. */
  ghost predicate UpInv<T(!new)>(a: seq<T>, lt: (T, T) -> bool, start: nat, p: nat) {
    p < |a| && InSubtree(p, start) &&
    forall c :: 0 < c < |a| && (c - 1) / 2 >= start && (p != start || (c - 1) / 2 != start) ==> EdgeOk(a, lt, c)
  }

  /** Moving the smaller child `ch` of the hole up keeps `UpInv`, with the hole now at `ch`. */
  lemma UpStep<T(!new)>(a: seq<T>, lt: (T, T) -> bool, start: nat, p: nat, ch: nat)
    requires StrictWeakOrder(lt) && UpInv(a, lt, start, p)
    requires 0 < ch < |a| && (ch - 1) / 2 == p
    requires forall c :: 0 < c < |a| && (c - 1) / 2 == p ==> !lt(a[c], a[ch])
    ensures UpInv(a[p := a[ch]], lt, start, ch)
  {
    var b := a[p := a[ch]];
    assert InSubtree(ch, start);
    forall c | 0 < c < |b| && (c - 1) / 2 >= start
      ensures EdgeOk(b, lt, c)
    {
      if c == p {
        assert EdgeOk(a, lt, p);
        assert EdgeOk(a, lt, ch);
      } else if (c - 1) / 2 != p {
        assert EdgeOk(a, lt, c);
      }
    }
  }

  /** `_siftup(heap, pos)`: the smaller child moves up into the hole until the hole reaches a
      leaf; the original item is put there and sifted back towards `pos`. */
  method SiftUp<T(!new)>(h: seq<T>, lt: (T, T) -> bool, pos: nat) returns (r: seq<T>)
    requires StrictWeakOrder(lt)
    requires pos < |h| && HeapFrom(h, lt, pos + 1)
    ensures |r| == |h| && multiset(r) == multiset(h)
    ensures HeapFrom(r, lt, pos)
    ensures forall i :: 0 <= i < pos ==> r[i] == h[i]
  {
    var endpos := |h|;
    var startpos := pos;
    var a := h;
    var p: nat := pos;
    var newitem := h[pos];
    var childpos := 2 * p + 1;
    while childpos < endpos
      invariant startpos <= p && endpos == |a| && childpos == 2 * p + 1 && UpInv(a, lt, startpos, p)
      invariant multiset(a[p := newitem]) == multiset(h)
      invariant forall i :: 0 <= i < startpos ==> a[i] == h[i]
      decreases endpos - p
    {
      var rightpos := childpos + 1;
      if rightpos < endpos && !lt(a[childpos], a[rightpos]) {
        childpos := rightpos;
      }
      UpStep(a, lt, startpos, p, childpos);
      MoveKeepsMultiset(a, p, childpos, newitem);
      a := a[p := a[childpos]];
      p := childpos;
      childpos := 2 * p + 1;
    }
    var b := a[p := newitem];
    LeafHole(a, lt, startpos, p, b);
    r := SiftDown(b, lt, startpos, p);
  }

  /** Once the hole is a leaf, putting any item into it breaks no edge below `start` except
      the hole's own. */
  lemma LeafHole<T(!new)>(a: seq<T>, lt: (T, T) -> bool, start: nat, p: nat, b: seq<T>)
    requires UpInv(a, lt, start, p) && 2 * p + 1 >= |a| && |b| == |a| && b == a[p := b[p]]
    ensures forall c :: 0 < c < |b| && (c - 1) / 2 >= start && c != p ==> EdgeOk(b, lt, c)
  {
    forall c | 0 < c < |b| && (c - 1) / 2 >= start && c != p
      ensures EdgeOk(b, lt, c)
    {
      assert EdgeOk(a, lt, c);
    }
  }

  /** `heapify(x)`: `_siftup` on every inner position, from the last one back to the root. */
  method Heapify<T(!new)>(h: seq<T>, lt: (T, T) -> bool) returns (r: seq<T>)
    requires StrictWeakOrder(lt)
    ensures |r| == |h| && multiset(r) == multiset(h)
    ensures IsHeap(r, lt)
  {
    r := h;
    var i := |h| / 2;
    while i > 0
      invariant 0 <= i <= |h| / 2
      invariant |r| == |h| && multiset(r) == multiset(h)
      invariant HeapFrom(r, lt, i)
    {
      i := i - 1;
      r := SiftUp(r, lt, i);
    }
  }

  /** `heappush(heap, item)`: append, then `_siftdown` from the new last position. */
  method HeapPush<T(!new)>(h: seq<T>, lt: (T, T) -> bool, item: T) returns (r: seq<T>)
    requires StrictWeakOrder(lt) && IsHeap(h, lt)
    ensures |r| == |h| + 1 && multiset(r) == multiset(h) + multiset{item}
    ensures IsHeap(r, lt)
  {
    var a := h + [item];
    InRootSubtree(|a| - 1);
    forall c | 0 < c < |a| && c != |a| - 1
      ensures EdgeOk(a, lt, c)
    {
      assert EdgeOk(h, lt, c);
    }
    r := SiftDown(a, lt, 0, |a| - 1);
  }

  /** `heappop(heap)`: remove the last item; if items remain, return the root and sift the
      removed item up from the root, otherwise return the removed item. What comes back is a
      smallest item. */
  method HeapPop<T(!new)>(h: seq<T>, lt: (T, T) -> bool) returns (item: T, r: seq<T>)
    requires StrictWeakOrder(lt) && IsHeap(h, lt) && |h| > 0
    ensures item == h[0]
    ensures forall i :: 0 <= i < |h| ==> !lt(h[i], item)
    ensures |r| == |h| - 1 && multiset(h) == multiset(r) + multiset{item}
    ensures IsHeap(r, lt)
  {
    var lastelt := h[|h| - 1];
    var rest := h[..|h| - 1];
    assert h == rest + [lastelt];
    if |rest| > 0 {
      item := rest[0];
      rest := rest[0 := lastelt];
      forall c | 0 < c < |rest| && (c - 1) / 2 >= 1
        ensures EdgeOk(rest, lt, c)
      {
        assert EdgeOk(h, lt, c);
      }
      r := SiftUp(rest, lt, 0);
    } else {
      item := lastelt;
      r := rest;
    }
    forall i | 0 <= i < |h|
      ensures !lt(h[i], item)
    {
      RootIsMinimal(h, lt, i);
    }
  }
}
