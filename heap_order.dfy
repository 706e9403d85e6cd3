/** The ordering side of the timer heap. A binary heap stored in a vector
    puts the parent of slot c (c > 0) at slot (c - 1) / 2; the heap property
    asks every parent to expire no later than each of its children. The sift
    loops of the engine break that property at one slot and repair it one
    swap at a time; the predicates below say exactly how far it is broken at
    each step, and the lemmas are the single steps. Every predicate is about
    a whole sequence: the engine applies them to the prefix of the vector
    that forms the heap proper. */
module HeapOrder {
  import opened TimerNode

  /** Slot of the parent of slot c. */
  function Parent(c: nat): (p: nat)
    requires 0 < c
    ensures p < c
    ensures 2 * p + 1 <= c <= 2 * p + 2
  {
    (c - 1) / 2
  }

  /** Every parent expires no later than each of its children. */
  ghost predicate Ordered(h: seq<Node>)
  {
    forall c :: 0 < c < |h| ==> h[Parent(c)].expire <= h[c].expire
  }

  /** h with the entries at slots a and b exchanged (`std::swap`). */
  function Swap(h: seq<Node>, a: nat, b: nat): (r: seq<Node>)
    requires a < |h| && b < |h|
    ensures |r| == |h| && r[a] == h[b] && r[b] == h[a]
    ensures forall j :: 0 <= j < |h| && j != a && j != b ==> r[j] == h[j]
  {
    h[a := h[b]][b := h[a]]
  }

  /** Sift-up state at slot p: the only edge that may be out of order is the
      one from p to its parent, and p's parent is no later than p's children,
      so that moving the parent down to p keeps p's subtree ordered. */
  ghost predicate SiftUpReady(h: seq<Node>, p: nat)
  {
    && p < |h|
    && (forall c :: 0 < c < |h| && c != p ==> h[Parent(c)].expire <= h[c].expire)
    && (0 < p ==> forall c :: 0 < c < |h| && Parent(c) == p ==> h[Parent(p)].expire <= h[c].expire)
  }

  /** Sift-down state for an element that started at slot pos and now sits at
      slot i: every edge not touching i is in order, i's parent is no later
      than i's children, and once the element has moved down the edge from
      its parent is in order as well. */
  ghost predicate SiftDownReady(h: seq<Node>, pos: nat, i: nat)
  {
    && pos <= i < |h|
    && (forall c :: 0 < c < |h| && c != i && Parent(c) != i ==> h[Parent(c)].expire <= h[c].expire)
    && (0 < i ==> forall c :: 0 < c < |h| && Parent(c) == i ==> h[Parent(i)].expire <= h[c].expire)
    && (pos < i ==> h[Parent(i)].expire <= h[i].expire)
  }

  /** In an ordered heap the root expires no later than any slot. */
  lemma {:induction false} RootIsMinimum(h: seq<Node>, i: nat)
    requires Ordered(h) && i < |h|
    ensures h[0].expire <= h[i].expire
    decreases i
  {
    if 0 < i {
      RootIsMinimum(h, Parent(i));
    }
  }

  /** A prefix of an ordered heap is an ordered heap. */
  lemma PrefixOrdered(h: seq<Node>, n: nat)
    requires Ordered(h) && n <= |h|
    ensures Ordered(h[..n])
  {
  }

  /** Appending a node to an ordered heap leaves a sift-up state at the new
      last slot. */
  lemma PushReady(h: seq<Node>, e: Node)
    requires Ordered(h)
    ensures SiftUpReady(h + [e], |h|)
  {
    var h' := h + [e];
    forall c | 0 < c < |h'| && c != |h|
      ensures h'[Parent(c)].expire <= h'[c].expire
    {
      assert h'[c] == h[c] && h'[Parent(c)] == h[Parent(c)];
    }
  }

  /** One sift-up swap: the element at p is earlier than its parent, so the
      two are exchanged and the sift-up state moves to the parent's slot. */
  lemma SiftUpStep(h: seq<Node>, p: nat)
    requires SiftUpReady(h, p) && 0 < p && h[p].expire < h[Parent(p)].expire
    ensures SiftUpReady(Swap(h, Parent(p), p), Parent(p))
  {
    var q := Parent(p);
    var h' := Swap(h, q, p);
    forall c | 0 < c < |h'| && c != q
      ensures h'[Parent(c)].expire <= h'[c].expire
    {
      if c == p {
      } else if Parent(c) == p {
      } else if Parent(c) == q {
        assert h[q].expire <= h[c].expire;
      } else {
        assert h'[c] == h[c] && h'[Parent(c)] == h[Parent(c)];
      }
    }
    if 0 < q {
      forall c | 0 < c < |h'| && Parent(c) == q
        ensures h'[Parent(q)].expire <= h'[c].expire
      {
        assert h[Parent(q)].expire <= h[q].expire;
        if c != p {
          assert h[q].expire <= h[c].expire;
        }
      }
    }
  }

  /** Sift-up stops at the root or where the parent is no later: the heap is
      then ordered. */
  lemma SiftUpDone(h: seq<Node>, p: nat)
    requires SiftUpReady(h, p) && (p == 0 || h[Parent(p)].expire <= h[p].expire)
    ensures Ordered(h)
  {
  }

  /** Overwriting slot i of an ordered heap with its last entry and cutting
      the last slot off leaves a sift-down state at i. */
  lemma RemoveReady(h: seq<Node>, i: nat)
    requires Ordered(h) && i < |h| - 1
    ensures SiftDownReady(h[..|h| - 1][i := h[|h| - 1]], i, i)
  {
    var h' := h[..|h| - 1][i := h[|h| - 1]];
    if 0 < i {
      forall c | 0 < c < |h'| && Parent(c) == i
        ensures h'[Parent(i)].expire <= h'[c].expire
      {
        assert h[Parent(i)].expire <= h[i].expire <= h[c].expire;
      }
    }
  }

  /** One sift-down swap: m is the earlier child of i and is earlier than the
      element at i, so the two are exchanged and the sift-down state moves to
      slot m. */
  lemma SiftDownStep(h: seq<Node>, pos: nat, i: nat, m: nat)
    requires SiftDownReady(h, pos, i)
    requires (m == 2 * i + 1 || m == 2 * i + 2) && m < |h|
    requires 2 * i + 1 < |h| ==> h[m].expire <= h[2 * i + 1].expire
    requires 2 * i + 2 < |h| ==> h[m].expire <= h[2 * i + 2].expire
    requires h[m].expire < h[i].expire
    ensures SiftDownReady(Swap(h, i, m), pos, m)
  {
    var h' := Swap(h, i, m);
    assert Parent(m) == i;
    forall c | 0 < c < |h'| && c != m && Parent(c) != m
      ensures h'[Parent(c)].expire <= h'[c].expire
    {
      var q := Parent(c);
      if c == i {
        assert h'[q] == h[q] && h'[c] == h[m];
      } else if q == i {
        assert h'[q] == h[m] && h'[c] == h[c];
      } else {
        assert h'[q] == h[q] && h'[c] == h[c];
      }
    }
    forall c | 0 < c < |h'| && Parent(c) == m
      ensures h'[Parent(m)].expire <= h'[c].expire
    {
      assert h'[c] == h[c] && h'[i] == h[m];
    }
    assert h'[Parent(m)].expire <= h'[m].expire;
  }

  /** Sift-down stops where the element has no child or no earlier child.
      If it moved, the heap is ordered; if it did not, only the edge to its
      parent may be out of order, which is a sift-up state. */
  lemma SiftDownDone(h: seq<Node>, pos: nat, i: nat)
    requires SiftDownReady(h, pos, i)
    requires 2 * i + 1 < |h| ==> h[i].expire <= h[2 * i + 1].expire
    requires 2 * i + 2 < |h| ==> h[i].expire <= h[2 * i + 2].expire
    ensures pos < i ==> Ordered(h)
    ensures pos == i ==> SiftUpReady(h, i)
  {
    forall c | 0 < c < |h| && c != i
      ensures h[Parent(c)].expire <= h[c].expire
    {
      if Parent(c) == i {
        assert c == 2 * i + 1 || c == 2 * i + 2;
      }
    }
  }
}
