/** The timer engine `MinHeapTimer`: a binary min-heap of timer nodes
    ordered by expiration time, in which every node records its own slot so
    that a timer can be cancelled by id without a search.

    The C++ engine keeps nodes on the free store, a vector `_heap` of node
    pointers and a `std::map` `_map` from id to node pointer. Here the vector
    holds the nodes themselves (`heap`), and the slot table `slot` maps the
    id of every node in `_map` to that node's `idx` field. The abstract view
    of the engine is the map from each live id to its Timer. */
module TimerEngine {
  import opened TimerNode
  import opened HeapOrder
  import opened Sweep

  /** The first n slots of h and the slot table agree: each of those slots
      holds a node whose recorded slot is that slot, and every id in the
      table records one of those slots and sits there. Slots from n on are
      outside the heap proper (the slot of a node being removed). */
  ghost predicate Linked(h: seq<Node>, slot: map<int, int>, n: nat)
  {
    && n <= |h|
    && (forall i :: 0 <= i < n ==> h[i].id in slot && slot[h[i].id] == i)
    && (forall x :: x in slot ==> 0 <= slot[x] < n && h[slot[x]].id == x)
  }

  /** The live timers, by id: each id in the slot table with the timer of
      the node in its slot. */
  ghost function View(h: seq<Node>, slot: map<int, int>): map<int, Timer>
  {
    map x | x in slot && 0 <= slot[x] < |h| :: AsTimer(h[slot[x]])
  }

  /** Whether the node in slot lhs expires strictly before the node in slot
      rhs (`_lessThan`). */
  function LessThan(h: seq<Node>, lhs: nat, rhs: nat): (r: bool)
    requires lhs < |h| && rhs < |h|
    ensures r ==> h[lhs].expire < h[rhs].expire
    ensures !r ==> h[rhs].expire <= h[lhs].expire
  {
    h[lhs].expire < h[rhs].expire
  }

  /** A linked heap's view has the table's ids, and each node of the heap
      proper is seen under its own id. */
  lemma LinkedView(h: seq<Node>, slot: map<int, int>, n: nat)
    requires Linked(h, slot, n)
    ensures View(h, slot).Keys == slot.Keys
    ensures forall i :: 0 <= i < n ==> View(h, slot)[h[i].id] == AsTimer(h[i])
  {
    forall x | x in slot
      ensures x in View(h, slot)
    {
      assert 0 <= slot[x] < |h|;
    }
  }

  /** Exchanging two slots of the heap proper and re-recording both nodes'
      slots keeps the heap linked over the same ids. */
  lemma SwapLinked(h: seq<Node>, slot: map<int, int>, n: nat, a: nat, b: nat)
    requires Linked(h, slot, n) && a < n && b < n && a != b
    ensures var h' := Swap(h, a, b);
            var slot' := slot[h'[a].id := a][h'[b].id := b];
            Linked(h', slot', n) && slot'.Keys == slot.Keys
  {
    var h' := Swap(h, a, b);
    var slot' := slot[h'[a].id := a][h'[b].id := b];
    assert h[a].id != h[b].id;
    forall x | x in slot'
      ensures 0 <= slot'[x] < n && h'[slot'[x]].id == x
    {
      if x != h[a].id && x != h[b].id {
        assert slot'[x] == slot[x];
      }
    }
  }

  /** The same exchange keeps every timer under its id. */
  lemma SwapView(h: seq<Node>, slot: map<int, int>, n: nat, a: nat, b: nat)
    requires Linked(h, slot, n) && a < n && b < n && a != b
    ensures var h' := Swap(h, a, b);
            View(h', slot[h'[a].id := a][h'[b].id := b]) == View(h, slot)
  {
    var h' := Swap(h, a, b);
    var slot' := slot[h'[a].id := a][h'[b].id := b];
    assert h[a].id != h[b].id;
    forall x | x in slot
      ensures x in View(h', slot') && View(h', slot')[x] == View(h, slot)[x]
    {
      if x != h[a].id && x != h[b].id {
        assert slot'[x] == slot[x];
      }
    }
    assert View(h', slot') == View(h, slot);
  }

  /** Exchanging two slots of a prefix commutes with taking the prefix. */
  lemma SwapPrefix(h: seq<Node>, n: nat, a: nat, b: nat)
    requires a < n && b < n && n <= |h|
    ensures Swap(h, a, b)[..n] == Swap(h[..n], a, b)
  {
  }

  /** Appending a node with a fresh id at the end of a linked heap and
      recording its slot keeps the heap linked and adds its timer. */
  lemma PushLinked(h: seq<Node>, slot: map<int, int>, node: Node)
    requires Linked(h, slot, |h|) && node.id !in slot
    ensures Linked(h + [node], slot[node.id := |h|], |h| + 1)
    ensures View(h + [node], slot[node.id := |h|]) == View(h, slot)[node.id := AsTimer(node)]
  {
    var h', slot' := h + [node], slot[node.id := |h|];
    forall x | x in slot'
      ensures 0 <= slot'[x] < |h'| && h'[slot'[x]].id == x
    {
      if x != node.id {
        assert slot'[x] == slot[x];
      }
    }
    assert Linked(h', slot', |h| + 1);
    forall x | x in slot
      ensures View(h', slot')[x] == View(h, slot)[x]
    {
      assert x != node.id && slot'[x] == slot[x];
    }
    assert View(h', slot') == View(h, slot)[node.id := AsTimer(node)];
  }

  /** Removing the id in slot i before the last (`_removeNode`): the node
      from the last slot takes slot i and records it, the removed node goes
      to the last slot, which is then outside the heap proper, and its id
      leaves the table. */
  lemma DetachLinked(h: seq<Node>, slot: map<int, int>, id: int)
    requires Linked(h, slot, |h|) && id in slot && slot[id] != |h| - 1
    ensures var i, last := slot[id], |h| - 1;
            var h' := Swap(h, i, last);
            var slot' := (slot - {id})[h'[i].id := i];
            && Linked(h', slot', last)
            && slot'.Keys == slot.Keys - {id}
            && View(h', slot') == View(h, slot) - {id}
            && h'[..last] == h[..last][i := h[last]]
  {
    var i, last := slot[id], |h| - 1;
    var h' := Swap(h, i, last);
    var slot' := (slot - {id})[h'[i].id := i];
    forall j | 0 <= j < last
      ensures h'[j].id in slot' && slot'[h'[j].id] == j
    {
      if j != i {
        assert h'[j] == h[j] && h[j].id != id;
      }
    }
    forall x | x in slot'
      ensures 0 <= slot'[x] < last && h'[slot'[x]].id == x
    {
      if x != h[last].id {
        assert slot'[x] == slot[x];
      }
    }
    assert Linked(h', slot', last);
    forall x | x in slot'
      ensures View(h', slot')[x] == View(h, slot)[x]
    {
      if x != h[last].id {
        assert slot'[x] == slot[x];
      }
    }
    assert View(h', slot') == View(h, slot) - {id};
    assert h'[..last] == h[..last][i := h[last]];
  }

  /** Removing the id in the last slot: its id leaves the table and the
      last slot is outside the heap proper. */
  lemma DetachLastLinked(h: seq<Node>, slot: map<int, int>, id: int)
    requires Linked(h, slot, |h|) && id in slot && slot[id] == |h| - 1
    ensures Linked(h, slot - {id}, |h| - 1)
    ensures View(h, slot - {id}) == View(h, slot) - {id}
  {
  }

  /** Cutting off the slots outside the heap proper (`pop_back`) keeps the
      heap linked and the view unchanged. */
  lemma TruncateLinked(h: seq<Node>, slot: map<int, int>, n: nat)
    requires Linked(h, slot, n)
    ensures Linked(h[..n], slot, n)
    ensures View(h[..n], slot) == View(h, slot)
  {
    forall x | x in slot
      ensures x in View(h[..n], slot) && x in View(h, slot)
      ensures View(h[..n], slot)[x] == View(h, slot)[x]
    {
      assert 0 <= slot[x] < n && h[..n][slot[x]] == h[slot[x]];
    }
    assert View(h[..n], slot) == View(h, slot);
  }

  /** In a linked, ordered heap the node at the root is a live timer that
      expires no later than any live timer. */
  lemma RootEarliest(h: seq<Node>, slot: map<int, int>)
    requires Linked(h, slot, |h|) && Ordered(h) && 0 < |h|
    ensures h[0].id in View(h, slot) && View(h, slot)[h[0].id] == AsTimer(h[0])
    ensures forall x :: x in View(h, slot) ==> h[0].expire <= View(h, slot)[x].expire
  {
    forall x | x in View(h, slot)
      ensures h[0].expire <= View(h, slot)[x].expire
    {
      RootIsMinimum(h, slot[x]);
    }
  }

  /** Sift-up (`_shiftUp`) from slot pos of the heap proper, the first n
      slots: swaps the node with its parent, re-recording both slots, while
      it expires strictly earlier. The slots from n on are not touched. */
  method SiftUp(h0: seq<Node>, s0: map<int, int>, pos: nat, ghost n: nat) returns (h: seq<Node>, s: map<int, int>)
    requires Linked(h0, s0, n) && SiftUpReady(h0[..n], pos)
    ensures |h| == |h0| && Linked(h, s, n) && s.Keys == s0.Keys && View(h, s) == View(h0, s0)
    ensures h[n..] == h0[n..]
    ensures Ordered(h[..n])
  {
    h, s := h0, s0;
    var p: nat := pos;
    while true
      invariant |h| == |h0| && Linked(h, s, n) && s.Keys == s0.Keys && View(h, s) == View(h0, s0)
      invariant h[n..] == h0[n..]
      invariant SiftUpReady(h[..n], p)
      decreases p
    {
      // C++ division truncates toward zero: (0 - 1) / 2 is 0, so the root
      // is its own parent.
      var parent: nat := if p == 0 then 0 else (p - 1) / 2;
      if parent == p || !LessThan(h, p, parent) {
        SiftUpDone(h[..n], p);
        break;
      }
      SiftUpStep(h[..n], p);
      SwapLinked(h, s, n, parent, p);
      SwapView(h, s, n, parent, p);
      SwapPrefix(h, n, parent, p);
      h := Swap(h, parent, p);
      s := s[h[parent].id := parent][h[p].id := p];
      p := parent;
    }
  }

  /** The state of a sift-down: the first last slots are linked, the node
      with id x that started at slot pos now sits at slot idx, and only its
      edges may be out of order. */
  ghost predicate DownState(h: seq<Node>, s: map<int, int>, last: nat, pos: nat, idx: nat, x: int)
  {
    && last < |h| && pos <= idx < last
    && Linked(h, s, last) && h[idx].id == x
    && SiftDownReady(h[..last], pos, idx)
  }

  /** One pass of the sift-down loop: compares the node at idx with its
      earlier child below last and either stops or swaps the two. The slot
      last and anything after it are never compared. */
  method SiftDownOnce(h0: seq<Node>, s0: map<int, int>, last: nat, ghost pos: nat, idx0: nat, ghost x: int)
    returns (h: seq<Node>, s: map<int, int>, idx: nat, stop: bool)
    requires DownState(h0, s0, last, pos, idx0, x)
    ensures |h| == |h0| && h[last] == h0[last] && s.Keys == s0.Keys && View(h, s) == View(h0, s0)
    ensures DownState(h, s, last, pos, idx, x)
    ensures stop ==> idx == idx0 && h == h0 && s == s0
    ensures stop ==> (pos < idx ==> Ordered(h[..last])) && (pos == idx ==> SiftUpReady(h[..last], idx))
    ensures !stop ==> idx0 < idx
  {
    h, s, idx := h0, s0, idx0;
    // The source also stops on a negative left index, which only an int
    // overflow could produce.
    var left := 2 * idx + 1;
    if left >= last {
      SiftDownDone(h[..last], pos, idx);
      return h, s, idx, true;
    }
    var min := left;
    var right := left + 1;
    if right < last && !LessThan(h, left, right) {
      min := right;
    }
    if !LessThan(h, min, idx) {
      SiftDownDone(h[..last], pos, idx);
      return h, s, idx, true;
    }
    SiftDownStep(h[..last], pos, idx, min);
    SwapLinked(h, s, last, idx, min);
    SwapView(h, s, last, idx, min);
    SwapPrefix(h, last, idx, min);
    h := Swap(h, idx, min);
    s := s[h[idx].id := idx][h[min].id := min];
    idx := min;
    stop := false;
  }

  /** Sift-down (`_shiftDown`) from slot pos over the slots before last =
      |h0| - 1; the last slot holds the node being removed and is neither
      compared nor moved. Returns whether the node ended below pos: if it
      did the heap proper is ordered, and if it did not only the edge to its
      parent may be out of order. */
  method SiftDown(h0: seq<Node>, s0: map<int, int>, pos: nat, last: nat) returns (h: seq<Node>, s: map<int, int>, moved: bool)
    requires last == |h0| - 1 && pos < last
    requires Linked(h0, s0, last) && SiftDownReady(h0[..last], pos, pos)
    ensures |h| == |h0| && h[last] == h0[last]
    ensures Linked(h, s, last) && s.Keys == s0.Keys && View(h, s) == View(h0, s0)
    ensures moved <==> pos < s[h0[pos].id]
    ensures moved ==> Ordered(h[..last])
    ensures !moved ==> h == h0 && s == s0 && SiftUpReady(h[..last], pos)
  {
    h, s := h0, s0;
    var idx := pos;
    ghost var x := h[pos].id;
    while true
      invariant |h| == |h0| && h[last] == h0[last] && s.Keys == s0.Keys && View(h, s) == View(h0, s0)
      invariant DownState(h, s, last, pos, idx, x)
      invariant idx == pos ==> h == h0 && s == s0
      decreases last - idx
    {
      var stop;
      h, s, idx, stop := SiftDownOnce(h, s, last, pos, idx, x);
      if stop {
        break;
      }
    }
    moved := idx > pos;
  }

  /** Appends a node with a fresh id, records its slot and sifts it up:
      the push and the sift-up of `_addTimer`. */
  method Push(h0: seq<Node>, s0: map<int, int>, node: Node) returns (h: seq<Node>, s: map<int, int>)
    requires Linked(h0, s0, |h0|) && Ordered(h0) && node.id !in s0
    ensures |h| == |h0| + 1 && Linked(h, s, |h|) && Ordered(h)
    ensures s.Keys == s0.Keys + {node.id}
    ensures View(h, s) == View(h0, s0)[node.id := AsTimer(node)]
  {
    var n := |h0|;
    PushLinked(h0, s0, node);
    PushReady(h0, node);
    h, s := h0 + [node], s0[node.id := n];
    assert h[..n + 1] == h;
    h, s := SiftUp(h, s, n, n + 1);
    assert h[..n + 1] == h;
  }

  class MinHeapTimer {
    /** The nodes in heap order (`_heap`). */
    var heap: seq<Node>
    /** The `idx` field of each node in `_map`, by id; its key set is the
        key set of `_map`. */
    var slot: map<int, int>
    /** The id counter (`_count`): the last id handed out. */
    var count: nat

    /** The heap and the slot table are linked, the heap is ordered by
        expiration, and every live id is one the counter has already handed
        out. */
    ghost predicate Valid()
      reads this
    {
      && Linked(heap, slot, |heap|)
      && Ordered(heap)
      && (forall x :: x in slot ==> 0 < x <= count)
    }

    /** The live timers, by id. */
    ghost function Timers(): map<int, Timer>
      reads this
    {
      View(heap, slot)
    }

    constructor ()
      ensures Valid() && heap == [] && Timers() == map[] && count == 0
    {
      heap := [];
      slot := map[];
      count := 0;
    }

    /** Hands out the next id: the counter is pre-incremented, so the first
        id is 1. */
    method Count() returns (id: int)
      modifies this`count
      ensures count == old(count) + 1 && id == count
    {
      count := count + 1;
      id := count;
    }

    /** Schedules a timer at clock reading now (`AddTimer`, `_addTimer`):
        it expires at now + timingMs under a fresh id, larger than every id
        handed out before; every other timer is unchanged. */
    method AddTimer(now: nat, timingMs: nat, isLoop: bool) returns (id: int)
      requires Valid()
      modifies this`heap, this`slot, this`count
      ensures Valid()
      ensures id == old(count) + 1 && count == id
      ensures forall x :: x in old(Timers()) ==> x < id
      ensures Timers() == old(Timers())[id := Timer(now + timingMs, timingMs, isLoop)]
      ensures |heap| == old(|heap|) + 1
    {
      id := Count();
      LinkedView(heap, slot, |heap|);
      heap, slot := Push(heap, slot, Node(id, now + timingMs, timingMs, isLoop));
    }

    /** Takes the timer with the given id out of the heap and the table
        (`_removeNode`): the last slot's node fills its slot and is sifted
        down over the slots before the last, or up if it did not move; then
        the last slot is dropped. The removed node's table entry is dropped
        before the sifts, which never read it. */
    method RemoveNode(id: int)
      requires Valid() && id in slot
      modifies this`heap, this`slot
      ensures Valid()
      ensures |heap| == old(|heap|) - 1
      ensures Timers() == old(Timers()) - {id}
    {
      var h, s := heap, slot;
      var last := |h| - 1;
      var idx := s[id];
      if idx != last {
        DetachLinked(h, s, id);
        RemoveReady(h, idx);
        h := Swap(h, idx, last);
        s := (s - {id})[h[idx].id := idx];
        var moved;
        h, s, moved := SiftDown(h, s, idx, last);
        if !moved {
          h, s := SiftUp(h, s, idx, last);
        }
      } else {
        DetachLastLinked(h, s, id);
        PrefixOrdered(h, last);
        s := s - {id};
      }
      TruncateLinked(h, s, last);
      heap, slot := h[..last], s;
    }

    /** Removes a timer and releases its node (`_delNode`). */
    method DelNode(id: int)
      requires Valid() && id in slot
      modifies this`heap, this`slot
      ensures Valid()
      ensures |heap| == old(|heap|) - 1
      ensures Timers() == old(Timers()) - {id}
    {
      RemoveNode(id);
    }

    /** Cancels a timer (`DelTimer`): false, and nothing changes, when no
        live timer has that id; otherwise the timer is gone and the others
        are untouched. */
    method DelTimer(id: int) returns (ok: bool)
      requires Valid()
      modifies this`heap, this`slot
      ensures Valid()
      ensures ok <==> id in old(Timers())
      ensures Timers() == old(Timers()) - {id}
      ensures !ok ==> heap == old(heap) && slot == old(slot)
    {
      LinkedView(heap, slot, |heap|);
      if id !in slot {
        return false;
      }
      DelNode(id);
      return true;
    }

    /** Hands over the earliest timer, which is due at now, and disposes of
        it (the body of the sweep loop in `ExpireTimer`): a one-shot timer
        is deleted; a repeating one is taken out and scheduled again at the
        clock reading rearmAt, for its own interval, under the next id. In
        terms of the sweep that began with the timers t0 and the counter c0
        and has fired fs so far, the firing extends fs by that timer and
        leaves fewer timers due. */
    method FireEarliest(now: nat, rearmAt: nat, ghost t0: map<int, Timer>, ghost c0: int, ghost fs: seq<Node>)
      returns (node: Node)
      requires Valid() && 0 < |heap| && heap[0].expire <= now
      requires SweepPre(t0, c0, now, rearmAt) && SweepState(t0, c0, now, rearmAt, fs, Timers())
      requires count == c0 + Loops(fs)
      modifies this`heap, this`slot, this`count
      ensures node == old(heap[0])
      ensures Valid() && count == c0 + Loops(fs + [node])
      ensures SweepState(t0, c0, now, rearmAt, fs + [node], Timers())
      ensures Due(Timers(), now) < Due(old(Timers()), now)
    {
      node := heap[0];
      ghost var t := Timers();
      ghost var c := count;
      assert node.id in t && t[node.id] == AsTimer(node) && forall x :: x in t ==> node.expire <= t[x].expire by {
        RootEarliest(heap, slot);
      }
      if !node.isLoop {
        DelNode(node.id);
      } else {
        RemoveNode(node.id);
        var _ := AddTimer(rearmAt, node.interval, true);
      }
      SweepStep(t0, c0, now, rearmAt, fs, t, node, c + 1, Timers());
    }

    /** One expiration sweep at clock reading now (`ExpireTimer`): while
        the earliest timer is due it is handed over (here: appended to
        fired); a one-shot timer is then deleted, and a repeating one is
        taken out and scheduled again at the clock reading rearmAt under a
        fresh id. The sweep fires exactly the timers that were due, each
        once, in order of expiration, and leaves no timer due. In this
        model one clock reading rearmAt serves every re-insertion, so the
        sweep ends only if every repeating timer re-armed at rearmAt expires
        after now. */
    method ExpireTimer(now: nat, rearmAt: nat) returns (fired: seq<Node>)
      requires Valid() && now <= rearmAt
      requires forall x :: x in Timers() && Timers()[x].isLoop ==> now < rearmAt + Timers()[x].interval
      modifies this`heap, this`slot, this`count
      ensures Valid()
      ensures count == old(count) + Loops(fired)
      ensures Timers() == AfterFirings(old(Timers()), fired, old(count), rearmAt)
      ensures FiredIds(fired) == Due(old(Timers()), now)
      ensures forall k :: 0 <= k < |fired| ==> fired[k].id in old(Timers()) && AsTimer(fired[k]) == old(Timers())[fired[k].id]
      ensures forall k, j :: 0 <= k < j < |fired| ==> fired[k].id != fired[j].id
      ensures forall k, j :: 0 <= k < j < |fired| ==> fired[k].expire <= fired[j].expire
      ensures forall k :: 0 <= k < |fired| ==> fired[k].id !in Timers()
      ensures forall x :: x in Timers() ==> now < Timers()[x].expire
    {
      ghost var t0 := Timers();
      ghost var c0 := count;
      assert SweepPre(t0, c0, now, rearmAt) by {
        LinkedView(heap, slot, |heap|);
      }
      SweepStart(t0, c0, now, rearmAt);
      fired := [];
      // The source returns at once on an empty heap and otherwise loops
      // while the heap is not empty: together, a while loop.
      while 0 < |heap|
        invariant Valid() && count == c0 + Loops(fired)
        invariant SweepState(t0, c0, now, rearmAt, fired, Timers())
        decreases Due(Timers(), now)
      {
        var node := heap[0];
        if now < node.expire {
          break;
        }
        node := FireEarliest(now, rearmAt, t0, c0, fired);
        fired := fired + [node];
      }
      assert forall x :: x in Timers() ==> now < Timers()[x].expire by {
        LinkedView(heap, slot, |heap|);
        if 0 < |heap| {
          RootEarliest(heap, slot);
        }
      }
      SweepEnd(t0, c0, now, rearmAt, fired, Timers());
    }

    /** A copy of the heap, with its size (`GetTimerNode`): every live
        timer once, the earliest one first. */
    method GetTimerNode() returns (snapshot: seq<Node>, size: nat)
      requires Valid()
      ensures snapshot == heap && size == |snapshot|
      ensures forall x :: x in Timers() <==> exists i :: 0 <= i < size && snapshot[i].id == x
      ensures forall i :: 0 <= i < size ==> Timers()[snapshot[i].id] == AsTimer(snapshot[i])
      ensures 0 < size ==> forall x :: x in Timers() ==> snapshot[0].expire <= Timers()[x].expire
    {
      snapshot := heap;
      size := |snapshot|;
      LinkedView(heap, slot, |heap|);
      if 0 < size {
        RootEarliest(heap, slot);
      }
    }
  }
}
