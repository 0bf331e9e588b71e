/** The binary heap of the sending schedule as a value (udt4/src/queue.cpp:355-442): what sifting a
    node up or down does to the array, and when the result is in heap order. */
module HeapSpec {

  /** A socket and the time at which it is to be served. */
  datatype Entry<T> = Entry(who: T, ts: int)

  function Parent(i: nat): (p: nat)
    requires i > 0
    ensures p < i && (i == 2 * p + 1 || i == 2 * p + 2)
  {
    (i - 1) / 2
  }

  function Swap<T>(h: seq<Entry<T>>, i: nat, j: nat): (h': seq<Entry<T>>)
    requires i < |h| && j < |h|
    ensures |h'| == |h| && h'[i] == h[j] && h'[j] == h[i]
    ensures forall k :: 0 <= k < |h| && k != i && k != j ==> h'[k] == h[k]
    ensures multiset(h') == multiset(h)
  {
    h[i := h[j]][j := h[i]]
  }

  /** The loop of `insert_`: an entry moves up past every later parent. */
  function SiftUp<T>(h: seq<Entry<T>>, q: nat): seq<Entry<T>>
    requires q < |h|
    decreases q
  {
    if q == 0 || h[Parent(q)].ts <= h[q].ts then h else SiftUp(Swap(h, Parent(q), q), Parent(q))
  }

  /** The child that `remove_` compares with: the earlier one, the left one if they are equal. */
  function EarlierChild<T>(h: seq<Entry<T>>, q: nat): (c: nat)
    requires 2 * q + 1 < |h|
    ensures c < |h| && (c == 2 * q + 1 || c == 2 * q + 2)
    ensures forall d :: (d == 2 * q + 1 || d == 2 * q + 2) && d < |h| ==> h[c].ts <= h[d].ts
  {
    if 2 * q + 2 < |h| && h[2 * q + 1].ts > h[2 * q + 2].ts then 2 * q + 2 else 2 * q + 1
  }

  /** The loop of `remove_`: an entry moves down past every earlier child. */
  function SiftDown<T>(h: seq<Entry<T>>, q: nat): seq<Entry<T>>
    requires q < |h|
    decreases |h| - q
  {
    if 2 * q + 1 >= |h| || h[q].ts <= h[EarlierChild(h, q)].ts then h
    else SiftDown(Swap(h, q, EarlierChild(h, q)), EarlierChild(h, q))
  }

  function Inserted<T>(h: seq<Entry<T>>, e: Entry<T>): seq<Entry<T>> {
    SiftUp(h + [e], |h|)
  }

  /** The last entry fills the hole and is sifted down. */
  function Removed<T>(h: seq<Entry<T>>, k: nat): seq<Entry<T>>
    requires k < |h|
  {
    var n := |h| - 1;
    if k == n then h[..n] else SiftDown(h[..n][k := h[n]], k)
  }

  /** No entry is earlier than its parent. */
  ghost predicate Ordered<T>(h: seq<Entry<T>>) {
    forall i :: 0 < i < |h| ==> h[Parent(i)].ts <= h[i].ts
  }

  /** Heap order makes the root the earliest entry. */
  lemma {:induction false} RootIsEarliest<T>(h: seq<Entry<T>>, i: nat)
    requires Ordered(h) && i < |h|
    ensures h[0].ts <= h[i].ts
    decreases i
  {
    if i > 0 {
      RootIsEarliest(h, Parent(i));
    }
  }

  // ----- contents

  lemma {:induction false} SiftUpContents<T>(h: seq<Entry<T>>, q: nat)
    requires q < |h|
    ensures |SiftUp(h, q)| == |h| && multiset(SiftUp(h, q)) == multiset(h)
    decreases q
  {
    if q > 0 && h[Parent(q)].ts > h[q].ts {
      SiftUpContents(Swap(h, Parent(q), q), Parent(q));
    }
  }

  lemma {:induction false} SiftDownContents<T>(h: seq<Entry<T>>, q: nat)
    requires q < |h|
    ensures |SiftDown(h, q)| == |h| && multiset(SiftDown(h, q)) == multiset(h)
    decreases |h| - q
  {
    if 2 * q + 1 < |h| && h[q].ts > h[EarlierChild(h, q)].ts {
      SiftDownContents(Swap(h, q, EarlierChild(h, q)), EarlierChild(h, q));
    }
  }

  /** Insertion adds exactly the new entry. */
  lemma InsertedContents<T>(h: seq<Entry<T>>, e: Entry<T>)
    ensures |Inserted(h, e)| == |h| + 1 && multiset(Inserted(h, e)) == multiset(h) + multiset{e}
  {
    SiftUpContents(h + [e], |h|);
  }

  /** Removal takes away exactly the entry at the position, in order or not. */
  lemma RemovedContents<T>(h: seq<Entry<T>>, k: nat)
    requires k < |h|
    ensures |Removed(h, k)| == |h| - 1 && multiset(Removed(h, k)) == multiset(h) - multiset{h[k]}
  {
    var n := |h| - 1;
    assert h == h[..n] + [h[n]];
    if k < n {
      SiftDownContents(h[..n][k := h[n]], k);
    }
  }

  // ----- order

  /** In order, except that the entry at `q` may be earlier than its parent. */
  ghost predicate OrderedAbove<T>(h: seq<Entry<T>>, q: nat) {
    && (forall i :: 0 < i < |h| && i != q ==> h[Parent(i)].ts <= h[i].ts)
    && (forall i :: 0 < q < i < |h| && Parent(i) == q ==> h[Parent(q)].ts <= h[i].ts)
  }

  lemma {:induction false} SiftUpOrders<T>(h: seq<Entry<T>>, q: nat)
    requires q < |h| && OrderedAbove(h, q)
    ensures Ordered(SiftUp(h, q))
    decreases q
  {
    if q > 0 && h[Parent(q)].ts > h[q].ts {
      var p := Parent(q);
      var h' := Swap(h, p, q);
      forall i | 0 < i < |h'| && i != p ensures h'[Parent(i)].ts <= h'[i].ts {
        assert Parent(i) == p || Parent(i) == q || h'[Parent(i)] == h[Parent(i)];
      }
      forall i | 0 < p < i < |h'| && Parent(i) == p ensures h'[Parent(p)].ts <= h'[i].ts {
        assert h[Parent(p)].ts <= h[p].ts;
        assert i != q ==> h[Parent(i)].ts <= h[i].ts;
      }
      SiftUpOrders(h', p);
    }
  }

  /** Insertion keeps the order. */
  lemma InsertedIsOrdered<T>(h: seq<Entry<T>>, e: Entry<T>)
    requires Ordered(h)
    ensures Ordered(Inserted(h, e))
  {
    SiftUpOrders(h + [e], |h|);
  }

  /** In order, except that the entry at `q` may be later than its children. */
  ghost predicate OrderedBelow<T>(h: seq<Entry<T>>, q: nat) {
    && (forall i :: 0 < i < |h| && Parent(i) != q ==> h[Parent(i)].ts <= h[i].ts)
    && (forall i :: 0 < q < i < |h| && Parent(i) == q ==> h[Parent(q)].ts <= h[i].ts)
  }

  lemma {:induction false} SiftDownOrders<T>(h: seq<Entry<T>>, q: nat)
    requires q < |h| && OrderedBelow(h, q)
    ensures Ordered(SiftDown(h, q))
    decreases |h| - q
  {
    if 2 * q + 1 < |h| {
      var c := EarlierChild(h, q);
      if h[q].ts > h[c].ts {
        var h' := Swap(h, q, c);
        forall i | 0 < i < |h'| && Parent(i) != c ensures h'[Parent(i)].ts <= h'[i].ts {
          assert Parent(i) == q || i == q || h'[Parent(i)] == h[Parent(i)];
        }
        forall i | 0 < c < i < |h'| && Parent(i) == c ensures h'[Parent(c)].ts <= h'[i].ts {
          assert h[Parent(i)].ts <= h[i].ts;
        }
        SiftDownOrders(h', c);
      }
    }
  }

  /** Removing the root, as `pop` does, keeps the order. */
  lemma PoppedIsOrdered<T>(h: seq<Entry<T>>)
    requires Ordered(h) && h != []
    ensures Ordered(Removed(h, 0))
  {
    RemovedOrder(h, 0);
  }

  /** The last entry may take the place of entry `k`. */
  predicate MayFill<T>(h: seq<Entry<T>>, k: nat)
    requires k < |h|
  {
    k == 0 || k == |h| - 1 || h[Parent(k)].ts <= h[|h| - 1].ts
  }

  /** `remove_` only sifts down, so it keeps the order exactly when the entry that fills the hole is
      not earlier than the hole's parent. */
  lemma RemovedOrder<T>(h: seq<Entry<T>>, k: nat)
    requires Ordered(h) && k < |h|
    ensures Ordered(Removed(h, k)) <==> MayFill(h, k)
  {
    var n := |h| - 1;
    if k < n {
      var h1 := h[..n][k := h[n]];
      if MayFill(h, k) {
        forall i | 0 < k < i < |h1| && Parent(i) == k ensures h1[Parent(k)].ts <= h1[i].ts {
          assert h[Parent(k)].ts <= h[k].ts <= h[i].ts;
        }
        SiftDownOrders(h1, k);
      } else {
        StaysInHole(h, k);
        assert h1[Parent(k)].ts > h1[k].ts;
      }
    }
  }

  /** An entry earlier than the hole's parent is earlier than everything below the hole. */
  lemma StaysInHole<T>(h: seq<Entry<T>>, k: nat)
    requires Ordered(h) && k < |h| && !MayFill(h, k)
    ensures Removed(h, k) == h[..|h| - 1][k := h[|h| - 1]]
  {
    var n := |h| - 1;
    var h1 := h[..n][k := h[n]];
    if 2 * k + 1 < n {
      var c := EarlierChild(h1, k);
      assert Parent(c) == k;
      assert h[Parent(k)].ts <= h[k].ts <= h[c].ts;
    }
  }

  /** A schedule that removing an inner entry leaves out of order. */
  lemma RemovalCanBreakOrder()
    ensures var h := [Entry(0, 1), Entry(1, 10), Entry(2, 2), Entry(3, 11), Entry(4, 12), Entry(5, 3)];
            Ordered(h) && !Ordered(Removed(h, 3))
  {
    var h := [Entry(0, 1), Entry(1, 10), Entry(2, 2), Entry(3, 11), Entry(4, 12), Entry(5, 3)];
    assert Parent(1) == 0 && Parent(2) == 0 && Parent(3) == 1 && Parent(4) == 1 && Parent(5) == 2;
    RemovedOrder(h, 3);
  }

  // ----- rescheduling

  /** `update` with rescheduling: an entry at the root is made due at once where it is; any other
      entry is removed and inserted again. */
  function Rescheduled<T>(h: seq<Entry<T>>, k: nat): seq<Entry<T>>
    requires k < |h|
  {
    if k == 0 then h[0 := h[0].(ts := 1)] else Inserted(Removed(h, k), h[k].(ts := 1))
  }

  /** Rescheduling changes the time of that entry and no other. */
  lemma RescheduledContents<T>(h: seq<Entry<T>>, k: nat)
    requires k < |h|
    ensures multiset(Rescheduled(h, k)) == multiset(h) - multiset{h[k]} + multiset{Entry(h[k].who, 1)}
  {
    if k == 0 {
      assert h == [h[0]] + h[1..];
      assert Rescheduled(h, 0) == [Entry(h[0].who, 1)] + h[1..];
    } else {
      RemovedContents(h, k);
      InsertedContents(Removed(h, k), Entry(h[k].who, 1));
    }
  }

  predicate OnPathTo(j: nat, q: nat)
    decreases q
  {
    j == q || (q > 0 && OnPathTo(j, Parent(q)))
  }

  lemma {:induction false} PathIsAscending<T>(h: seq<Entry<T>>, j: nat, q: nat)
    requires Ordered(h) && q < |h| && OnPathTo(j, q)
    ensures j <= q && h[j].ts <= h[q].ts
    decreases q
  {
    if j != q {
      PathIsAscending(h, j, Parent(q));
    }
  }

  lemma {:induction false} PathGoesUp(j: nat, q: nat)
    requires j > 0 && OnPathTo(j, q)
    ensures OnPathTo(Parent(j), q)
    decreases q
  {
    if j != q {
      PathGoesUp(j, Parent(q));
    } else {
      assert OnPathTo(Parent(j), Parent(j));
    }
  }

  lemma {:induction false} SiftUpStaysOnPath<T>(h: seq<Entry<T>>, q: nat, j: nat)
    requires q < |h| && j < |h| && !OnPathTo(j, q)
    ensures |SiftUp(h, q)| == |h| && SiftUp(h, q)[j] == h[j]
    decreases q
  {
    if q > 0 && h[Parent(q)].ts > h[q].ts {
      SiftUpStaysOnPath(Swap(h, Parent(q), q), Parent(q), j);
    } else {
      SiftUpContents(h, q);
    }
  }

  /** An entry earlier than the hole's parent has neither on its path to the root. */
  lemma HoleIsOffPath<T>(h: seq<Entry<T>>, k: nat)
    requires Ordered(h) && k < |h| && !MayFill(h, k)
    ensures !OnPathTo(k, |h| - 1) && !OnPathTo(Parent(k), |h| - 1)
  {
    hide Ordered;
    if OnPathTo(k, |h| - 1) {
      PathGoesUp(k, |h| - 1);
    }
    if OnPathTo(Parent(k), |h| - 1) {
      PathIsAscending(h, Parent(k), |h| - 1);
    }
  }

  lemma ReinsertionDoesNotRepair<T>(h: seq<Entry<T>>, k: nat)
    requires Ordered(h) && k < |h| && !MayFill(h, k)
    ensures !Ordered(Rescheduled(h, k))
  {
    hide SiftUp, SiftDown, OnPathTo, Removed;
    var n, p := |h| - 1, Parent(k);
    HoleIsOffPath(h, k);
    StaysInHole(h, k);
    var h1 := Removed(h, k) + [h[k].(ts := 1)];
    SiftUpStaysOnPath(h1, n, p);
    SiftUpStaysOnPath(h1, n, k);
    assert Rescheduled(h, k)[p].ts > Rescheduled(h, k)[k].ts;
  }

  /** Times are positive, so rescheduling keeps the order exactly when the removal in it does: the
      entry that is put back comes nowhere near the place that is out of order. */
  lemma RescheduledOrder<T>(h: seq<Entry<T>>, k: nat)
    requires Ordered(h) && k < |h| && forall i :: 0 <= i < |h| ==> h[i].ts >= 1
    ensures Ordered(Rescheduled(h, k)) <==> MayFill(h, k)
  {
    hide SiftUp, SiftDown, Removed;
    if k > 0 && MayFill(h, k) {
      RemovedOrder(h, k);
      InsertedIsOrdered(Removed(h, k), h[k].(ts := 1));
    } else if k > 0 {
      ReinsertionDoesNotRepair(h, k);
    }
  }
}
