/** The list of sockets with something to send, ordered by the time of their next packet
    (udt4/src/queue.cpp:226-442).  Every node knows its place in the heap. */
module SndULists {
  import opened HeapSpec

  class Node {
    var timeStamp: int
    var heapLoc: int      // -1 when the node is not on the heap

    constructor ()
      ensures timeStamp == 1 && heapLoc == -1
    {
      timeStamp, heapLoc := 1, -1;
    }
  }

  function Whos(es: seq<Entry<Node>>): set<Node> {
    set e | e in es :: e.who
  }

  predicate Distinct(es: seq<Entry<Node>>) {
    forall i, j :: 0 <= i < j < |es| ==> es[i].who != es[j].who
  }

  class SndUList {
    var heap: array<Node?>
    var lastEntry: int

    ghost var entries: seq<Entry<Node>>

    /** The heap holds the entries, and every node but the one at `skip` knows its place. */
    ghost predicate Linked(skip: int)
      reads this, heap, Whos(entries)
    {
      && lastEntry == |entries| - 1 && |entries| <= heap.Length
      && Distinct(entries)
      && (forall i :: 0 <= i < |entries| ==> heap[i] == entries[i].who)
      && (forall i :: 0 <= i < |entries| ==> entries[i].who.timeStamp == entries[i].ts)
      && (forall i :: 0 <= i < |entries| && i != skip ==> entries[i].who.heapLoc == i)
    }

    ghost predicate Valid()
      reads this, heap, Whos(entries)
    {
      Linked(-1) && heap.Length > 0
    }

    /** A node's own idea of its place is right. */
    ghost predicate Knows(n: Node)
      reads this, n`heapLoc
    {
      if n in Whos(entries) then 0 <= n.heapLoc < |entries| && entries[n.heapLoc].who == n else n.heapLoc == -1
    }

    constructor ()
      ensures Valid() && entries == [] && fresh(heap) && heap.Length == 4096
    {
      heap := new Node?[4096](_ => null);
      lastEntry := -1;
      entries := [];
    }

    method Insert_(ts: int, n: Node)
      requires Valid() && Knows(n) && (n in Whos(entries) || |entries| < heap.Length)
      modifies this`lastEntry, this`entries, heap, n`timeStamp, n`heapLoc, Whos(entries)`heapLoc
      ensures Valid() && Knows(n) && Whos(entries) == Whos(old(entries)) + {n}
      ensures entries == if n in Whos(old(entries)) then old(entries) else Inserted(old(entries), Entry(n, ts))
    {
      hide Inserted, SiftUp;
      if n.heapLoc >= 0 {
        return;
      }
      Append(ts, n);
      InsertedIsSiftUp(old(entries), Entry(n, ts));
      var q := lastEntry;
      var p := q;
      while p != 0
        invariant 0 <= q < |entries| && p == q
        invariant Linked(q) && heap == old(heap)
        invariant entries[q] == Entry(n, ts) && Whos(entries) == Whos(old(entries)) + {n}
        invariant SiftUp(entries, q) == Inserted(old(entries), Entry(n, ts))
        decreases q
      {
        p := (q - 1) / 2;
        SiftUpStep(entries, q);
        if heap[p].timeStamp > heap[q].timeStamp {
          MoveUp(p, q);
          q := p;
        } else {
          n.heapLoc := q;
          return;
        }
      }
      SiftUpStep(entries, 0);
      n.heapLoc := q;
    }

    method Append(ts: int, n: Node)
      requires Valid() && n !in Whos(entries) && |entries| < heap.Length
      modifies this`lastEntry, this`entries, heap, n`timeStamp
      ensures entries == old(entries) + [Entry(n, ts)] && Whos(entries) == Whos(old(entries)) + {n}
      ensures Linked(|entries| - 1)
    {
      lastEntry := lastEntry + 1;
      heap[lastEntry] := n;
      n.timeStamp := ts;
      WhosAppend(entries, Entry(n, ts));
      entries := entries + [Entry(n, ts)];
    }

    /** One step up: the entry at `q` changes places with its parent. */
    method MoveUp(p: int, q: int)
      requires Linked(q) && 0 <= p < q < |entries|
      modifies this`entries, heap, Whos(entries)`heapLoc
      ensures Linked(p) && entries == Swap(old(entries), p, q) && Whos(entries) == Whos(old(entries))
    {
      WhosSwap(entries, p, q);
      var t := heap[p];
      assert t == entries[p].who;
      heap[p] := heap[q];
      heap[q] := t;
      t.heapLoc := q;
      entries := Swap(entries, p, q);
    }

    /** Take a node off the heap, wherever it is. */
    method Remove_(n: Node)
      requires Valid() && Knows(n)
      modifies this`lastEntry, this`entries, heap, Whos(entries)`heapLoc
      ensures Valid() && Knows(n) && heap == old(heap)
      ensures n !in Whos(old(entries)) ==> entries == old(entries)
      ensures n in Whos(old(entries)) ==> entries == Removed(old(entries), old(n.heapLoc))
      ensures Whos(entries) == Whos(old(entries)) - {n}
    {
      hide Removed, SiftDown;
      if n.heapLoc >= 0 {
        FillHole(n);
        RemovedIsSiftDown(old(entries), n.heapLoc);
        if n.heapLoc <= lastEntry {
          SiftDownFrom(n.heapLoc);
        }
        n.heapLoc := -1;
      }
    }

    /** The last entry takes the place of node `n`. */
    method FillHole(n: Node)
      requires Valid() && n in Whos(entries) && Knows(n)
      modifies this`lastEntry, this`entries, heap, Whos(entries)`heapLoc
      ensures Linked(-1) && Whos(entries) == Whos(old(entries)) - {n}
      ensures n.heapLoc == old(n.heapLoc)
      ensures var h, k := old(entries), old(n.heapLoc);
              entries == if k == |h| - 1 then h[..k] else h[..|h| - 1][k := h[|h| - 1]]
    {
      WhosFilled(entries, n.heapLoc);
      heap[n.heapLoc] := heap[lastEntry];
      lastEntry := lastEntry - 1;
      heap[n.heapLoc].heapLoc := n.heapLoc;
      entries := if n.heapLoc == |entries| - 1 then entries[..n.heapLoc]
                 else entries[..|entries| - 1][n.heapLoc := entries[|entries| - 1]];
    }

    /** The loop of `remove_`. */
    method SiftDownFrom(k: int)
      requires Linked(-1) && 0 <= k < |entries|
      modifies this`entries, heap, Whos(entries)`heapLoc
      ensures Linked(-1) && entries == SiftDown(old(entries), k) && Whos(entries) == Whos(old(entries))
    {
      hide SiftDown;
      var q := k;
      var p := q * 2 + 1;
      while p <= lastEntry
        invariant Linked(-1) && 0 <= q < |entries| && p == q * 2 + 1
        invariant Whos(entries) == Whos(old(entries)) && heap == old(heap)
        invariant SiftDown(entries, q) == SiftDown(old(entries), k)
        decreases lastEntry - q
      {
        SiftDownStep(entries, q);
        if p + 1 <= lastEntry && heap[p].timeStamp > heap[p + 1].timeStamp {
          p := p + 1;
        }
        if heap[q].timeStamp > heap[p].timeStamp {
          MoveDown(q, p);
          q := p;
          p := q * 2 + 1;
        } else {
          return;
        }
      }
      SiftDownStep(entries, q);
    }

    /** One step down: the entry at `q` changes places with a child. */
    method MoveDown(q: int, p: int)
      requires Linked(-1) && 0 <= q < p < |entries|
      modifies this`entries, heap, Whos(entries)`heapLoc
      ensures Linked(-1) && entries == Swap(old(entries), q, p) && Whos(entries) == Whos(old(entries))
    {
      WhosSwap(entries, q, p);
      var t := heap[p];
      assert t == entries[p].who;
      heap[p] := heap[q];
      heap[p].heapLoc := p;
      heap[q] := t;
      heap[q].heapLoc := q;
      entries := Swap(entries, q, p);
    }

    /** Insert a socket; the array is doubled when it is full. */
    method Insert(ts: int, n: Node)
      requires Valid() && Knows(n)
      modifies this`heap, this`lastEntry, this`entries, heap, n`timeStamp, n`heapLoc, Whos(entries)`heapLoc
      ensures Valid() && Knows(n) && (heap == old(heap) || fresh(heap))
      ensures entries == if n in Whos(old(entries)) then old(entries) else Inserted(old(entries), Entry(n, ts))
    {
      hide Inserted;
      if lastEntry == heap.Length - 1 {
        var temp := new Node?[heap.Length * 2];
        forall i | 0 <= i < heap.Length {
          temp[i] := heap[i];
        }
        heap := temp;
      }
      Insert_(ts, n);
    }

    /** The time of the next packet, or 0 when nothing is scheduled. */
    method GetNextProcTime() returns (ts: int)
      requires Valid()
      ensures entries == [] ==> ts == 0
      ensures entries != [] ==> ts == entries[0].ts
    {
      if lastEntry == -1 {
        return 0;
      }
      return heap[0].timeStamp;
    }

    /** The slot `update` appends a node at, or -1 when it appends none.  Unlike `insert`, it does not
        look at the length of the array. */
    function AppendsAt(n: Node, reschedule: bool): int
      reads this`lastEntry, n`heapLoc
    {
      if n.heapLoc < 0 then lastEntry + 1
      else if !reschedule || n.heapLoc == 0 then -1
      else lastEntry
    }

    /** `update` stays within the array if and only if the socket is scheduled already or the array is
        not full. */
    lemma UpdateStaysInArray(n: Node, reschedule: bool)
      requires Valid() && Knows(n)
      ensures AppendsAt(n, reschedule) < heap.Length <==> n in Whos(entries) || |entries| < heap.Length
    {
    }

    /** Make a socket due at once.  A socket already scheduled is left alone unless `reschedule`. */
    method Update(n: Node, reschedule: bool)
      requires Valid() && Knows(n) && (n in Whos(entries) || |entries| < heap.Length)
      modifies this`lastEntry, this`entries, heap, n`timeStamp, n`heapLoc, Whos(entries)`heapLoc
      ensures Valid() && Knows(n) && Whos(entries) == Whos(old(entries)) + {n}
      ensures entries ==
              if n !in Whos(old(entries)) then Inserted(old(entries), Entry(n, 1))
              else if reschedule then Rescheduled(old(entries), old(n.heapLoc))
              else old(entries)
    {
      hide Inserted, Removed;
      if n.heapLoc >= 0 {
        if !reschedule {
          return;
        }
        if n.heapLoc == 0 {
          n.timeStamp := 1;
          WhosRetimed(entries, 1);
          entries := entries[0 := Entry(n, 1)];
          return;
        }
        RemovedContents(entries, n.heapLoc);
        Remove_(n);
      }
      assert lastEntry + 1 == old(AppendsAt(n, reschedule));
      Insert_(1, n);
    }

    /** Take the first socket if it is due.  `alive` says that its connection is; `payload` and `next`
        stand for what its `packData` returns. */
    method Pop(now: int, alive: bool, payload: int, next: int) returns (n: Node?, packed: bool)
      requires Valid()
      modifies this`lastEntry, this`entries, heap, Whos(entries)`heapLoc, Whos(entries)`timeStamp
      ensures Valid()
      ensures n == null <==> old(entries) == [] || now < old(entries)[0].ts
      ensures n == null ==> entries == old(entries) && !packed
      ensures n != null ==>
        && n == old(entries)[0].who
        && packed == (alive && payload > 0)
        && entries == if packed && next > 0 then Inserted(Removed(old(entries), 0), Entry(n, next))
           else Removed(old(entries), 0)
    {
      hide Inserted, Removed;
      if lastEntry == -1 {
        return null, false;
      }
      if now < heap[0].timeStamp {
        return null, false;
      }
      n := heap[0];
      RemovedContents(entries, 0);
      Remove_(n);
      if !alive || payload <= 0 {
        return n, false;
      }
      if next > 0 {
        Insert_(next, n);
      }
      return n, true;
    }
  }

  /** Calls of `update` alone fill the array, and the next one for another socket writes past its end. */
  method FillByUpdates() returns (l: SndUList, n: Node)
    ensures l.Valid() && l.Knows(n) && n !in Whos(l.entries) && |l.entries| == 4096
    ensures l.AppendsAt(n, false) == l.heap.Length
  {
    hide Inserted, SndUList.Linked;
    l := new SndUList();
    var i := 0;
    while i < 4096
      invariant fresh(l) && fresh(l.heap) && fresh(Whos(l.entries)) && l.heap.Length == 4096
      invariant 0 <= i <= 4096 && l.Valid() && |l.entries| == i
    {
      n := new Node();
      InsertedContents(l.entries, Entry(n, 1));
      l.Update(n, false);
      i := i + 1;
    }
    n := new Node();
    FullAppendsBeyond(l, n);
  }

  lemma FullAppendsBeyond(l: SndUList, n: Node)
    requires l.Valid() && n.heapLoc < 0
    ensures l.AppendsAt(n, false) == |l.entries|
  {
  }

  lemma WhosAppend(es: seq<Entry<Node>>, e: Entry<Node>)
    ensures Whos(es + [e]) == Whos(es) + {e.who}
  {
    assert forall x :: x in es + [e] <==> x in es || x == e;
  }

  lemma WhosSwap(es: seq<Entry<Node>>, p: nat, q: nat)
    requires p < |es| && q < |es|
    ensures Whos(Swap(es, p, q)) == Whos(es)
  {
    SameWhos(es, Swap(es, p, q));
  }

  lemma SameWhos(es: seq<Entry<Node>>, es': seq<Entry<Node>>)
    requires multiset(es) == multiset(es')
    ensures Whos(es) == Whos(es')
  {
    assert forall e :: e in es <==> e in multiset(es);
    assert forall e :: e in es' <==> e in multiset(es');
  }

  lemma InsertedIsSiftUp(h: seq<Entry<Node>>, e: Entry<Node>)
    ensures SiftUp(h + [e], |h|) == Inserted(h, e)
  {
  }

  lemma SiftUpStep(h: seq<Entry<Node>>, q: nat)
    requires q < |h|
    ensures q == 0 ==> SiftUp(h, q) == h
    ensures q > 0 ==>
      var p := (q - 1) / 2;
      SiftUp(h, q) == if h[p].ts > h[q].ts then SiftUp(Swap(h, p, q), p) else h
  {
  }

  lemma RemovedIsSiftDown(h: seq<Entry<Node>>, k: nat)
    requires k < |h|
    ensures Removed(h, k) == if k == |h| - 1 then h[..k] else SiftDown(h[..|h| - 1][k := h[|h| - 1]], k)
  {
  }

  lemma SiftDownStep(h: seq<Entry<Node>>, q: nat)
    requires q < |h|
    ensures 2 * q + 1 >= |h| ==> SiftDown(h, q) == h
    ensures 2 * q + 1 < |h| ==>
      var p := if 2 * q + 2 < |h| && h[2 * q + 1].ts > h[2 * q + 2].ts then 2 * q + 2 else 2 * q + 1;
      SiftDown(h, q) == if h[q].ts > h[p].ts then SiftDown(Swap(h, q, p), p) else h
  {
  }

  /** The nodes left when the last entry fills hole `k`. */
  lemma WhosFilled(h: seq<Entry<Node>>, k: nat)
    requires k < |h| && Distinct(h)
    ensures var h' := if k == |h| - 1 then h[..k] else h[..|h| - 1][k := h[|h| - 1]];
            && Distinct(h') && Whos(h') == Whos(h) - {h[k].who}
  {
    var n := |h| - 1;
    var h' := if k == n then h[..k] else h[..n][k := h[n]];
    forall i | 0 <= i <= n && i != k ensures h[i] in h' {
      assert h'[if i == n then k else i] == h[i];
    }
    forall e | e in h' ensures e in h && e.who != h[k].who {
      var j :| 0 <= j < |h'| && h'[j] == e;
      assert h[if j == k then n else j] == e;
    }
  }

  lemma WhosRetimed(h: seq<Entry<Node>>, ts: int)
    requires h != []
    ensures Whos(h[0 := Entry(h[0].who, ts)]) == Whos(h)
  {
    var h' := h[0 := Entry(h[0].who, ts)];
    forall e | e in h ensures exists e' :: e' in h' && e'.who == e.who {
      var i :| 0 <= i < |h| && h[i] == e;
      assert h'[i] in h' && h'[i].who == e.who;
    }
    forall e | e in h' ensures exists e' :: e' in h && e'.who == e.who {
      var i :| 0 <= i < |h'| && h'[i] == e;
      assert h[i] in h && h[i].who == e.who;
    }
  }
}
