/** Ranges threaded through fixed arrays, as both loss lists keep them: a range sits in the slot
    that lies as far from the head's slot as its first number lies from the head's.

    Everything here is about the contents of the arrays as sequences; the two list classes apply
    these lemmas to what their methods have written. */
module LinkedRanges {
  import opened SeqNo
  import opened Ring
  import opened Ranges

  /** The contents of `m_piData1`, `m_piData2` and `m_piNext`. */
  datatype Mem = Mem(data1: seq<int>, data2: seq<int>, next: seq<int>)

  function End(r: Range): int {
    if r.lo == r.hi then -1 else Wire(r.hi)
  }

  function Succ(slots: seq<int>, k: int): int
    requires 0 <= k < |slots|
  {
    if k + 1 < |slots| then slots[k + 1] else -1
  }

  predicate Sized(m: Mem, n: int) {
    n > 0 && |m.data1| == n && |m.data2| == n && |m.next| == n
  }

  /** The slots follow from the head's slot and the distances between the ranges. */
  predicate Placed(n: int, head: int, rs: seq<Range>, slots: seq<int>) {
    && |slots| == |rs|
    && (rs != [] ==> 0 <= head < n)
    && (forall k :: 0 <= k < |rs| ==> 0 <= rs[k].lo - rs[0].lo < n && slots[k] == Step(head, rs[k].lo - rs[0].lo, n))
  }

  predicate Holds(m: Mem, n: int, p: int, r: Range, succ: int)
    requires Sized(m, n)
  {
    0 <= p < n && m.data1[p] == Wire(r.lo) && m.data2[p] == End(r) && m.next[p] == succ
  }

  predicate Unused(m: Mem, n: int, p: int)
    requires Sized(m, n) && 0 <= p < n
  {
    m.data1[p] == -1 && m.data2[p] == -1
  }

  /** The arrays hold the ranges `rs`, in the slots `slots`, and nothing else. */
  predicate Rep(m: Mem, n: int, head: int, rs: seq<Range>, slots: seq<int>) {
    && Sized(m, n) && |slots| == |rs|
    && Placed(n, head, rs, slots)
    && AllHold(m, n, rs, slots)
    && RestUnused(m, n, Used(slots))
    && (rs != [] ==> head == slots[0])
  }

  predicate AllHold(m: Mem, n: int, rs: seq<Range>, slots: seq<int>)
    requires Sized(m, n) && |rs| == |slots|
  {
    forall k :: 0 <= k < |rs| ==> Holds(m, n, slots[k], rs[k], Succ(slots, k))
  }

  function Used<T>(slots: seq<T>): set<T> {
    set x | x in slots
  }

  lemma UsedHas<T>(slots: seq<T>, k: int)
    requires 0 <= k < |slots|
    ensures slots[k] in Used(slots)
  {
  }

  predicate RestUnused(m: Mem, n: int, used: set<int>)
    requires Sized(m, n)
  {
    forall p :: 0 <= p < n && p !in used ==> Unused(m, n, p)
  }

  predicate Distinct<T(==)>(slots: seq<T>) {
    forall i, j :: 0 <= i < j < |slots| ==> slots[i] != slots[j]
  }

  predicate Ascending(rs: seq<Range>) {
    forall i, j :: 0 <= i < j < |rs| ==> rs[i].lo < rs[j].lo
  }

  lemma SlotsDistinct(n: int, head: int, rs: seq<Range>, slots: seq<int>)
    requires Placed(n, head, rs, slots) && Ascending(rs)
    ensures Distinct(slots)
    ensures forall k :: 0 <= k < |slots| ==> 0 <= slots[k] < n
  {
  }

  /** `t` is `s` with `x` put in before position `k`. */
  predicate Inserted<T(==)>(s: seq<T>, k: int, x: T, t: seq<T>) {
    && 0 <= k <= |s| && |t| == |s| + 1 && t[k] == x
    && (forall i :: 0 <= i < k ==> t[i] == s[i])
    && (forall i :: k < i < |t| ==> t[i] == s[i - 1])
  }

  lemma RepDistinct(m: Mem, n: int, head: int, rs: seq<Range>, slots: seq<int>)
    requires Rep(m, n, head, rs, slots) && Ascending(rs)
    ensures Distinct(slots) && forall k :: 0 <= k < |slots| ==> 0 <= slots[k] < n
  {
    SlotsDistinct(n, head, rs, slots);
  }

  /** What the arrays say about node `k`. */
  lemma NodeAt(m: Mem, n: int, head: int, rs: seq<Range>, slots: seq<int>, k: int)
    requires Rep(m, n, head, rs, slots) && 0 <= k < |rs|
    ensures |slots| == |rs| && Sized(m, n) && 0 <= head < n && head == slots[0]
    ensures Holds(m, n, slots[k], rs[k], Succ(slots, k))
    ensures slots[k] == Step(head, rs[k].lo - rs[0].lo, n) && 0 <= rs[k].lo - rs[0].lo < n
  {
  }

  /** A slot at a distance that no range has is unused. */
  lemma FreshSlot(n: int, head: int, rs: seq<Range>, slots: seq<int>, lo: int)
    requires Placed(n, head, rs, slots) && rs != []
    requires forall k :: 0 <= k < |rs| ==> rs[k].lo != lo && -n < rs[k].lo - lo < n
    ensures 0 <= Step(head, lo - rs[0].lo, n) < n
    ensures Step(head, lo - rs[0].lo, n) !in Used(slots)
  {
  }

  /** The range `r` may be put in before position `k`: it is in order and near enough to the others. */
  predicate FitsAt(n: int, rs: seq<Range>, k: int, r: Range) {
    && rs != [] && 0 <= k <= |rs|
    && (forall i :: 0 <= i < |rs| ==> -n < rs[i].lo - r.lo < n)
    && (forall i :: 0 <= i < k ==> rs[i].lo < r.lo)
    && (forall i :: k <= i < |rs| ==> r.lo < rs[i].lo)
  }

  lemma PlacedAfterInsert(n: int, head: int, rs: seq<Range>, slots: seq<int>, k: nat, r: Range,
                          rs': seq<Range>, slots': seq<int>)
    requires Placed(n, head, rs, slots) && FitsAt(n, rs, k, r)
    requires Inserted(rs, k, r, rs') && Inserted(slots, k, Step(head, r.lo - rs[0].lo, n), slots')
    ensures Placed(n, if k == 0 then Step(head, r.lo - rs[0].lo, n) else head, rs', slots')
  {
  }

  /** What the arrays contain after a new node has been linked in before node `k`. */
  predicate LinkedIn(m: Mem, n: int, slots: seq<int>, k: nat, p: int, r: Range, m': Mem) {
    && Sized(m, n) && Sized(m', n) && 0 <= p < n && k <= |slots|
    && m'.data1 == m.data1[p := Wire(r.lo)]
    && m'.data2 == m.data2[p := End(r)]
    && m'.next[p] == (if k < |slots| then slots[k] else -1)
    && (forall q :: 0 <= q < n && q != p && (k == 0 || q != slots[k - 1]) ==> m'.next[q] == m.next[q])
    && (k > 0 && 0 <= slots[k - 1] < n && slots[k - 1] != p ==> m'.next[slots[k - 1]] == p)
  }

  lemma LinkedInAt(m: Mem, n: int, slots: seq<int>, k: nat, p: int, r: Range, m': Mem)
    requires Sized(m, n) && 0 <= p < n && k <= |slots|
    requires m'.data1 == m.data1[p := Wire(r.lo)] && m'.data2 == m.data2[p := End(r)]
    requires k > 0 ==> 0 <= slots[k - 1] < n && slots[k - 1] != p
    requires m'.next ==
      if k == 0 then m.next[p := if k < |slots| then slots[k] else -1]
      else m.next[p := if k < |slots| then slots[k] else -1][slots[k - 1] := p]
    ensures LinkedIn(m, n, slots, k, p, r, m')
  {
  }

  lemma HoldsAfterInsert(m: Mem, n: int, rs: seq<Range>, slots: seq<int>, k: nat, p: int, r: Range,
                         m': Mem, rs': seq<Range>, slots': seq<int>, i: int)
    requires Sized(m, n) && |rs| == |slots| && AllHold(m, n, rs, slots) && Distinct(slots) && p !in Used(slots)
    requires LinkedIn(m, n, slots, k, p, r, m')
    requires Inserted(rs, k, r, rs') && Inserted(slots, k, p, slots')
    requires 0 <= i < |rs'|
    ensures Holds(m', n, slots'[i], rs'[i], Succ(slots', i))
  {
    hide Holds, Distinct, LinkedIn, Used;
    LinkedInSizes(m, n, slots, k, p, r, m');
    if i == k {
      HoldsNew(m, n, slots, k, p, r, m');
    } else {
      var j := if i < k then i else i - 1;
      assert Holds(m, n, slots[j], rs[j], Succ(slots, j));
      UsedHas(slots, j);
      if k > 0 {
        DistinctAt(slots, j, k - 1);
      }
      HoldsAtAfterInsert(m, n, slots, k, p, r, m', slots[j], rs[j], Succ(slots, j));
    }
  }

  lemma LinkedInSizes(m: Mem, n: int, slots: seq<int>, k: nat, p: int, r: Range, m': Mem)
    requires LinkedIn(m, n, slots, k, p, r, m')
    ensures Sized(m', n) && k <= |slots|
  {
  }

  lemma HoldsNew(m: Mem, n: int, slots: seq<int>, k: nat, p: int, r: Range, m': Mem)
    requires LinkedIn(m, n, slots, k, p, r, m')
    ensures Holds(m', n, p, r, if k < |slots| then slots[k] else -1)
  {
  }

  lemma HoldsAtAfterInsert(m: Mem, n: int, slots: seq<int>, k: nat, p: int, r: Range, m': Mem,
                           q: int, rq: Range, succ: int)
    requires LinkedIn(m, n, slots, k, p, r, m') && q != p && Holds(m, n, q, rq, succ)
    ensures Holds(m', n, q, rq, if k > 0 && q == slots[k - 1] then p else succ)
  {
  }

  lemma AllHoldAfterInsert(m: Mem, n: int, rs: seq<Range>, slots: seq<int>, k: nat, p: int, r: Range,
                           m': Mem, rs': seq<Range>, slots': seq<int>)
    requires Sized(m, n) && |rs| == |slots| && AllHold(m, n, rs, slots) && Distinct(slots) && p !in Used(slots)
    requires LinkedIn(m, n, slots, k, p, r, m')
    requires Inserted(rs, k, r, rs') && Inserted(slots, k, p, slots')
    ensures AllHold(m', n, rs', slots')
  {
    forall i | 0 <= i < |rs'| ensures Holds(m', n, slots'[i], rs'[i], Succ(slots', i)) {
      HoldsAfterInsert(m, n, rs, slots, k, p, r, m', rs', slots', i);
    }
  }

  lemma RepAfterInsert(m: Mem, n: int, head: int, rs: seq<Range>, slots: seq<int>, k: nat, r: Range,
                       m': Mem, rs': seq<Range>, slots': seq<int>)
    requires Rep(m, n, head, rs, slots) && Ascending(rs) && FitsAt(n, rs, k, r)
    requires LinkedIn(m, n, slots, k, Step(head, r.lo - rs[0].lo, n), r, m')
    requires Inserted(rs, k, r, rs') && Inserted(slots, k, Step(head, r.lo - rs[0].lo, n), slots')
    ensures Rep(m', n, if k == 0 then Step(head, r.lo - rs[0].lo, n) else head, rs', slots')
    ensures Used(slots') == Used(slots) + {Step(head, r.lo - rs[0].lo, n)}
  {
    hide Placed, AllHold, RestUnused, Ascending, Distinct, Used;
    var p := Step(head, r.lo - rs[0].lo, n);
    SlotsDistinct(n, head, rs, slots);
    FreshSlot(n, head, rs, slots, r.lo);
    PlacedAfterInsert(n, head, rs, slots, k, r, rs', slots');
    AllHoldAfterInsert(m, n, rs, slots, k, p, r, m', rs', slots');
    InsertedUsed(slots, k, p, slots');
    UsedHas(slots', k);
    StaysUnused(m, n, Used(slots), m', Used(slots'), p);
  }

  /** Slots outside the list stay clear when nothing but slot `p` of the new list is written, or a
      slot that has been cleared. */
  lemma StaysUnused(m: Mem, n: int, used: set<int>, m': Mem, used': set<int>, p: int)
    requires Sized(m, n) && Sized(m', n) && RestUnused(m, n, used) && p in used'
    requires forall q :: q in used && q !in used' && 0 <= q < n ==> Unused(m', n, q)
    requires forall q :: 0 <= q < n && q != p && q !in used ==> m'.data1[q] == m.data1[q] && m'.data2[q] == m.data2[q]
    ensures RestUnused(m', n, used')
  {
    forall q | 0 <= q < n && q !in used' ensures Unused(m', n, q) {
      if q !in used {
        assert Unused(m, n, q);
      }
    }
  }

  lemma InsertedUsed<T>(s: seq<T>, k: int, x: T, t: seq<T>)
    requires Inserted(s, k, x, t)
    ensures Used(t) == Used(s) + {x}
  {
    forall i | 0 <= i < |s| ensures s[i] in Used(t) {
      assert t[if i < k then i else i + 1] == s[i];
    }
    assert t[k] == x;
  }

  /** The first range alone, in slot `p`. */
  lemma RepSingle(m: Mem, n: int, p: int, r: Range, m': Mem)
    requires Sized(m, n) && Sized(m', n) && 0 <= p < n
    requires forall q :: 0 <= q < n ==> Unused(m, n, q)
    requires m'.data1 == m.data1[p := Wire(r.lo)] && m'.data2 == m.data2[p := End(r)] && m'.next[p] == -1
    ensures Rep(m', n, p, [r], [p])
  {
    assert [p][0] == p;
    forall q | 0 <= q < n && q !in Used([p]) ensures Unused(m', n, q) {
      assert Unused(m, n, q) && q != p;
    }
  }

  /** Changing where range `k` ends is one write. */
  lemma RepAfterSetEnd(m: Mem, n: int, head: int, rs: seq<Range>, slots: seq<int>, k: nat, hi: int, m': Mem)
    requires Rep(m, n, head, rs, slots) && Ascending(rs) && k < |rs|
    requires m' == m.(data2 := m.data2[slots[k] := End(Range(rs[k].lo, hi))])
    ensures Rep(m', n, head, rs[k := Range(rs[k].lo, hi)], slots)
  {
    hide Placed, AllHold, RestUnused, Ascending, Distinct, Used;
    SlotsDistinct(n, head, rs, slots);
    HoldsAfterSetEnd(m, n, rs, slots, k, hi, m');
    PlacedAfterSetEnd(n, head, rs, slots, k, hi);
    UsedHas(slots, k);
    StaysUnused(m, n, Used(slots), m', Used(slots), slots[k]);
  }

  lemma PlacedAfterSetEnd(n: int, head: int, rs: seq<Range>, slots: seq<int>, k: nat, hi: int)
    requires Placed(n, head, rs, slots) && k < |rs|
    ensures Placed(n, head, rs[k := Range(rs[k].lo, hi)], slots)
  {
  }

  lemma HoldsAfterSetEnd(m: Mem, n: int, rs: seq<Range>, slots: seq<int>, k: nat, hi: int, m': Mem)
    requires Sized(m, n) && |rs| == |slots| && AllHold(m, n, rs, slots) && Distinct(slots) && k < |rs|
    requires 0 <= slots[k] < n && m' == m.(data2 := m.data2[slots[k] := End(Range(rs[k].lo, hi))])
    ensures AllHold(m', n, rs[k := Range(rs[k].lo, hi)], slots)
  {
    forall i | 0 <= i < |rs| ensures Holds(m', n, slots[i], rs[k := Range(rs[k].lo, hi)][i], Succ(slots, i)) {
      assert Holds(m, n, slots[i], rs[i], Succ(slots, i));
    }
  }

  predicate Removed<T(==)>(s: seq<T>, k: int, t: seq<T>) {
    && 0 <= k < |s| && |t| == |s| - 1
    && (forall i :: 0 <= i < k ==> t[i] == s[i])
    && (forall i :: k <= i < |t| ==> t[i] == s[i + 1])
  }

  lemma RemovedUsed<T>(s: seq<T>, k: int, t: seq<T>)
    requires Removed(s, k, t) && Distinct(s)
    ensures Used(t) == Used(s) - {s[k]}
  {
    forall i | 0 <= i < |s| && i != k ensures s[i] in Used(t) {
      assert t[if i < k then i else i - 1] == s[i];
    }
    forall i | 0 <= i < |t| ensures t[i] in Used(s) && t[i] != s[k] {
      assert t[i] == s[if i < k then i else i + 1];
    }
  }

  /** Node `k`, not the first, has been unlinked and its slot cleared. */
  predicate Unlinked(m: Mem, n: int, slots: seq<int>, k: nat, m': Mem) {
    && Sized(m, n) && Sized(m', n) && 0 < k < |slots| && 0 <= slots[k] < n && 0 <= slots[k - 1] < n
    && m'.data1 == m.data1[slots[k] := -1]
    && m'.data2 == m.data2[slots[k] := -1]
    && m'.next == m.next[slots[k - 1] := m.next[slots[k]]]
  }

  lemma RepAfterUnlink(m: Mem, n: int, head: int, rs: seq<Range>, slots: seq<int>, k: nat,
                       m': Mem, rs': seq<Range>, slots': seq<int>)
    requires Rep(m, n, head, rs, slots) && Ascending(rs) && Unlinked(m, n, slots, k, m')
    requires Removed(rs, k, rs') && Removed(slots, k, slots')
    ensures Rep(m', n, head, rs', slots')
    ensures Used(slots') == Used(slots) - {slots[k]}
  {
    hide Placed, AllHold, RestUnused, Ascending, Distinct, Used;
    SlotsDistinct(n, head, rs, slots);
    HoldsAfterUnlink(m, n, rs, slots, k, m', rs', slots');
    PlacedAfterRemove(n, head, rs, slots, k, rs', slots');
    RemovedUsed(slots, k, slots');
    assert slots[k - 1] == slots'[k - 1] && slots[0] == slots'[0];
    UsedHas(slots', k - 1);
    UsedHas(slots, k);
    StaysUnused(m, n, Used(slots), m', Used(slots'), slots[k - 1]);
  }

  lemma PlacedAfterRemove(n: int, head: int, rs: seq<Range>, slots: seq<int>, k: nat, rs': seq<Range>, slots': seq<int>)
    requires Placed(n, head, rs, slots) && Removed(rs, k, rs') && Removed(slots, k, slots') && k > 0
    ensures Placed(n, head, rs', slots')
  {
  }

  lemma HoldsAfterUnlink(m: Mem, n: int, rs: seq<Range>, slots: seq<int>, k: nat,
                         m': Mem, rs': seq<Range>, slots': seq<int>)
    requires Sized(m, n) && |rs| == |slots| && AllHold(m, n, rs, slots) && Distinct(slots)
    requires Unlinked(m, n, slots, k, m')
    requires Removed(rs, k, rs') && Removed(slots, k, slots')
    ensures AllHold(m', n, rs', slots')
  {
    hide Holds, Distinct, Unlinked;
    UnlinkedSizes(m, n, slots, k, m');
    forall i | 0 <= i < |rs'| ensures Holds(m', n, slots'[i], rs'[i], Succ(slots', i)) {
      var j := if i < k then i else i + 1;
      assert Holds(m, n, slots[j], rs[j], Succ(slots, j));
      assert Holds(m, n, slots[k], rs[k], Succ(slots, k));
      DistinctAt(slots, j, k);
      DistinctAt(slots, j, k - 1);
      HoldsAtAfterUnlink(m, n, slots, k, m', slots[j], rs[j], Succ(slots, j), rs[k], Succ(slots, k));
    }
  }

  lemma UnlinkedSizes(m: Mem, n: int, slots: seq<int>, k: nat, m': Mem)
    requires Unlinked(m, n, slots, k, m')
    ensures Sized(m', n) && 0 < k < |slots|
  {
  }

  lemma DistinctAt<T>(slots: seq<T>, i: int, j: int)
    requires Distinct(slots) && 0 <= i < |slots| && 0 <= j < |slots|
    ensures slots[i] == slots[j] <==> i == j
  {
  }

  lemma HoldsAtAfterUnlink(m: Mem, n: int, slots: seq<int>, k: nat, m': Mem,
                           p: int, r: Range, succ: int, rk: Range, succk: int)
    requires Unlinked(m, n, slots, k, m') && p != slots[k]
    requires Holds(m, n, p, r, succ) && Holds(m, n, slots[k], rk, succk)
    ensures Holds(m', n, p, r, if p == slots[k - 1] then succk else succ)
  {
  }

  /** The first node's slot has been cleared; its successor is the new head. */
  lemma RepAfterDropFirst(m: Mem, n: int, head: int, rs: seq<Range>, slots: seq<int>, m': Mem)
    requires Rep(m, n, head, rs, slots) && Ascending(rs) && rs != []
    requires Sized(m', n) && m'.next == m.next
    requires m'.data1 == m.data1[head := -1] && m'.data2 == m.data2[head := -1]
    ensures Rep(m', n, Succ(slots, 0), rs[1..], slots[1..])
    ensures m.next[head] == Succ(slots, 0)
    ensures Used(slots[1..]) == Used(slots) - {head}
  {
    SlotsDistinct(n, head, rs, slots);
    assert Holds(m, n, slots[0], rs[0], Succ(slots, 0));
    var rs', slots' := rs[1..], slots[1..];
    forall i | 0 <= i < |rs'| ensures Holds(m', n, slots'[i], rs'[i], Succ(slots', i)) {
      assert Holds(m, n, slots[i + 1], rs[i + 1], Succ(slots, i + 1));
      assert slots[i + 1] != slots[0];
    }
    RemovedUsed(slots, 0, slots');
    forall q | 0 <= q < n && q !in Used(slots') ensures Unused(m', n, q) {
      if q != head {
        assert Unused(m, n, q);
      }
    }
    PlacedAfterDrop(n, head, rs, slots);
  }

  lemma PlacedAfterDrop(n: int, head: int, rs: seq<Range>, slots: seq<int>)
    requires Placed(n, head, rs, slots) && Ascending(rs) && rs != []
    ensures Placed(n, Succ(slots, 0), rs[1..], slots[1..])
  {
    var rs', slots' := rs[1..], slots[1..];
    forall k | 0 <= k < |rs'|
      ensures 0 <= rs'[k].lo - rs'[0].lo < n && slots'[k] == Step(Succ(slots, 0), rs'[k].lo - rs'[0].lo, n)
    {
      assert slots[k + 1] == Step(head, rs[k + 1].lo - rs[0].lo, n);
      assert slots[1] == Step(head, rs[1].lo - rs[0].lo, n);
      assert k > 0 ==> rs[1].lo < rs[k + 1].lo;
    }
  }

  /** Node `k` has been moved one slot on, to start one number later. */
  predicate Shifted(m: Mem, n: int, slots: seq<int>, k: nat, p: int, r: Range, m': Mem) {
    && Sized(m, n) && Sized(m', n) && k < |slots| && 0 <= slots[k] < n && 0 <= p < n && p != slots[k]
    && m'.data1 == m.data1[p := Wire(r.lo)][slots[k] := -1]
    && m'.data2 == m.data2[p := End(r)][slots[k] := -1]
    && (forall q :: 0 <= q < n && q != p && q != slots[k] && (k == 0 || q != slots[k - 1]) ==> m'.next[q] == m.next[q])
    && m'.next[p] == m.next[slots[k]]
    && (k > 0 ==> 0 <= slots[k - 1] < n && m'.next[slots[k - 1]] == p)
  }

  lemma ShiftedAt(m: Mem, n: int, slots: seq<int>, k: nat, p: int, r: Range, m': Mem)
    requires Sized(m, n) && k < |slots| && 0 <= slots[k] < n && 0 <= p < n && p != slots[k]
    requires m'.data1 == m.data1[p := Wire(r.lo)][slots[k] := -1]
    requires m'.data2 == m.data2[p := End(r)][slots[k] := -1]
    requires k > 0 ==> 0 <= slots[k - 1] < n && slots[k - 1] != p && slots[k - 1] != slots[k]
    requires var next1 := m.next[p := m.next[slots[k]]];
             m'.next == if k > 0 then next1[slots[k - 1] := p] else next1
    ensures Shifted(m, n, slots, k, p, r, m')
  {
  }

  lemma PlacedAfterShift(n: int, head: int, rs: seq<Range>, slots: seq<int>, k: nat, hi: int)
    requires Placed(n, head, rs, slots) && Ascending(rs) && k < |rs|
    requires rs[k].lo + 1 - rs[0].lo < n
    requires forall i :: k < i < |rs| ==> rs[k].lo + 1 < rs[i].lo
    ensures var p := Step(slots[k], 1, n);
            && 0 <= p < n && p !in Used(slots)
            && Placed(n, if k == 0 then p else head, rs[k := Range(rs[k].lo + 1, hi)], slots[k := p])
  {
    assert slots[k] == Step(head, rs[k].lo - rs[0].lo, n);
    var p := Step(slots[k], 1, n);
    forall i | 0 <= i < |slots| ensures slots[i] != p {
      assert slots[i] == Step(head, rs[i].lo - rs[0].lo, n);
      assert i < k ==> rs[i].lo < rs[k].lo;
    }
    var head' := if k == 0 then p else head;
    var rs', slots' := rs[k := Range(rs[k].lo + 1, hi)], slots[k := p];
    forall i | 0 <= i < |rs'|
      ensures 0 <= rs'[i].lo - rs'[0].lo < n && slots'[i] == Step(head', rs'[i].lo - rs'[0].lo, n)
    {
      assert slots[i] == Step(head, rs[i].lo - rs[0].lo, n);
      assert i > 0 ==> rs[0].lo < rs[i].lo;
    }
  }

  lemma HoldsAfterShift(m: Mem, n: int, rs: seq<Range>, slots: seq<int>, k: nat, p: int, r: Range, m': Mem)
    requires Sized(m, n) && |rs| == |slots| && AllHold(m, n, rs, slots) && Distinct(slots) && p !in Used(slots)
    requires Shifted(m, n, slots, k, p, r, m')
    ensures AllHold(m', n, rs[k := r], slots[k := p])
  {
    var rs', slots' := rs[k := r], slots[k := p];
    forall i | 0 <= i < |rs'| ensures Holds(m', n, slots'[i], rs'[i], Succ(slots', i)) {
      assert Holds(m, n, slots[i], rs[i], Succ(slots, i));
      assert i != k ==> slots[i] != slots[k] && slots[i] != p;
      assert k > 0 && i != k - 1 ==> slots[i] != slots[k - 1];
    }
  }

  lemma ReplacedUsed<T>(s: seq<T>, k: int, x: T)
    requires 0 <= k < |s| && Distinct(s) && x !in Used(s)
    ensures Used(s[k := x]) == Used(s) - {s[k]} + {x}
  {
    var t := s[k := x];
    assert t[k] == x;
    forall i | 0 <= i < |s| && i != k ensures s[i] in Used(t) {
      assert t[i] == s[i];
    }
  }

  /** The slot a range is shifted to is free. */
  lemma ShiftTargetUnused(m: Mem, n: int, head: int, rs: seq<Range>, slots: seq<int>, k: nat)
    requires Rep(m, n, head, rs, slots) && Ascending(rs) && k < |rs|
    requires rs[k].lo + 1 - rs[0].lo < n
    requires forall i :: k < i < |rs| ==> rs[k].lo + 1 < rs[i].lo
    ensures var p := Step(slots[k], 1, n);
            0 <= p < n && p != slots[k] && Unused(m, n, p)
  {
    PlacedAfterShift(n, head, rs, slots, k, rs[k].hi);
    UsedHas(slots, k);
  }

  lemma RepAfterShift(m: Mem, n: int, head: int, rs: seq<Range>, slots: seq<int>, k: nat, m': Mem)
    requires Rep(m, n, head, rs, slots) && Ascending(rs) && k < |rs|
    requires rs[k].lo + 1 - rs[0].lo < n
    requires forall i :: k < i < |rs| ==> rs[k].lo + 1 < rs[i].lo
    requires Shifted(m, n, slots, k, Step(slots[k], 1, n), Range(rs[k].lo + 1, rs[k].hi), m')
    ensures var p := Step(slots[k], 1, n);
            && p !in Used(slots)
            && Rep(m', n, if k == 0 then p else head, rs[k := Range(rs[k].lo + 1, rs[k].hi)], slots[k := p])
            && Used(slots[k := p]) == Used(slots) - {slots[k]} + {p}
  {
    hide Placed, AllHold, RestUnused, Distinct, Used;
    SlotsDistinct(n, head, rs, slots);
    PlacedAfterShift(n, head, rs, slots, k, rs[k].hi);
    var p := Step(slots[k], 1, n);
    HoldsAfterShift(m, n, rs, slots, k, p, Range(rs[k].lo + 1, rs[k].hi), m');
    ReplacedUsed(slots, k, p);
    UsedHas(slots[k := p], k);
    UsedHas(slots, k);
    StaysUnused(m, n, Used(slots), m', Used(slots[k := p]), p);
  }
}
