/** What the methods of the two loss lists need to know about sorted ranges and their slots. */
module LossListFacts {
  import opened SeqNo
  import opened Ring
  import opened Ranges
  import opened LinkedRanges
  import opened SenderSpec

  /** The numbers `a..b` and those of the list fit into the slots of the list. */
  predicate RoomFor(s: set<int>, a: int, b: int, size: int) {
    b - a < size && forall x :: x in s ==> b - x < size && x - a < size
  }

  /** All numbers of the list lie in a window shorter than the list. */
  predicate InWindow(rs: seq<Range>, size: int) {
    forall k :: 0 <= k < |rs| ==> rs[k].hi - rs[0].lo < size
  }

  // ----- facts about ranges and slots

  lemma UnionSize(s: set<int>, t: set<int>)
    ensures |s + t| - |s| == |t - s|
  {
    assert s + t == s + (t - s);
  }

  lemma RoomOnRanges(rs: seq<Range>, a: int, b: int, size: int)
    requires Sorted(rs) && RoomFor(Elems(rs), a, b, size) && a <= b && size < SEQ_NO_TH
    ensures forall k :: 0 <= k < |rs| ==>
      && rs[k].lo <= rs[k].hi && b - rs[k].lo < size && rs[k].hi - a < size
      && Near(rs[k].lo, a) && Near(rs[k].hi, a) && Near(rs[k].hi, b) && -size < rs[k].lo - a < size
  {
    forall k | 0 <= k < |rs| ensures b - rs[k].lo < size && rs[k].hi - a < size {
      ElemIn(rs, k);
      assert rs[k].lo in Elems(rs) && rs[k].hi in Elems(rs);
    }
  }

  /** The node that starts with `a`, if the slot where it would sit says so; otherwise -1. */
  lemma SlotOf(m: Mem, n: int, head: int, rs: seq<Range>, slots: seq<int>, a: int) returns (k: int)
    requires Rep(m, n, head, rs, slots) && rs != [] && n < SEQ_NO_TH
    requires forall i :: 0 <= i < |rs| ==> -n < rs[i].lo - a < n
    ensures -1 <= k < |rs|
    ensures var p := Step(head, a - rs[0].lo, n);
            && 0 <= p < n
            && (k >= 0 ==> rs[k].lo == a && slots[k] == p && m.data1[p] == Wire(a))
            && (k == -1 ==> m.data1[p] != Wire(a) && forall i :: 0 <= i < |rs| ==> rs[i].lo != a)
  {
    hide Wire, Rep, Step;
    var p := Step(head, a - rs[0].lo, n);
    NodeAt(m, n, head, rs, slots, 0);
    if p in Used(slots) {
      k := NodeIn(slots, p);
      NodeAt(m, n, head, rs, slots, k);
      SameDistance(head, rs[k].lo - rs[0].lo, a - rs[0].lo, n);
    } else {
      OutsideIsUnused(m, n, head, rs, slots, p);
      k := -1;
      forall i | 0 <= i < |rs| ensures rs[i].lo != a {
        NodeAt(m, n, head, rs, slots, i);
        UsedHas(slots, i);
      }
    }
  }

  lemma SameDistance(head: int, d: int, e: int, n: int)
    requires 0 <= head < n && 0 <= d < n && -n < e < n && -n < d - e < n
    ensures Step(head, d, n) == Step(head, e, n) <==> d == e
  {
  }

  lemma OutsideIsUnused(m: Mem, n: int, head: int, rs: seq<Range>, slots: seq<int>, p: int)
    requires Rep(m, n, head, rs, slots) && 0 <= p < n && p !in Used(slots)
    ensures Unused(m, n, p)
  {
  }

  lemma EmptyIsUnused(m: Mem, n: int, head: int, slots: seq<int>)
    requires Rep(m, n, head, [], slots)
    ensures forall q :: 0 <= q < n ==> Unused(m, n, q)
  {
    assert slots == [] && Used(slots) == {};
  }

  lemma NodeIn(slots: seq<int>, p: int) returns (k: int)
    requires p in Used(slots)
    ensures 0 <= k < |slots| && slots[k] == p
  {
    k :| 0 <= k < |slots| && slots[k] == p;
  }

  lemma ContainedAlready(rs: seq<Range>, k: nat, a: int, b: int)
    requires k < |rs| && rs[k].lo <= a && b <= rs[k].hi
    ensures Elems(rs) + Interval(a, b) == Elems(rs)
    ensures Interval(a, b) - Elems(rs) == {}
  {
    ElemIn(rs, k);
  }

  lemma FrontFits(rs: seq<Range>, r: Range, size: int)
    requires SortedBut(rs, -1) && InWindow(rs, size) && rs != [] && r.lo <= r.hi < r.lo + size && r.lo < rs[0].lo
    requires forall i :: 0 <= i < |rs| ==> r.hi - rs[i].lo < size && rs[i].hi - r.lo < size
    ensures FitsAt(size, rs, 0, r)
    ensures Inserted(rs, 0, r, Ranges.Insert(rs, 0, r))
    ensures SortedBut(Ranges.Insert(rs, 0, r), 0) && InWindow(Ranges.Insert(rs, 0, r), size)
  {
  }

  lemma MiddleFits(rs: seq<Range>, k: nat, r: Range, size: int)
    requires SortedBut(rs, -1) && InWindow(rs, size) && 0 < k <= |rs| && r.lo <= r.hi < r.lo + size
    requires rs[k - 1].hi < r.lo && forall j :: k <= j < |rs| ==> r.lo < rs[j].lo
    requires forall i :: 0 <= i < |rs| ==> r.hi - rs[i].lo < size && rs[i].hi - r.lo < size
    ensures FitsAt(size, rs, k, r)
    ensures Inserted(rs, k, r, Ranges.Insert(rs, k, r))
    ensures SortedBut(Ranges.Insert(rs, k, r), k) && InWindow(Ranges.Insert(rs, k, r), size)
  {
    hide SortedBut, InWindow, Inserted, Ranges.Insert;
    AllBefore(rs, k, r);
    InsertIsInserted(rs, k, r);
    InsertFits(rs, k, r, size);
    InsertSorted(rs, k, r, Ranges.Insert(rs, k, r));
    InsertInWindow(rs, k, r, size, Ranges.Insert(rs, k, r));
  }

  lemma InsertIsInserted(rs: seq<Range>, k: nat, r: Range)
    requires k <= |rs|
    ensures Inserted(rs, k, r, Ranges.Insert(rs, k, r))
  {
  }

  lemma AllBefore(rs: seq<Range>, k: nat, r: Range)
    requires SortedBut(rs, -1) && 0 < k <= |rs| && rs[k - 1].hi < r.lo
    ensures NonEmpty(rs)
    ensures forall i :: 0 <= i < k ==> rs[i].hi < r.lo
  {
    forall i | 0 <= i < k ensures rs[i].hi < r.lo {
      if i < k - 1 {
        assert rs[i].hi < rs[k - 1].lo;
      }
    }
  }

  lemma InsertFits(rs: seq<Range>, k: nat, r: Range, size: int)
    requires NonEmpty(rs) && rs != [] && k <= |rs| && r.lo <= r.hi
    requires forall i :: 0 <= i < k ==> rs[i].hi < r.lo
    requires forall j :: k <= j < |rs| ==> r.lo < rs[j].lo
    requires forall i :: 0 <= i < |rs| ==> r.hi - rs[i].lo < size && rs[i].hi - r.lo < size
    ensures FitsAt(size, rs, k, r)
  {
  }

  lemma InsertInWindow(rs: seq<Range>, k: nat, r: Range, size: int, rs': seq<Range>)
    requires InWindow(rs, size) && 0 < k <= |rs| && r.hi - rs[0].lo < size && Inserted(rs, k, r, rs')
    ensures InWindow(rs', size)
  {
  }

  lemma InsertSorted(rs: seq<Range>, k: nat, r: Range, rs': seq<Range>)
    requires SortedBut(rs, -1) && k <= |rs| && r.lo <= r.hi && Inserted(rs, k, r, rs')
    requires forall i :: 0 <= i < k ==> rs[i].hi < r.lo
    requires forall j :: k <= j < |rs| ==> r.lo < rs[j].lo
    ensures SortedBut(rs', k)
  {
    forall i, j | 0 <= i < j < |rs'| ensures rs'[i].lo < rs'[j].lo && (i != k ==> rs'[i].hi < rs'[j].lo) {
      var i0, j0 := if i < k then i else i - 1, if j < k then j else j - 1;
      if i != k && j != k {
        assert rs'[i] == rs[i0] && rs'[j] == rs[j0];
      }
    }
  }

  function Spliced(s: seq<int>, k: nat, x: int): seq<int>
    requires k <= |s|
  {
    s[..k] + [x] + s[k..]
  }

  lemma SplicedIsInserted(s: seq<int>, k: nat, x: int)
    requires k <= |s|
    ensures Inserted(s, k, x, Spliced(s, k, x))
  {
  }

  lemma FreeSlot(m: Mem, n: int, head: int, rs: seq<Range>, slots: seq<int>, k: nat, r: Range)
    requires Rep(m, n, head, rs, slots) && FitsAt(n, rs, k, r)
    ensures var p := Step(head, r.lo - rs[0].lo, n);
            0 <= p < n && Unused(m, n, p) && p !in Used(slots)
  {
    FreshSlot(n, head, rs, slots, r.lo);
  }

  lemma StretchMeaning(rs: seq<Range>, k: nat, a: int, b: int, size: int)
    requires SortedBut(rs, -1) && InWindow(rs, size) && k < |rs|
    requires rs[k].lo <= a <= rs[k].hi + 1 <= b && b - rs[0].lo < size
    ensures var rs' := rs[k := Range(rs[k].lo, b)];
            && rs[k].lo < b
            && Sum(rs') == Sum(rs) + b - rs[k].hi
            && Elems(rs') == Elems(rs) + Interval(a, b)
            && SortedBut(rs', k) && InWindow(rs', size)
  {
    StretchElems(rs, k, a, b);
    StretchSorted(rs, k, b, size);
  }

  lemma StretchElems(rs: seq<Range>, k: nat, a: int, b: int)
    requires k < |rs| && rs[k].lo <= a <= rs[k].hi + 1 <= b
    ensures var rs' := rs[k := Range(rs[k].lo, b)];
            Sum(rs') == Sum(rs) + b - rs[k].hi && Elems(rs') == Elems(rs) + Interval(a, b)
  {
    ReplaceMeaning(rs, k, Range(rs[k].lo, b));
    ElemIn(rs, k);
  }

  lemma StretchSorted(rs: seq<Range>, k: nat, b: int, size: int)
    requires SortedBut(rs, -1) && InWindow(rs, size) && k < |rs| && rs[k].hi < b && b - rs[0].lo < size
    ensures SortedBut(rs[k := Range(rs[k].lo, b)], k) && InWindow(rs[k := Range(rs[k].lo, b)], size)
  {
  }

  /** The two ranges a merge is about, and how far apart their numbers can be. */
  lemma Neighbours(rs: seq<Range>, k: nat, size: int)
    requires SortedBut(rs, k) && InWindow(rs, size) && k + 1 < |rs| && size < SEQ_NO_TH
    ensures var (r, q) := (rs[k], rs[k + 1]);
            && r.lo < q.lo && r.lo <= r.hi && q.lo <= q.hi
            && r.hi - r.lo < size && q.hi - r.lo < size
            && Near(q.lo, r.hi + 1) && Near(q.hi, r.hi) && Near(r.hi, q.lo)
  {
    assert k > 0 ==> rs[0].lo < rs[k].lo;
  }

  lemma HalfMerged(rs: seq<Range>, k: nat, half: seq<Range>, size: int)
    requires SortedBut(rs, k) && InWindow(rs, size) && k + 1 < |rs| && half == rs[k := Merge(rs, k)[k]]
    ensures Ascending(half) && Removed(half, k + 1, Merge(rs, k))
    ensures SortedBut(Merge(rs, k), k) && InWindow(Merge(rs, k), size)
  {
    MergeSorted(rs, k);
  }

  lemma NodesApart(m: Mem, n: int, head: int, rs: seq<Range>, slots: seq<int>, k: nat)
    requires Rep(m, n, head, rs, slots) && SortedBut(rs, k) && k + 1 < |rs|
    ensures |slots| == |rs| && slots[k] != slots[k + 1]
  {
    SlotsDistinct(n, head, rs, slots);
  }

  lemma NoLongerRunsInto(rs: seq<Range>, k: nat)
    requires SortedBut(rs, k) && k < |rs|
    requires k + 1 < |rs| ==> rs[k].lo == rs[k].hi || rs[k].hi + 1 < rs[k + 1].lo
    ensures SortedBut(rs, -1)
  {
    SortedForms(rs, k);
    SortedForms(rs, -1);
  }

  /** The lengths the merge computes on wire numbers. */
  lemma OverlapLengths(r: Range, q: Range, size: int)
    requires r.lo < q.lo <= r.hi + 1 && r.lo <= r.hi && q.lo <= q.hi
    requires r.hi - r.lo < size && q.hi - r.lo < size && size < SEQ_NO_TH
    ensures q.lo <= r.hi ==> Len(Wire(q.lo), Wire(r.hi)) == r.hi - q.lo + 1
    ensures Len(Wire(q.lo), Wire(q.hi)) == q.hi - q.lo + 1
  {
    if q.lo <= r.hi {
      LenIsCount(q.lo, r.hi);
    }
    LenIsCount(q.lo, q.hi);
  }

  // ----- facts used by removal

  lemma NearRanges(rs: seq<Range>, s: int)
    requires Sorted(rs) && forall x :: x in Elems(rs) ==> Near(x, s)
    ensures forall i :: 0 <= i < |rs| ==> Near(rs[i].lo, s) && Near(rs[i].hi, s)
  {
    forall i | 0 <= i < |rs| ensures Near(rs[i].lo, s) && Near(rs[i].hi, s) {
      ElemIn(rs, i);
      assert rs[i].lo in Elems(rs) && rs[i].hi in Elems(rs);
    }
  }

  lemma FirstIsLeast(rs: seq<Range>)
    requires Sorted(rs) && rs != []
    ensures Elems(rs) - {rs[0].lo} == set x | x in Elems(rs) && x > rs[0].lo
  {
    FirstIsMin(rs);
  }

  lemma AllAbove(rs: seq<Range>, s: int)
    requires rs != [] ==> s < rs[0].lo
    requires Sorted(rs)
    ensures Elems(rs) == set x | x in Elems(rs) && x > s
  {
    ElemsAbove(rs, s);
  }

  lemma RangeOrder(rs: seq<Range>, k: nat)
    requires SortedBut(rs, -1) && k < |rs|
    ensures rs[k].lo <= rs[k].hi && forall j :: k < j < |rs| ==> rs[k].lo < rs[j].lo
  {
  }

  /** The node that starts with `s`: it exists exactly when the slot computed for `s` says so. */
  lemma NodeStarting(m: Mem, n: int, head: int, rs: seq<Range>, slots: seq<int>, s: int, p: int) returns (k: int)
    requires Rep(m, n, head, rs, slots) && SortedBut(rs, -1) && InWindow(rs, n) && rs != [] && n < SEQ_NO_TH
    requires rs[0].lo <= s && p == (head + (s - rs[0].lo) + n) % n
    requires forall i :: 0 <= i < |rs| ==> Near(rs[i].lo, s)
    ensures 0 <= p < n && |slots| == |rs|
    ensures m.data1[p] == Wire(s) ==>
      0 <= k < |rs| && rs[k].lo == s && slots[k] == p && forall j :: k < j < |rs| ==> s < rs[j].lo
    ensures m.data1[p] != Wire(s) ==> forall i :: 0 <= i < |rs| ==> rs[i].lo != s
  {
    hide Wire, Rep, Step, InWindow;
    NodeAt(m, n, head, rs, slots, 0);
    k := -1;
    if p in Used(slots) {
      k := NodeIn(slots, p);
      NodeAt(m, n, head, rs, slots, k);
      WireInjective(rs[k].lo, s);
    } else {
      OutsideIsUnused(m, n, head, rs, slots, p);
    }
    forall i | 0 <= i < |rs| && rs[i].lo == s ensures m.data1[p] == Wire(s) {
      NodeAt(m, n, head, rs, slots, i);
      StepIsRemainder(head, s - rs[0].lo, n);
    }
  }

  /** The slot after the one computed for `s` is where a range starting at `s + 1` belongs. */
  lemma NextSlot(head: int, rs: seq<Range>, k: nat, s: int, at: int, n: int)
    requires InWindow(rs, n) && k < |rs| && rs[0].lo <= s < rs[k].hi
    requires 0 <= head < n && at == (head + (s - rs[0].lo) + n) % n
    ensures (at + 1) % n == Step(head, s + 1 - rs[0].lo, n)
  {
    hide Step;
    StepIsRemainder(head, s - rs[0].lo, n);
    StepIsRemainder(at, 1, n);
    StepTwice(head, s - rs[0].lo, 1, n);
  }

  lemma SplitMeaning(rs: seq<Range>, k: nat, s: int, size: int, cut: seq<Range>, r: Range, rs': seq<Range>)
    requires SortedBut(rs, -1) && InWindow(rs, size) && k < |rs| && rs[k].lo <= s < rs[k].hi && size < SEQ_NO_TH
    requires cut == rs[k := Range(rs[k].lo, s)] && r == Range(s + 1, rs[k].hi)
    requires rs' == Ranges.Insert(cut, k + 1, r)
    ensures Elems(rs') == Elems(rs) && Sum(rs') == Sum(rs)
    ensures Ascending(cut) && FitsAt(size, cut, k + 1, r) && Inserted(cut, k + 1, r, rs')
    ensures Sorted(rs') && InWindow(rs', size)
    ensures forall i :: 0 <= i < k + 1 ==> rs'[i].hi <= s
    ensures forall i :: k + 1 <= i < |rs'| ==> s < rs'[i].lo
    ensures Near(r.hi, s + 1)
  {
    hide SortedBut, Sorted, InWindow, Elems, Sum, Ascending, FitsAt, Inserted, Ranges.Insert, Near;
    SplitElems(rs, k, s);
    InsertIsInserted(cut, k + 1, r);
    SplitFits(rs, k, s, size, cut, r);
    SplitSorted(rs, k, s, size, cut, r, rs');
  }

  lemma SplitElems(rs: seq<Range>, k: nat, s: int)
    requires k < |rs| && rs[k].lo <= s < rs[k].hi
    ensures var cut, r := rs[k := Range(rs[k].lo, s)], Range(s + 1, rs[k].hi);
            var rs' := Ranges.Insert(cut, k + 1, r);
            Elems(rs') == Elems(rs) && Sum(rs') == Sum(rs)
  {
    var cut, r := rs[k := Range(rs[k].lo, s)], Range(s + 1, rs[k].hi);
    ReplaceMeaning(rs, k, cut[k]);
    SplitAt(rs, k);
    InsertMeaning(cut, k + 1, r);
    assert Interval(rs[k].lo, rs[k].hi) == Interval(rs[k].lo, s) + Interval(s + 1, rs[k].hi);
  }

  lemma SplitFits(rs: seq<Range>, k: nat, s: int, size: int, cut: seq<Range>, r: Range)
    requires SortedBut(rs, -1) && InWindow(rs, size) && k < |rs| && rs[k].lo <= s < rs[k].hi && size < SEQ_NO_TH
    requires cut == rs[k := Range(rs[k].lo, s)] && r == Range(s + 1, rs[k].hi)
    ensures Ascending(cut) && FitsAt(size, cut, k + 1, r) && Near(r.hi, s + 1)
  {
    assert k > 0 ==> rs[0].lo < rs[k].lo;
    forall i | 0 <= i < |rs| ensures -size < rs[i].lo - r.lo < size {
      assert rs[0].lo <= rs[i].lo <= rs[i].hi;
    }
  }

  lemma SplitSorted(rs: seq<Range>, k: nat, s: int, size: int, cut: seq<Range>, r: Range, rs': seq<Range>)
    requires SortedBut(rs, -1) && InWindow(rs, size) && k < |rs| && rs[k].lo <= s < rs[k].hi
    requires cut == rs[k := Range(rs[k].lo, s)] && r == Range(s + 1, rs[k].hi)
    requires Inserted(cut, k + 1, r, rs')
    ensures Sorted(rs') && InWindow(rs', size)
    ensures forall i :: 0 <= i < k + 1 ==> rs'[i].hi <= s
    ensures forall i :: k + 1 <= i < |rs'| ==> s < rs'[i].lo
  {
    PiecesWithin(rs, k, s, cut, r, rs');
    forall i, j | 0 <= i < j < |rs'| ensures rs'[i].hi < rs'[j].lo {
      if i != k || j != k + 1 {
        assert Source(i, k) < Source(j, k);
      }
    }
    forall i | 0 <= i < |rs'| ensures rs'[i].lo <= rs'[i].hi && rs'[i].hi - rs'[0].lo < size {
      assert rs'[i].hi <= rs[Source(i, k)].hi;
    }
    forall i | k + 1 < i < |rs'| ensures s < rs'[i].lo {
      assert Source(i, k) > k;
    }
  }

  /** Where an entry comes from when range `k` is cut in two. */
  function Source(i: int, k: int): int {
    if i <= k then i else i - 1
  }

  lemma PiecesWithin(rs: seq<Range>, k: nat, s: int, cut: seq<Range>, r: Range, rs': seq<Range>)
    requires NonEmpty(rs) && k < |rs| && rs[k].lo <= s < rs[k].hi
    requires cut == rs[k := Range(rs[k].lo, s)] && r == Range(s + 1, rs[k].hi)
    requires Inserted(cut, k + 1, r, rs')
    ensures |rs'| == |rs| + 1 && rs'[k] == Range(rs[k].lo, s) && rs'[k + 1] == r && rs'[0].lo == rs[0].lo
    ensures forall i :: 0 <= i < |rs'| ==>
              rs[Source(i, k)].lo <= rs'[i].lo <= rs'[i].hi <= rs[Source(i, k)].hi
  {
    forall i | 0 <= i < |rs'|
      ensures rs[Source(i, k)].lo <= rs'[i].lo <= rs'[i].hi <= rs[Source(i, k)].hi
    {
      if i < k {
        assert rs'[i] == cut[i] == rs[i];
      } else if i > k + 1 {
        assert rs'[i] == cut[i - 1] == rs[i - 1];
      }
    }
  }

  lemma FreeSlotFor(m: Mem, n: int, head: int, rs: seq<Range>, slots: seq<int>, cut: seq<Range>, k: nat, r: Range)
    requires Rep(m, n, head, rs, slots) && k < |rs| && |cut| == |rs| && cut == rs[k := cut[k]] && cut[k].lo == rs[k].lo
    requires FitsAt(n, cut, k + 1, r)
    ensures var p := Step(head, r.lo - rs[0].lo, n);
            0 <= p < n && Unused(m, n, p) && p !in Used(slots)
  {
    forall i | 0 <= i < |rs| ensures rs[i].lo != r.lo && -n < rs[i].lo - r.lo < n {
      assert cut[i].lo == rs[i].lo;
    }
    FreshSlot(n, head, rs, slots, r.lo);
  }

  lemma DropFirstMeaning(rs: seq<Range>, s: int, size: int)
    requires Sorted(rs) && InWindow(rs, size) && rs != [] && rs[0].hi <= s
    ensures Ascending(rs) && Sorted(rs[1..]) && InWindow(rs[1..], size)
    ensures rs[0].lo <= rs[0].hi < rs[0].lo + size
    ensures Sum(rs) == Count(rs[0]) + Sum(rs[1..])
    ensures (set x | x in Elems(rs[1..]) && x > s) == set x | x in Elems(rs) && x > s
  {
    SumFirst(rs);
    ElemsFirst(rs);
    assert |rs| > 1 ==> rs[0].lo < rs[1].lo;
  }

  lemma RemoveFirstInWindow(rs: seq<Range>, size: int)
    requires SortedBut(rs, -1) && InWindow(rs, size) && rs != []
    ensures InWindow(RemoveFirst(rs), size)
  {
  }

  lemma RoomToShift(rs: seq<Range>, size: int, k: nat)
    requires SortedBut(rs, -1) && InWindow(rs, size) && k < |rs| && rs[k].lo < rs[k].hi
    ensures rs[k].lo + 1 - rs[0].lo < size && rs[k].hi - rs[k].lo < size
    ensures forall i :: k < i < |rs| ==> rs[k].lo + 1 < rs[i].lo
  {
    assert k > 0 ==> rs[0].hi < rs[k].lo;
    assert rs[0].lo <= rs[0].hi;
  }

  lemma SortedAscends(rs: seq<Range>, k: int)
    requires SortedBut(rs, k)
    ensures Ascending(rs)
  {
  }
}
