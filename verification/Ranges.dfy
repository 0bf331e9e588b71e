/** Sets of numbers kept as a sorted sequence of ranges: what the two loss lists represent. */
module Ranges {
  import opened SenderSpec

  datatype Range = Range(lo: int, hi: int)

  function Count(r: Range): int {
    r.hi - r.lo + 1
  }

  function Sum(rs: seq<Range>): int {
    if rs == [] then 0 else Sum(rs[..|rs| - 1]) + Count(rs[|rs| - 1])
  }

  function Elems(rs: seq<Range>): set<int> {
    if rs == [] then {} else Elems(rs[..|rs| - 1]) + Interval(rs[|rs| - 1].lo, rs[|rs| - 1].hi)
  }

  predicate NonEmpty(rs: seq<Range>) {
    forall i :: 0 <= i < |rs| ==> rs[i].lo <= rs[i].hi
  }

  /** Ranges in increasing order that do not overlap, except that range `k` may run into its
      successors. */
  predicate SortedBut(rs: seq<Range>, k: int) {
    && NonEmpty(rs)
    && (forall i, j :: 0 <= i < j < |rs| ==> rs[i].lo < rs[j].lo)
    && (forall i, j :: 0 <= i < j < |rs| && i != k ==> rs[i].hi < rs[j].lo)
  }

  predicate Sorted(rs: seq<Range>) {
    NonEmpty(rs) && forall i, j :: 0 <= i < j < |rs| ==> rs[i].hi < rs[j].lo
  }

  lemma {:induction false} SumAppend(xs: seq<Range>, ys: seq<Range>)
    ensures Sum(xs + ys) == Sum(xs) + Sum(ys)
  {
    if ys == [] {
      assert xs + ys == xs;
    } else {
      SumAppend(xs, ys[..|ys| - 1]);
      assert (xs + ys)[..|xs + ys| - 1] == xs + ys[..|ys| - 1];
    }
  }

  lemma SumSingle(r: Range)
    ensures Sum([r]) == Count(r)
  {
    assert [r][..0] == [];
  }

  lemma SumAround(xs: seq<Range>, r: Range, ys: seq<Range>)
    ensures Sum(xs + [r] + ys) == Sum(xs) + Count(r) + Sum(ys)
  {
    SumAppend(xs + [r], ys);
    SumAppend(xs, [r]);
    SumSingle(r);
  }

  lemma SumFirst(rs: seq<Range>)
    requires rs != []
    ensures Sum(rs) == Count(rs[0]) + Sum(rs[1..])
  {
    assert rs == [] + [rs[0]] + rs[1..];
    SumAround([], rs[0], rs[1..]);
  }

  lemma {:induction false} ElemsAppend(xs: seq<Range>, ys: seq<Range>)
    ensures Elems(xs + ys) == Elems(xs) + Elems(ys)
  {
    if ys == [] {
      assert xs + ys == xs;
    } else {
      ElemsAppend(xs, ys[..|ys| - 1]);
      assert (xs + ys)[..|xs + ys| - 1] == xs + ys[..|ys| - 1];
    }
  }

  lemma ElemsSingle(r: Range)
    ensures Elems([r]) == Interval(r.lo, r.hi)
  {
    assert [r][..0] == [];
  }

  lemma ElemsAround(xs: seq<Range>, r: Range, ys: seq<Range>)
    ensures Elems(xs + [r] + ys) == Elems(xs) + Interval(r.lo, r.hi) + Elems(ys)
  {
    ElemsAppend(xs + [r], ys);
    ElemsAppend(xs, [r]);
    ElemsSingle(r);
  }

  lemma {:induction false} ElemsBounds(rs: seq<Range>, a: int, b: int)
    requires forall k :: 0 <= k < |rs| ==> a <= rs[k].lo && rs[k].hi <= b
    ensures forall x :: x in Elems(rs) ==> a <= x <= b
  {
    if rs != [] {
      ElemsBounds(rs[..|rs| - 1], a, b);
    }
  }

  lemma {:induction false} ElemIn(rs: seq<Range>, k: nat)
    requires k < |rs|
    ensures forall x :: rs[k].lo <= x <= rs[k].hi ==> x in Elems(rs)
  {
    if k < |rs| - 1 {
      ElemIn(rs[..|rs| - 1], k);
    }
  }

  /** The number of elements of disjoint ranges is the sum of their lengths. */
  lemma {:induction false} SumIsCardinality(rs: seq<Range>)
    requires Sorted(rs)
    ensures |Elems(rs)| == Sum(rs)
  {
    if rs != [] {
      var front, last := rs[..|rs| - 1], rs[|rs| - 1];
      SumIsCardinality(front);
      IntervalSize(last.lo, last.hi);
      if front != [] {
        ElemsBounds(front, front[0].lo, last.lo - 1);
      }
      assert Elems(front) !! Interval(last.lo, last.hi);
    }
  }

  lemma {:induction false} IntervalSize(a: int, b: int)
    requires a <= b + 1
    ensures |Interval(a, b)| == b - a + 1
    decreases b - a
  {
    if a <= b {
      IntervalSize(a, b - 1);
      assert Interval(a, b) == Interval(a, b - 1) + {b};
    }
  }

  lemma SortedForms(rs: seq<Range>, k: int)
    requires k < 0 || k >= |rs| - 1 || rs[k].hi < rs[k + 1].lo
    ensures SortedBut(rs, k) <==> Sorted(rs)
  {
    if SortedBut(rs, k) && 0 <= k < |rs| - 1 {
      assert forall j :: k < j < |rs| ==> rs[k + 1].lo <= rs[j].lo;
    }
  }

  // ----- edits of a sequence of ranges

  function Insert(rs: seq<Range>, k: nat, r: Range): (rs': seq<Range>)
    requires k <= |rs|
    ensures |rs'| == |rs| + 1
    ensures forall i :: 0 <= i < |rs'| ==> rs'[i] == if i < k then rs[i] else if i == k then r else rs[i - 1]
  {
    rs[..k] + [r] + rs[k..]
  }

  function Merge(rs: seq<Range>, k: nat): (rs': seq<Range>)
    requires k + 1 < |rs|
    ensures |rs'| == |rs| - 1
    ensures forall i :: 0 <= i < |rs'| ==>
      rs'[i] == if i < k then rs[i] else if i == k then Range(rs[k].lo, Larger(rs[k].hi, rs[k + 1].hi)) else rs[i + 1]
  {
    rs[..k] + [Range(rs[k].lo, Larger(rs[k].hi, rs[k + 1].hi))] + rs[k + 2..]
  }

  function Larger(a: int, b: int): int {
    if a < b then b else a
  }

  lemma InsertMeaning(rs: seq<Range>, k: nat, r: Range)
    requires k <= |rs|
    ensures Elems(Insert(rs, k, r)) == Elems(rs) + Interval(r.lo, r.hi)
    ensures Sum(Insert(rs, k, r)) == Sum(rs) + Count(r)
  {
    assert rs == rs[..k] + rs[k..];
    SumAround(rs[..k], r, rs[k..]);
    SumAppend(rs[..k], rs[k..]);
    ElemsAround(rs[..k], r, rs[k..]);
    ElemsAppend(rs[..k], rs[k..]);
  }

  lemma SplitAt(rs: seq<Range>, k: nat)
    requires k < |rs|
    ensures Elems(rs) == Elems(rs[..k]) + Interval(rs[k].lo, rs[k].hi) + Elems(rs[k + 1..])
    ensures Sum(rs) == Sum(rs[..k]) + Count(rs[k]) + Sum(rs[k + 1..])
  {
    assert rs == rs[..k] + [rs[k]] + rs[k + 1..];
    SumAround(rs[..k], rs[k], rs[k + 1..]);
    ElemsAround(rs[..k], rs[k], rs[k + 1..]);
  }

  lemma MergeMeaning(rs: seq<Range>, k: nat)
    requires SortedBut(rs, k) && k + 1 < |rs| && rs[k + 1].lo <= rs[k].hi + 1
    ensures Elems(Merge(rs, k)) == Elems(rs)
    ensures Sum(Merge(rs, k)) ==
            Sum(rs) - Count(rs[k]) - Count(rs[k + 1]) + Larger(rs[k].hi, rs[k + 1].hi) - rs[k].lo + 1
  {
    hide Elems, Sum, Merge;
    MergeParts(rs, k);
  }

  lemma MergeParts(rs: seq<Range>, k: nat)
    requires k + 1 < |rs| && rs[k].lo <= rs[k + 1].lo <= rs[k].hi + 1 && rs[k].lo <= rs[k].hi
    requires rs[k + 1].lo <= rs[k + 1].hi
    ensures Elems(Merge(rs, k)) == Elems(rs)
    ensures Sum(Merge(rs, k)) ==
            Sum(rs) - Count(rs[k]) - Count(rs[k + 1]) + Larger(rs[k].hi, rs[k + 1].hi) - rs[k].lo + 1
  {
    hide Elems, Sum;
    var m := Range(rs[k].lo, Larger(rs[k].hi, rs[k + 1].hi));
    SplitAt(rs, k);
    SumFirst(rs[k + 1..]);
    ElemsFirst(rs[k + 1..]);
    assert rs[k + 1..][1..] == rs[k + 2..];
    SumAround(rs[..k], m, rs[k + 2..]);
    ElemsAround(rs[..k], m, rs[k + 2..]);
    assert Interval(m.lo, m.hi) == Interval(rs[k].lo, rs[k].hi) + Interval(rs[k + 1].lo, rs[k + 1].hi);
  }

  lemma MergeSorted(rs: seq<Range>, k: nat)
    requires SortedBut(rs, k) && k + 1 < |rs|
    ensures SortedBut(Merge(rs, k), k)
  {
  }

  lemma ReplaceMeaning(rs: seq<Range>, k: nat, r: Range)
    requires k < |rs|
    ensures Sum(rs[k := r]) == Sum(rs) - Count(rs[k]) + Count(r)
    ensures Elems(rs[k := r]) == Elems(rs[..k]) + Interval(r.lo, r.hi) + Elems(rs[k + 1..])
    ensures r.lo <= rs[k].lo && rs[k].hi <= r.hi ==> Elems(rs[k := r]) == Elems(rs) + Interval(r.lo, r.hi)
  {
    SplitAt(rs, k);
    assert rs[k := r] == rs[..k] + [r] + rs[k + 1..];
    SumAround(rs[..k], r, rs[k + 1..]);
    ElemsAround(rs[..k], r, rs[k + 1..]);
  }

  lemma {:induction false} ElemsAbove(rs: seq<Range>, limit: int)
    requires forall k :: 0 <= k < |rs| ==> limit < rs[k].lo
    ensures forall x :: x in Elems(rs) ==> limit < x
  {
    if rs != [] {
      ElemsAbove(rs[..|rs| - 1], limit);
    }
  }

  lemma {:induction false} ElemsBelow(rs: seq<Range>, limit: int)
    requires forall k :: 0 <= k < |rs| ==> rs[k].hi <= limit
    ensures forall x :: x in Elems(rs) ==> x <= limit
  {
    if rs != [] {
      ElemsBelow(rs[..|rs| - 1], limit);
    }
  }

  lemma {:induction false} SumNotNegative(rs: seq<Range>)
    requires NonEmpty(rs)
    ensures Sum(rs) >= |rs|
  {
    if rs != [] {
      SumNotNegative(rs[..|rs| - 1]);
    }
  }

  lemma FirstIsMin(rs: seq<Range>)
    requires Sorted(rs) && rs != []
    ensures Elems(rs) != {} && Min(Elems(rs)) == rs[0].lo
  {
    ElemIn(rs, 0);
    assert rs[0].lo in Elems(rs);
    ElemsAbove(rs, rs[0].lo - 1);
    assert IsMin(Elems(rs), rs[0].lo);
  }

  /** The ranges after the smallest number is taken away. */
  function RemoveFirst(rs: seq<Range>): seq<Range>
    requires rs != []
  {
    if rs[0].lo == rs[0].hi then rs[1..] else [Range(rs[0].lo + 1, rs[0].hi)] + rs[1..]
  }

  lemma RemoveFirstSum(rs: seq<Range>)
    requires rs != []
    ensures Sum(RemoveFirst(rs)) == Sum(rs) - 1
  {
    SumFirst(rs);
    var rs' := RemoveFirst(rs);
    if rs[0].lo != rs[0].hi {
      SumFirst(rs');
      assert rs'[1..] == rs[1..];
    }
  }

  lemma ElemsFirst(rs: seq<Range>)
    requires rs != []
    ensures Elems(rs) == Interval(rs[0].lo, rs[0].hi) + Elems(rs[1..])
  {
    assert rs == [] + [rs[0]] + rs[1..];
    ElemsAround([], rs[0], rs[1..]);
  }

  lemma TailIsAbove(rs: seq<Range>)
    requires Sorted(rs) && rs != []
    ensures rs[0].lo <= rs[0].hi
    ensures forall x :: x in Elems(rs[1..]) ==> rs[0].hi < x
  {
    var rest := rs[1..];
    assert forall k :: 0 <= k < |rest| ==> rest[k] == rs[k + 1];
    ElemsAbove(rest, rs[0].hi);
  }

  lemma RemoveFirstElems(rs: seq<Range>)
    requires Sorted(rs) && rs != []
    ensures Elems(RemoveFirst(rs)) == Elems(rs) - {rs[0].lo}
  {
    TailIsAbove(rs);
    ShortenFirst(rs);
  }

  lemma ShortenFirst(rs: seq<Range>)
    requires rs != [] && rs[0].lo <= rs[0].hi && forall x :: x in Elems(rs[1..]) ==> rs[0].hi < x
    ensures Elems(RemoveFirst(rs)) == Elems(rs) - {rs[0].lo}
  {
    ElemsFirst(rs);
    var rs' := RemoveFirst(rs);
    if rs[0].lo != rs[0].hi {
      ElemsFirst(rs');
      assert rs'[1..] == rs[1..];
    }
  }

  lemma RemoveFirstSorted(rs: seq<Range>)
    requires Sorted(rs) && rs != []
    ensures Sorted(RemoveFirst(rs))
  {
  }

  lemma EmptyIffZero(rs: seq<Range>)
    requires Sorted(rs)
    ensures Sum(rs) == 0 <==> rs == []
    ensures Elems(rs) == {} <==> rs == []
  {
    SumNotNegative(rs);
    if rs != [] {
      ElemIn(rs, 0);
      assert rs[0].lo in Elems(rs);
    }
  }

  lemma RemoveFirstMeaning(rs: seq<Range>)
    requires Sorted(rs) && rs != []
    ensures rs[0].lo <= rs[0].hi
    ensures Elems(RemoveFirst(rs)) == Elems(rs) - {rs[0].lo}
    ensures Sum(RemoveFirst(rs)) == Sum(rs) - 1
    ensures Sorted(RemoveFirst(rs))
  {
    RemoveFirstElems(rs);
    RemoveFirstSum(rs);
    RemoveFirstSorted(rs);
  }
}
