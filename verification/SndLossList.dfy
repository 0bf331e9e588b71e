/** The sender's loss list (udt4/src/list.cpp:43-418): ranges of lost sequence numbers in a linked
    list threaded through fixed arrays.

    The arrays hold wrapped numbers.  `ranges` are the unbounded numbers they stand for; methods
    take the unbounded numbers of their arguments as ghost parameters. */
module SndLossLists {
  import opened SeqNo
  import opened Ring
  import opened Ranges
  import opened LinkedRanges
  import opened LossListFacts
  import opened SenderSpec

  class SndLossList {
    const size: int
    const data1: array<int>   // sequence number starts, -1 in an unused slot
    const data2: array<int>   // sequence number ends, -1 if the range is a single number
    const next: array<int>
    var head: int
    var length: int
    var lastInsertPos: int    // where the last insertion took place, or -1

    ghost var ranges: seq<Range>  // the ranges in list order
    ghost var slots: seq<int>     // where they sit

    ghost function Contents(): set<int>
      reads this
    {
      Elems(ranges)
    }

    ghost function Memory(): Mem
      reads this, data1, data2, next
    {
      Mem(data1[..], data2[..], next[..])
    }

    ghost predicate Shape() {
      && 0 < size < SEQ_NO_TH
      && data1.Length == data2.Length == next.Length == size
      && data1 != data2 && data1 != next && data2 != next
    }

    /** The list is well formed, except that range `k` may run into its successors. */
    ghost predicate Inv(k: int)
      reads this, data1, data2, next
    {
      && Shape()
      && Rep(Memory(), size, head, ranges, slots) && |slots| == |ranges|
      && SortedBut(ranges, k) && InWindow(ranges, size)
      && length == Sum(ranges)
      && (lastInsertPos == -1 || lastInsertPos in Used(slots))
    }

    ghost predicate Valid()
      reads this, data1, data2, next
    {
      Inv(-1)
    }

    constructor (n: int)
      requires 0 < n < SEQ_NO_TH
      ensures Valid() && Contents() == {} && size == n
      ensures fresh(data1) && fresh(data2) && fresh(next)
    {
      size := n;
      data1 := new int[n](_ => -1);
      data2 := new int[n](_ => -1);
      next := new int[n];
      head := -1;
      length := 0;
      lastInsertPos := -1;
      ranges, slots := [], [];
    }

    method GetLossLength() returns (n: int)
      requires Valid()
      ensures n == |Contents()|
    {
      SortedForms(ranges, -1);
      SumIsCardinality(ranges);
      return length;
    }

    /** The slot `offset` places from the head. */
    method SlotAt(offset: int) returns (loc: int)
      requires 0 <= head < size && -size < offset < size
      ensures loc == Step(head, offset, size)
    {
      StepIsRemainder(head, offset, size);
      loc := (head + offset + size) % size;
    }

    /** Add the numbers `a..b`.  Together with what the list holds they must fit its slots. */
    method Insert(seqno1: int, seqno2: int, ghost a: int, ghost b: int) returns (added: int)
      requires Valid() && seqno1 == Wire(a) && seqno2 == Wire(b) && a <= b
      requires RoomFor(Contents(), a, b, size)
      modifies this, data1, data2, next
      ensures Valid()
      ensures Contents() == old(Contents()) + Interval(a, b)
      ensures added == |Interval(a, b) - old(Contents())|
    {
      hide Rep, Elems, Sum, Wire, Cmp, Len, Off, Step, SortedBut, Sorted, InWindow, Used;
      SortedForms(ranges, -1);
      EmptyIffZero(ranges);
      IntervalSize(a, b);
      if length == 0 {
        InsertFirst(seqno1, seqno2, a, b);
        SortedForms(ranges, -1);
        return length;
      }
      SumIsCardinality(ranges);
      UnionSize(Contents(), Interval(a, b));
      RoomOnRanges(ranges, a, b, size);
      ghost var m := Memory();
      NodeAt(m, size, head, ranges, slots, 0);
      OffIsDistance(ranges[0].lo, a);
      var origlen := length;
      var offset := Off(data1[head], seqno1);
      var loc := SlotAt(offset);
      ghost var k := SlotOf(m, size, head, ranges, slots, a);

      if offset < 0 {
        PlaceFront(loc, seqno1, seqno2, a, b);
        k := 0;
      } else if offset > 0 {
        if seqno1 == data1[loc] {
          lastInsertPos := loc;
          NodeAt(m, size, head, ranges, slots, k);
          UsedHas(slots, k);
          var grown := StretchExisting(loc, seqno1, seqno2, k, a, b);
          if !grown {
            ContainedAlready(ranges, k, a, b);
            return 0;
          }
        } else {
          var i;
          i, k := FindPrior(seqno1, a);
          NodeAt(m, size, head, ranges, slots, k);
          UsedHas(slots, k);
          CmpIsOrder(ranges[k].hi, a);
          if data2[i] == -1 || Cmp(data2[i], seqno1) < 0 {
            PlaceAfter(i, loc, seqno1, seqno2, k, a, b);
            k := k + 1;
          } else {
            lastInsertPos := i;
            CmpIsOrder(ranges[k].hi, b);
            if Cmp(data2[i], seqno2) < 0 {
              LenIsCount(ranges[k].hi, b);
              Stretch(i, Len(data2[i], seqno2) - 1, seqno2, k, a, b);
              loc := i;
            } else {
              ContainedAlready(ranges, k, a, b);
              return 0;
            }
          }
        }
      } else {
        lastInsertPos := head;
        UsedHas(slots, 0);
        k := 0;
        if seqno2 != seqno1 {
          var grown := StretchExisting(loc, seqno1, seqno2, 0, a, b);
          if !grown {
            ContainedAlready(ranges, 0, a, b);
            return 0;
          }
        } else {
          WireInjective(a, b);
          ContainedAlready(ranges, 0, a, b);
          return 0;
        }
      }
      Coalesce(loc, k);
      SortedForms(ranges, -1);
      SumIsCardinality(ranges);
      return length - origlen;
    }

    /** The very first range goes into slot 0. */
    method InsertFirst(seqno1: int, seqno2: int, ghost a: int, ghost b: int)
      requires Valid() && ranges == [] && length == 0 && seqno1 == Wire(a) && seqno2 == Wire(b) && a <= b < a + size
      modifies this, data1, data2, next
      ensures Inv(-1) && ranges == [Range(a, b)] && length == b - a + 1
      ensures Contents() == Interval(a, b)
    {
      hide Wire, Cmp, Len;
      ghost var m := Memory();
      EmptyIsUnused(m, size, head, slots);
      assert Unused(m, size, 0);
      WireInjective(a, b);
      LenIsCount(a, b);
      head := 0;
      data1[head] := seqno1;
      if seqno2 != seqno1 {
        data2[head] := seqno2;
      }
      next[head] := -1;
      lastInsertPos := head;
      length := length + Len(seqno1, seqno2);
      assert data2[..] == m.data2[0 := End(Range(a, b))];
      RepSingle(m, size, 0, Range(a, b), Memory());
      ranges, slots := [Range(a, b)], [0];
      UsedHas(slots, 0);
      SumSingle(ranges[0]);
      ElemsSingle(ranges[0]);
    }

    /** A new node before the head. */
    method PlaceFront(loc: int, seqno1: int, seqno2: int, ghost a: int, ghost b: int)
      requires Valid() && ranges != [] && seqno1 == Wire(a) && seqno2 == Wire(b) && a <= b < a + size
      requires a < ranges[0].lo && loc == Step(head, a - ranges[0].lo, size)
      requires forall i :: 0 <= i < |ranges| ==> b - ranges[i].lo < size && ranges[i].hi - a < size
      modifies this, data1, data2, next
      ensures Inv(0) && ranges != [] && slots[0] == loc && lastInsertPos == loc
      ensures Contents() == old(Contents()) + Interval(a, b)
    {
      hide Rep, Elems, Sum, Wire, Len, Step, Used, SortedBut, InWindow, Ascending, LinkedIn, FitsAt, Ranges.Insert,
        Spliced;
      ghost var m, r := Memory(), Range(a, b);
      WireInjective(a, b);
      LenIsCount(a, b);
      SortedAscends(ranges, -1);
      FrontFits(ranges, r, size);
      FreeSlot(m, size, head, ranges, slots, 0, r);
      NodeAt(m, size, head, ranges, slots, 0);
      InsertMeaning(ranges, 0, r);

      data1[loc] := seqno1;
      if seqno2 != seqno1 {
        data2[loc] := seqno2;
      }
      next[loc] := head;
      ghost var h := head;
      head := loc;
      lastInsertPos := loc;
      length := length + Len(seqno1, seqno2);

      assert data1[..] == m.data1[loc := Wire(a)];
      assert data2[..] == m.data2[loc := End(r)];
      assert next[..] == m.next[loc := h];
      ghost var rs, ss := Ranges.Insert(ranges, 0, r), Spliced(slots, 0, loc);
      SplicedIsInserted(slots, 0, loc);
      LinkedInAt(m, size, slots, 0, loc, r, Memory());
      RepAfterInsert(m, size, h, ranges, slots, 0, r, Memory(), rs, ss);
      ranges, slots := rs, ss;
      UsedHas(slots, 0);
    }

    /** A new node after node `k`, which sits in slot `i`. */
    method PlaceAfter(i: int, loc: int, seqno1: int, seqno2: int, ghost k: nat, ghost a: int, ghost b: int)
      requires Valid() && k < |ranges| && seqno1 == Wire(a) && seqno2 == Wire(b) && a <= b < a + size
      requires ranges[k].hi < a && i == slots[k] && loc == Step(head, a - ranges[0].lo, size)
      requires forall j :: k < j < |ranges| ==> a < ranges[j].lo
      requires forall j :: 0 <= j < |ranges| ==> b - ranges[j].lo < size && ranges[j].hi - a < size
      modifies this, data1, data2, next
      ensures Inv(k + 1) && k + 1 < |ranges| && slots[k + 1] == loc && lastInsertPos == loc
      ensures Contents() == old(Contents()) + Interval(a, b)
    {
      hide Rep, Elems, Sum, Wire, Len, Step, Used, SortedBut, InWindow, Ascending, LinkedIn, FitsAt, Ranges.Insert,
        Spliced;
      ghost var m, r := Memory(), Range(a, b);
      WireInjective(a, b);
      LenIsCount(a, b);
      SortedAscends(ranges, -1);
      MiddleFits(ranges, k + 1, r, size);
      FreeSlot(m, size, head, ranges, slots, k + 1, r);
      NodeAt(m, size, head, ranges, slots, k);
      InsertMeaning(ranges, k + 1, r);

      lastInsertPos := loc;
      data1[loc] := seqno1;
      if seqno2 != seqno1 {
        data2[loc] := seqno2;
      }
      next[loc] := next[i];
      next[i] := loc;
      length := length + Len(seqno1, seqno2);

      assert data1[..] == m.data1[loc := Wire(a)];
      assert data2[..] == m.data2[loc := End(r)];
      assert next[..] == m.next[loc := m.next[i]][i := loc];
      ghost var rs, ss := Ranges.Insert(ranges, k + 1, r), Spliced(slots, k + 1, loc);
      SplicedIsInserted(slots, k + 1, loc);
      LinkedInAt(m, size, slots, k + 1, loc, r, Memory());
      RepAfterInsert(m, size, head, ranges, slots, k + 1, r, Memory(), rs, ss);
      ranges, slots := rs, ss;
      UsedHas(slots, k + 1);
    }

    /** Let range `k`, which sits in slot `loc`, end at `b`. */
    method Stretch(loc: int, grown: int, seqno2: int, ghost k: nat, ghost a: int, ghost b: int)
      requires Inv(-1) && k < |ranges| && loc == slots[k] && seqno2 == Wire(b)
      requires ranges[k].lo <= a <= ranges[k].hi + 1 <= b && grown == b - ranges[k].hi && b - ranges[0].lo < size
      modifies `length, `ranges, data2
      ensures Inv(k) && ranges == old(ranges)[k := Range(old(ranges)[k].lo, b)]
      ensures Contents() == old(Contents()) + Interval(a, b)
    {
      hide Rep, Elems, Sum, Wire, Step, Used, SortedBut, InWindow, Ascending;
      ghost var m := Memory();
      NodeAt(m, size, head, ranges, slots, k);
      SortedAscends(ranges, -1);
      StretchMeaning(ranges, k, a, b, size);
      length := length + grown;
      data2[loc] := seqno2;
      assert data2[..] == m.data2[slots[k] := End(Range(ranges[k].lo, b))];
      RepAfterSetEnd(m, size, head, ranges, slots, k, b, Memory());
      ranges := ranges[k := Range(ranges[k].lo, b)];
    }

    /** Let a range that starts at `a` reach at least to `b`; the answer is false if it does already
        and more than one number is in it. */
    method StretchExisting(loc: int, seqno1: int, seqno2: int, ghost k: nat, ghost a: int, ghost b: int)
      returns (grown: bool)
      requires Inv(-1) && k < |ranges| && loc == slots[k] && ranges[k].lo == a <= b
      requires seqno1 == Wire(a) && seqno2 == Wire(b) && b - ranges[0].lo < size && ranges[k].hi - a < size
      modifies `length, `ranges, data2
      ensures !grown ==> Inv(-1) && ranges == old(ranges) && length == old(length) && b <= ranges[k].hi
      ensures grown ==> Inv(k) && Contents() == old(Contents()) + Interval(a, b) && |ranges| == |old(ranges)|
    {
      hide Rep, Elems, Sum, Wire, Cmp, Len, Step, Used, InWindow, Ascending;
      NodeAt(Memory(), size, head, ranges, slots, k);
      WireInjective(a, b);
      if data2[loc] == -1 {
        if seqno2 != seqno1 {
          LenIsCount(a, b);
          Stretch(loc, Len(seqno1, seqno2) - 1, seqno2, k, a + 1, b);
          assert Interval(a, b) == {a} + Interval(a + 1, b);
        }
        ElemIn(old(ranges), k);
        assert a in old(Contents());
        return true;
      }
      CmpIsOrder(b, ranges[k].hi);
      if Cmp(seqno2, data2[loc]) > 0 {
        LenIsCount(ranges[k].hi, b);
        ghost var hi := ranges[k].hi;
        Stretch(loc, Len(data2[loc], seqno2) - 1, seqno2, k, hi + 1, b);
        ElemIn(old(ranges), k);
        assert Interval(a, b) == Interval(a, hi) + Interval(hi + 1, b);
        return true;
      }
      return false;
    }

    /** The last node that starts before `a`, searched from the last insertion if that helps. */
    method FindPrior(seqno1: int, ghost a: int) returns (i: int, ghost k: nat)
      requires Inv(-1) && ranges != [] && seqno1 == Wire(a) && ranges[0].lo < a
      requires forall j :: 0 <= j < |ranges| ==> Near(ranges[j].lo, a)
      ensures k < |ranges| && i == slots[k] && ranges[k].lo < a
      ensures forall j :: k < j < |ranges| ==> a <= ranges[j].lo
    {
      hide Rep, Elems, Sum, Wire, Cmp, Step, SortedBut, InWindow, Near;
      NodeAt(Memory(), size, head, ranges, slots, 0);
      i, k := head, 0;
      if lastInsertPos != -1 {
        ghost var h := NodeIn(slots, lastInsertPos);
        NodeAt(Memory(), size, head, ranges, slots, h);
        CmpIsOrder(ranges[h].lo, a);
        if Cmp(data1[lastInsertPos], seqno1) < 0 {
          i, k := lastInsertPos, h;
        }
      }
      i, k := FindFrom(i, seqno1, k, a);
    }

    /** Walk on from node `from` to the last node that starts before `a`. */
    method FindFrom(start: int, seqno1: int, ghost from: nat, ghost a: int) returns (i: int, ghost k: nat)
      requires Inv(-1) && from < |ranges| && start == slots[from] && ranges[from].lo < a && seqno1 == Wire(a)
      requires forall j :: 0 <= j < |ranges| ==> Near(ranges[j].lo, a)
      ensures k < |ranges| && i == slots[k] && ranges[k].lo < a
      ensures forall j :: k < j < |ranges| ==> a <= ranges[j].lo
    {
      hide Rep, Elems, Sum, Wire, Cmp, Step, SortedBut, InWindow, Near;
      SortedAscends(ranges, -1);
      i, k := start, from;
      NextNode(k, a);
      while next[i] != -1 && Cmp(data1[next[i]], seqno1) < 0
        invariant k < |ranges| && i == slots[k] && ranges[k].lo < a && 0 <= i < size
        invariant next[i] == Succ(slots, k)
        invariant k + 1 < |ranges| ==> 0 <= slots[k + 1] < size && data1[slots[k + 1]] == Wire(ranges[k + 1].lo)
        invariant k + 1 < |ranges| ==> SameSign(Cmp(Wire(ranges[k + 1].lo), Wire(a)), ranges[k + 1].lo - a)
        decreases |ranges| - k
      {
        i, k := next[i], k + 1;
        NextNode(k, a);
      }
    }

    /** What node `k` and its successor look like to a search for `a`. */
    lemma NextNode(k: nat, a: int)
      requires Inv(-1) && k < |ranges| && forall j :: 0 <= j < |ranges| ==> Near(ranges[j].lo, a)
      ensures 0 <= slots[k] < size && next[slots[k]] == Succ(slots, k)
      ensures k + 1 < |ranges| ==> 0 <= slots[k + 1] < size && data1[slots[k + 1]] == Wire(ranges[k + 1].lo)
      ensures k + 1 < |ranges| ==> SameSign(Cmp(Wire(ranges[k + 1].lo), Wire(a)), ranges[k + 1].lo - a)
    {
      hide Rep, Wire, Cmp, SortedBut, InWindow, Near, Sum;
      NodeAt(Memory(), size, head, ranges, slots, k);
      if k + 1 < |ranges| {
        NodeAt(Memory(), size, head, ranges, slots, k + 1);
        CmpIsOrder(ranges[k + 1].lo, a);
      }
    }

    /** Let range `k` swallow the successors it runs into or touches. */
    method Coalesce(loc: int, ghost k: nat)
      requires Inv(k) && k < |ranges| && loc == slots[k] && lastInsertPos == loc
      modifies `length, `ranges, `slots, data1, data2, next
      ensures Inv(-1) && Contents() == old(Contents())
    {
      hide Rep, Elems, Sum, Wire, Cmp, Len, Inc, Step, SortedBut, InWindow, Used, Merge;
      NodeAt(Memory(), size, head, ranges, slots, k);
      while next[loc] != -1 && data2[loc] != -1
        invariant Inv(k) && k < |ranges| && loc == slots[k] && lastInsertPos == loc
        invariant 0 <= loc < size && data2[loc] == End(ranges[k]) && next[loc] == Succ(slots, k)
        invariant Contents() == old(Contents())
        decreases |ranges|
      {
        var i := next[loc];
        if k + 1 < |ranges| {
          NodeAt(Memory(), size, head, ranges, slots, k + 1);
          NodesApart(Memory(), size, head, ranges, slots, k);
          Neighbours(ranges, k, size);
          IncIsSuccessor(ranges[k].hi);
          CmpIsOrder(ranges[k + 1].lo, ranges[k].hi + 1);
        }
        if Cmp(data1[i], Inc(data2[loc])) <= 0 {
          ghost var before := ranges;
          AbsorbEnd(loc, i, k);
          UnlinkNext(loc, i, k, before);
          MergeMeaning(before, k);
          NodeAt(Memory(), size, head, ranges, slots, k);
        } else {
          assert ranges[k].hi + 1 < ranges[k + 1].lo;
          break;
        }
      }
      if k + 1 < |ranges| {
        NodeAt(Memory(), size, head, ranges, slots, k + 1);
      }
      NoLongerRunsInto(ranges, k);
    }

    /** The state between the two halves of a merge: range `k` already ends where the merged range
        will, but its successor is still there. */
    ghost predicate Absorbing(k: int, before: seq<Range>)
      reads this, data1, data2, next
    {
      && Shape() && 0 <= k && k + 1 < |before|
      && Rep(Memory(), size, head, ranges, slots) && |slots| == |ranges|
      && ranges == before[k := Merge(before, k)[k]]
      && length == Sum(Merge(before, k))
      && (lastInsertPos == -1 || lastInsertPos in Used(slots))
    }

    /** First half of a merge: account for the overlap and move the end. */
    method AbsorbEnd(loc: int, i: int, ghost k: nat)
      requires Inv(k) && k + 1 < |ranges| && loc == slots[k] && i == slots[k + 1]
      requires ranges[k].lo < ranges[k].hi && ranges[k + 1].lo <= ranges[k].hi + 1
      modifies `length, `ranges, data2
      ensures Absorbing(k, old(ranges))
    {
      hide Rep, Elems, Sum, Wire, Cmp, Len, Inc, Step, SortedBut, InWindow, Used, Ascending;
      ghost var m, r, q := Memory(), ranges[k], ranges[k + 1];
      NodeAt(m, size, head, ranges, slots, k);
      NodeAt(m, size, head, ranges, slots, k + 1);
      SortedAscends(ranges, k);
      Neighbours(ranges, k, size);
      MergeMeaning(ranges, k);
      CmpIsOrder(q.hi, r.hi);
      CmpIsOrder(r.hi, q.lo);
      IncIsSuccessor(r.hi);
      WireInjective(q.lo, r.hi + 1);
      OverlapLengths(r, q, size);
      if data2[i] != -1 {
        if Cmp(data2[i], data2[loc]) > 0 {
          if Cmp(data2[loc], data1[i]) >= 0 {
            length := length - Len(data1[i], data2[loc]);
          }
          data2[loc] := data2[i];
        } else {
          length := length - Len(data1[i], data2[i]);
        }
      } else {
        if data1[i] == Inc(data2[loc]) {
          data2[loc] := data1[i];
        } else {
          length := length - 1;
        }
      }
      ghost var hi := Larger(r.hi, q.hi);
      assert data2[..] == m.data2[slots[k] := End(Range(r.lo, hi))];
      RepAfterSetEnd(m, size, head, ranges, slots, k, hi, Memory());
      ranges := ranges[k := Range(r.lo, hi)];
    }

    /** Second half of a merge: take the swallowed node out of the list. */
    method UnlinkNext(loc: int, i: int, ghost k: nat, ghost before: seq<Range>)
      requires Absorbing(k, before) && SortedBut(before, k) && InWindow(before, size)
      requires loc == slots[k] && i == slots[k + 1] && before[k + 1].lo <= before[k].hi + 1
      requires lastInsertPos != i
      modifies `ranges, `slots, data1, data2, next
      ensures Inv(k) && ranges == Merge(before, k) && slots[k] == loc
    {
      hide Rep, Elems, Sum, Wire, Step, SortedBut, InWindow, Used, Ascending, Merge;
      ghost var m := Memory();
      NodeAt(m, size, head, ranges, slots, k);
      NodeAt(m, size, head, ranges, slots, k + 1);
      data1[i] := -1;
      data2[i] := -1;
      next[loc] := next[i];
      assert data1[..] == m.data1[i := -1];
      assert data2[..] == m.data2[i := -1];
      assert next[..] == m.next[loc := m.next[i]];
      ghost var rs, ss := Merge(before, k), slots[..k + 1] + slots[k + 2..];
      HalfMerged(before, k, ranges, size);
      RepAfterUnlink(m, size, head, ranges, slots, k + 1, Memory(), rs, ss);
      ranges, slots := rs, ss;
    }

    /** Take the smallest number out of the list. */
    method GetLostSeq() returns (seqno: int)
      requires Valid()
      modifies this, data1, data2, next
      ensures Valid()
      ensures old(Contents()) == {} ==> seqno == -1 && Contents() == {}
      ensures old(Contents()) != {} ==>
        var m := Min(old(Contents()));
        seqno == Wire(m) && Contents() == old(Contents()) - {m}
    {
      hide Rep, Elems, Sum, Wire, Inc, Min, SortedBut, Sorted, InWindow, RemoveFirst;
      SortedForms(ranges, -1);
      EmptyIffZero(ranges);
      if length == 0 {
        return -1;
      }
      NodeAt(Memory(), size, head, ranges, slots, 0);
      FirstIsMin(ranges);
      RemoveFirstMeaning(ranges);
      RemoveFirstInWindow(ranges, size);
      if lastInsertPos == head {
        lastInsertPos := -1;
      }
      seqno := data1[head];
      assert data2[head] == End(ranges[0]);
      if data2[head] == -1 {
        DropHead();
      } else {
        ShiftHead();
      }
      length := length - 1;
      SortedForms(ranges, -1);
    }

    /** Remove every number up to and including `s`, the position of `seqno`. */
    method Remove(seqno: int, ghost s: int)
      requires Valid() && seqno == Wire(s) && forall x :: x in Contents() ==> Near(x, s)
      modifies this, data1, data2, next
      ensures Valid()
      ensures Contents() == set x | x in old(Contents()) && x > s
    {
      hide Rep, Elems, Sum, Wire, Cmp, Off, Inc, Step, SortedBut, Sorted, InWindow, Used, RemoveFirst, Ascending,
        Near;
      SortedForms(ranges, -1);
      EmptyIffZero(ranges);
      if length == 0 {
        return;
      }
      NearRanges(ranges, s);
      NodeAt(Memory(), size, head, ranges, slots, 0);
      OffIsDistance(ranges[0].lo, s);
      var offset := Off(data1[head], seqno);
      var loc := (head + offset + size) % size;
      if offset == 0 {
        RemoveFirstMeaning(ranges);
        RemoveFirstInWindow(ranges, size);
        FirstIsLeast(ranges);
        if lastInsertPos == head {
          lastInsertPos := -1;
        }
        assert data2[head] == End(ranges[0]);
        if data2[head] == -1 {
          DropHead();
        } else {
          ShiftHead();
        }
        length := length - 1;
        SortedForms(ranges, -1);
      } else if offset > 0 {
        var h := head;
        ghost var j := SetNewHead(loc, seqno, s);
        DropUpTo(h, j, s);
      } else {
        AllAbove(ranges, s);
      }
    }

    /** The list between the move of the head and the clearing of the nodes before it: it still
        starts at `h`, but the head is node `j`, and `s` lies between the two parts. */
    ghost predicate Cut(h: int, j: int, s: int)
      reads this, data1, data2, next
    {
      && Shape() && 0 <= j <= |ranges|
      && Rep(Memory(), size, h, ranges, slots) && |slots| == |ranges|
      && Sorted(ranges) && InWindow(ranges, size)
      && length == Sum(ranges)
      && (lastInsertPos == -1 || lastInsertPos in Used(slots))
      && head == (if j < |ranges| then slots[j] else -1)
      && h == (if ranges != [] then slots[0] else -1)
      && (forall i :: 0 <= i < j ==> ranges[i].hi <= s)
      && (forall i :: j <= i < |ranges| ==> s < ranges[i].lo)
    }

    /** Find or make the node that starts right after `s`, and let the head point to it. */
    method SetNewHead(at: int, seqno: int, ghost s: int) returns (ghost j: int)
      requires Valid() && ranges != [] && seqno == Wire(s) && ranges[0].lo < s
      requires forall i :: 0 <= i < |ranges| ==> Near(ranges[i].lo, s) && Near(ranges[i].hi, s)
      requires at == (head + (s - ranges[0].lo) + size) % size
      modifies `head, `ranges, `slots, data1, data2, next
      ensures Cut(old(head), j, s) && Contents() == old(Contents())
    {
      hide Rep, Elems, Sum, Wire, Cmp, Step, SortedBut, Sorted, InWindow, Used, Ascending, Near;
      SortedForms(ranges, -1);
      var loc := at;
      ghost var k := NodeStarting(Memory(), size, head, ranges, slots, s, loc);
      if seqno == data1[loc] {
        NodeAt(Memory(), size, head, ranges, slots, k);
        var temp := loc;
        loc := (loc + 1) % size;
        assert data2[temp] == End(ranges[k]);
        if data2[temp] == -1 {
          PassOver(temp, k, s);
        } else {
          RangeOrder(ranges, k);
          NextSlot(head, ranges, k, s, at, size);
          Split(temp, loc, seqno, -1, k, s);
        }
      } else {
        NodeAt(Memory(), size, head, ranges, slots, 0);
        var i;
        i, k := FindFrom(head, seqno, 0, s);
        NodeAt(Memory(), size, head, ranges, slots, k);
        loc := (loc + 1) % size;
        CmpIsOrder(ranges[k].hi, s);
        assert data2[i] == End(ranges[k]);
        if data2[i] == -1 {
          PassOver(i, k, s);
        } else if Cmp(data2[i], seqno) > 0 {
          NextSlot(head, ranges, k, s, at, size);
          Split(i, loc, seqno, seqno, k, s);
        } else {
          PassOver(i, k, s);
        }
      }
      j := k + 1;
    }

    /** The new head is the successor of node `k`, the last that starts no later than `s`. */
    method PassOver(i: int, ghost k: nat, ghost s: int)
      requires Valid() && k < |ranges| && i == slots[k] && 0 <= i < size
      requires ranges[k].lo <= s && ranges[k].hi <= s && forall j :: k < j < |ranges| ==> s < ranges[j].lo
      modifies `head
      ensures Cut(old(head), k + 1, s)
    {
      hide Rep, Elems, Sum, Wire, Step, Sorted, InWindow, Used;
      SortedForms(ranges, -1);
      NodeAt(Memory(), size, head, ranges, slots, k);
      NodeAt(Memory(), size, head, ranges, slots, 0);
      head := next[i];
    }

    /** Cut range `k` in two after `s`; the second part goes into slot `loc` and becomes the head. */
    method Split(i: int, loc: int, seqno: int, stub: int, ghost k: nat, ghost s: int)
      requires Valid() && k < |ranges| && i == slots[k] && seqno == Wire(s)
      requires ranges[k].lo <= s < ranges[k].hi && stub == End(Range(ranges[k].lo, s))
      requires loc == Step(head, s + 1 - ranges[0].lo, size)
      modifies `head, `ranges, `slots, data1, data2, next
      ensures Cut(old(head), k + 1, s) && Contents() == old(Contents())
    {
      hide Rep, Elems, Sum, Wire, Cmp, Inc, Step, SortedBut, Sorted, InWindow, Used, Ascending, Near, LinkedIn,
        FitsAt, Ranges.Insert, Spliced;
      SortedForms(ranges, -1);
      SortedAscends(ranges, -1);
      ghost var m, h, r := Memory(), head, Range(s + 1, ranges[k].hi);
      ghost var cut := ranges[k := Range(ranges[k].lo, s)];
      NodeAt(m, size, head, ranges, slots, k);
      NodeAt(m, size, head, ranges, slots, 0);
      ghost var rs, ss := Ranges.Insert(cut, k + 1, r), Spliced(slots, k + 1, loc);
      SplitMeaning(ranges, k, s, size, cut, r, rs);
      FreeSlotFor(m, size, head, ranges, slots, cut, k, r);
      IncIsSuccessor(s);
      CmpIsOrder(r.hi, s + 1);

      data1[loc] := Inc(seqno);
      if Cmp(data2[i], data1[loc]) > 0 {
        data2[loc] := data2[i];
      }
      data2[i] := stub;
      next[loc] := next[i];
      next[i] := loc;
      head := loc;

      ghost var m1 := m.(data2 := m.data2[i := End(cut[k])]);
      RepAfterSetEnd(m, size, h, ranges, slots, k, s, m1);
      assert data1[..] == m.data1[loc := Wire(s + 1)];
      assert data2[..] == m1.data2[loc := End(r)];
      assert next[..] == m.next[loc := m.next[i]][i := loc];
      SplicedIsInserted(slots, k + 1, loc);
      LinkedInAt(m1, size, slots, k + 1, loc, r, Memory());
      RepAfterInsert(m1, size, h, cut, slots, k + 1, r, Memory(), rs, ss);
      ranges, slots := rs, ss;
    }

    /** Clear the nodes before the new head. */
    method DropUpTo(first: int, ghost cut: int, ghost s: int)
      requires Cut(first, cut, s)
      modifies `length, `lastInsertPos, `ranges, `slots, data1, data2
      ensures Valid() && Contents() == set x | x in old(Contents()) && x > s
    {
      hide Rep, Elems, Sum, Wire, Len, Sorted, InWindow, Used, Ascending, Step;
      var h := first;
      ghost var j := cut;
      CutIsAtNode(h, j, s);
      while h != head
        invariant Cut(h, j, s)
        invariant h != head <==> j > 0
        invariant (set x | x in Contents() && x > s) == set x | x in old(Contents()) && x > s
        decreases j
      {
        h := DropOne(h, j, s);
        j := j - 1;
        CutIsAtNode(h, j, s);
      }
      AllAbove(ranges, s);
      SortedForms(ranges, -1);
    }

    method DropOne(h: int, ghost j: int, ghost s: int) returns (succ: int)
      requires Cut(h, j, s) && j > 0
      modifies `length, `lastInsertPos, `ranges, `slots, data1, data2
      ensures Cut(succ, j - 1, s)
      ensures (set x | x in Contents() && x > s) == set x | x in old(Contents()) && x > s
    {
      hide Rep, Elems, Sum, Wire, Len, Sorted, InWindow, Used, Ascending, Step;
      ghost var m := Memory();
      NodeAt(m, size, h, ranges, slots, 0);
      DropFirstMeaning(ranges, s, size);
      LenIsCount(ranges[0].lo, ranges[0].hi);
      assert data2[h] == End(ranges[0]);
      if data2[h] != -1 {
        length := length - Len(data1[h], data2[h]);
        data2[h] := -1;
      } else {
        length := length - 1;
      }
      data1[h] := -1;
      if lastInsertPos == h {
        lastInsertPos := -1;
      }
      assert data1[..] == m.data1[h := -1];
      assert data2[..] == m.data2[h := -1];
      RepAfterDropFirst(m, size, h, ranges, slots, Memory());
      succ := next[h];
      ranges, slots := ranges[1..], slots[1..];
    }

    lemma CutIsAtNode(h: int, j: int, s: int)
      requires Cut(h, j, s)
      ensures h != head <==> j > 0
    {
      if ranges != [] {
        SortedAscends(ranges, -1);
        SlotsDistinct(size, h, ranges, slots);
      }
    }

    /** The head range is a single number: the list goes on with the next node. */
    method DropHead()
      requires Shape() && Rep(Memory(), size, head, ranges, slots) && SortedBut(ranges, -1)
      requires ranges != [] && ranges[0].lo == ranges[0].hi
      modifies `head, `ranges, `slots, data1
      ensures Rep(Memory(), size, head, ranges, slots)
      ensures ranges == RemoveFirst(old(ranges)) && |slots| == |ranges|
      ensures Used(slots) == Used(old(slots)) - {old(head)}
    {
      hide Rep, SortedBut, Used;
      ghost var m, h := Memory(), head;
      NodeAt(m, size, head, ranges, slots, 0);
      SortedAscends(ranges, -1);
      data1[head] := -1;
      head := next[head];
      assert Memory() == Mem(m.data1[h := -1], m.data2, m.next);
      assert m.data2 == m.data2[h := -1];
      RepAfterDropFirst(m, size, h, ranges, slots, Memory());
      ranges, slots := ranges[1..], slots[1..];
    }

    /** Move the head range one number further, into the next slot. */
    method ShiftHead()
      requires Shape() && Rep(Memory(), size, head, ranges, slots) && SortedBut(ranges, -1) && InWindow(ranges, size)
      requires ranges != [] && ranges[0].lo < ranges[0].hi
      modifies `head, `ranges, `slots, data1, data2, next
      ensures Rep(Memory(), size, head, ranges, slots)
      ensures ranges == RemoveFirst(old(ranges)) && |slots| == |ranges|
      ensures Used(slots) >= Used(old(slots)) - {old(head)}
    {
      hide Rep, Used, Wire, Inc, Cmp, SortedBut, InWindow, Ascending, Shifted;
      ghost var m, h, r := Memory(), head, ranges[0];
      NodeAt(m, size, head, ranges, slots, 0);
      SortedAscends(ranges, -1);
      RoomToShift(ranges, size, 0);
      ShiftTargetUnused(m, size, head, ranges, slots, 0);
      var loc := SlotAfterHead();
      MoveHead(loc, r);
      ShiftedAt(m, size, slots, 0, loc, Range(r.lo + 1, r.hi), Memory());
      RepAfterShift(m, size, h, ranges, slots, 0, Memory());
      assert ranges[0 := Range(r.lo + 1, r.hi)] == RemoveFirst(ranges);
      ranges, slots := RemoveFirst(ranges), slots[0 := loc];
    }

    /** Write the rest of the head range into slot `loc` and clear the head slot. */
    method MoveHead(loc: int, ghost r: Range)
      requires Shape() && 0 <= head < size && 0 <= loc < size && loc != head
      requires data1[head] == Wire(r.lo) && data2[head] == Wire(r.hi) && r.lo < r.hi < r.lo + size && data2[loc] == -1
      modifies `head, data1, data2, next
      ensures head == loc
      ensures var (m, h) := (old(Memory()), old(head));
              Memory() == Mem(m.data1[loc := Wire(r.lo + 1)][h := -1],
                              m.data2[loc := End(Range(r.lo + 1, r.hi))][h := -1],
                              m.next[loc := m.next[h]])
    {
      hide Wire, Inc, Cmp;
      ghost var m, h := Memory(), head;
      IncIsSuccessor(r.lo);
      CmpIsOrder(r.hi, r.lo + 1);
      data1[loc] := Inc(data1[head]);
      if Cmp(data2[head], data1[loc]) > 0 {
        data2[loc] := data2[head];
      }
      assert data2[..] == m.data2[loc := End(Range(r.lo + 1, r.hi))];
      data1[head] := -1;
      data2[head] := -1;
      next[loc] := next[head];
      head := loc;
      assert data1[..] == m.data1[loc := Wire(r.lo + 1)][h := -1];
      assert data2[..] == m.data2[loc := End(Range(r.lo + 1, r.hi))][h := -1];
      assert next[..] == m.next[loc := m.next[h]];
    }

    method SlotAfterHead() returns (loc: int)
      requires Shape() && 0 <= head < size && size > 1
      ensures loc == Step(head, 1, size)
    {
      StepIsRemainder(head, 1, size);
      loc := (head + 1) % size;
    }
  }
}
