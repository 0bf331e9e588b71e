/** The receiver's loss list (udt4/src/list.cpp:422-703): a doubly linked list of ranges threaded
    through fixed arrays.  Ranges are appended in increasing order; any single number may be
    removed, which shortens or splits a range. */
module RcvLossLists {
  import opened SeqNo
  import opened Ring
  import opened Ranges
  import opened LinkedRanges
  import opened LossListFacts
  import opened NakCoding
  import opened SenderSpec

  /** Every node's backward link points to its predecessor. */
  predicate Priors(prior: seq<int>, n: int, slots: seq<int>) {
    && |prior| == n
    && forall k :: 0 <= k < |slots| ==> 0 <= slots[k] < n && prior[slots[k]] == Pred(slots, k)
  }

  function Pred(slots: seq<int>, k: int): int
    requires 0 <= k < |slots|
  {
    if k > 0 then slots[k - 1] else -1
  }

  class RcvLossList {
    const size: int
    const data1: array<int>
    const data2: array<int>
    const next: array<int>
    const prior: array<int>
    var head: int
    var tail: int
    var length: int

    ghost var ranges: seq<Range>
    ghost var slots: seq<int>

    ghost function Contents(): set<int>
      reads this
    {
      Elems(ranges)
    }

    ghost function Memory(): Mem
      reads this, data1, data2, next
    {
      Mem(data1[..], data2[..], next[..])
    }

    ghost predicate Shape() {
      && 0 < size < SEQ_NO_TH
      && data1.Length == data2.Length == next.Length == prior.Length == size
      && data1 != data2 && data1 != next && data2 != next
      && prior != data1 && prior != data2 && prior != next
    }

    /** Everything but the length counter. */
    ghost predicate Linked()
      reads this, data1, data2, next, prior
    {
      && Shape()
      && Rep(Memory(), size, head, ranges, slots) && |slots| == |ranges|
      && Priors(prior[..], size, slots)
      && (if ranges == [] then head == -1 else tail == slots[|slots| - 1])
      && Sorted(ranges) && InWindow(ranges, size)
    }

    ghost predicate Valid()
      reads this, data1, data2, next, prior
    {
      Linked() && length == Sum(ranges)
    }

    constructor (n: int)
      requires 0 < n < SEQ_NO_TH
      ensures Valid() && Contents() == {} && size == n
      ensures fresh(data1) && fresh(data2) && fresh(next) && fresh(prior)
    {
      size := n;
      data1 := new int[n](_ => -1);
      data2 := new int[n](_ => -1);
      next := new int[n];
      prior := new int[n];
      head := -1;
      tail := -1;
      length := 0;
      ranges, slots := [], [];
    }

    method GetLossLength() returns (n: int)
      requires Valid()
      ensures n == |Contents()|
    {
      SumIsCardinality(ranges);
      return length;
    }

    method GetFirstLostSeq() returns (seqno: int)
      requires Valid()
      ensures Contents() == {} ==> seqno == -1
      ensures Contents() != {} ==> seqno == Wire(Min(Contents()))
    {
      hide Rep, Elems, Sum, Wire, Min, Sorted, InWindow, Priors;
      EmptyIffZero(ranges);
      if length == 0 {
        return -1;
      }
      NodeAt(Memory(), size, head, ranges, slots, 0);
      FirstIsMin(ranges);
      return data1[head];
    }

    /** Write the list, or as many whole nodes of it as the limit allows, into `words` as a loss
        report. */
    method GetLossArray(words: array<int>, limit: int) returns (len: int, ghost items: seq<LossItem>)
      requires Valid() && limit <= words.Length
      requires words != data1 && words != data2 && words != next && words != prior
      modifies words
      ensures 0 <= len && (limit > 0 ==> len <= limit) && len <= words.Length
      ensures words[..len] == Encode(items)
      ensures Reported(items) <= Contents()
      ensures forall x, y :: x in Reported(items) && y in Contents() && y !in Reported(items) ==> x < y
      ensures Reported(items) == Contents() || len >= limit - 1
    {
      hide Rep, Elems, Sum, Wire, Sorted, InWindow, Priors, Encode, Reported, ItemsOf;
      len := 0;
      var i := head;
      ghost var j := 0;
      assert ItemsOf(ranges[..j]) == [] && Encode([]) == [] by {
        EmptyReport();
      }
      if ranges != [] {
        NodeAt(Memory(), size, head, ranges, slots, 0);
      }
      while len < limit - 1 && i != -1
        invariant 0 <= len <= words.Length && (limit > 0 ==> len <= limit) && (len == 0 || len <= limit)
        invariant 0 <= j <= |ranges| && i == (if j < |ranges| then slots[j] else -1)
        invariant j < |ranges| ==> 0 <= slots[j]
        invariant words[..len] == Encode(ItemsOf(ranges[..j]))
        decreases |ranges| - j
      {
        NodeAt(Memory(), size, head, ranges, slots, j);
        ghost var before := words[..len];
        ItemsOfNext(ranges, j);
        assert data2[i] == End(ranges[j]);
        words[len] := data1[i];
        if data2[i] != -1 {
          words[len] := SetFlag(words[len]);
          len := len + 1;
          words[len] := data2[i];
        }
        len := len + 1;
        assert words[..len] == before + WordsOf(ItemOf(ranges[j]));
        i := next[i];
        j := j + 1;
        if j < |ranges| {
          NodeAt(Memory(), size, head, ranges, slots, j);
        }
      }
      items := ItemsOf(ranges[..j]);
      ReportedPart(ranges, j);
    }

    /** Append the numbers `a..b`, all beyond those in the list. */
    method Insert(seqno1: int, seqno2: int, ghost a: int, ghost b: int)
      requires Valid() && seqno1 == Wire(a) && seqno2 == Wire(b) && a <= b < a + size
      requires forall x :: x in Contents() ==> x < a && b - x < size
      modifies this, data1, data2, next, prior
      ensures Valid()
      ensures Contents() == old(Contents()) + Interval(a, b)
    {
      hide Rep, Elems, Sum, Wire, Inc, Len, Off, Step, Sorted, InWindow, Priors;
      EmptyIffZero(ranges);
      if length == 0 {
        InsertFirst(seqno1, seqno2, a, b);
        return;
      }
      assert Contents() == Elems(ranges);
      LastBelow(ranges, a, b, size);
      NodeAt(Memory(), size, head, ranges, slots, 0);
      NodeAt(Memory(), size, head, ranges, slots, |ranges| - 1);
      OffIsDistance(ranges[0].lo, a);
      var offset := Off(data1[head], seqno1);
      var loc := (head + offset) % size;
      StepIsRemainder(head, offset, size);
      ghost var last := ranges[|ranges| - 1];
      IncIsSuccessor(last.hi);
      WireInjective(last.hi + 1, a);
      LenIsCount(a, b);
      assert data2[tail] == End(last);
      if data2[tail] != -1 && Inc(data2[tail]) == seqno1 {
        loc := tail;
        StretchTail(loc, seqno2, a, b);
      } else {
        AppendNode(loc, seqno1, seqno2, a, b);
      }
      length := length + Len(seqno1, seqno2);
    }

    method InsertFirst(seqno1: int, seqno2: int, ghost a: int, ghost b: int)
      requires Valid() && ranges == [] && length == 0 && seqno1 == Wire(a) && seqno2 == Wire(b) && a <= b < a + size
      modifies this, data1, data2, next, prior
      ensures Valid() && Contents() == Interval(a, b)
    {
      hide Wire, Len;
      ghost var m := Memory();
      EmptyIsUnused(m, size, head, slots);
      assert Unused(m, size, 0);
      WireInjective(a, b);
      LenIsCount(a, b);
      head := 0;
      tail := 0;
      data1[head] := seqno1;
      if seqno2 != seqno1 {
        data2[head] := seqno2;
      }
      next[head] := -1;
      prior[head] := -1;
      length := length + Len(seqno1, seqno2);
      assert data2[..] == m.data2[0 := End(Range(a, b))];
      RepSingle(m, size, 0, Range(a, b), Memory());
      ranges, slots := [Range(a, b)], [0];
      SumSingle(ranges[0]);
      ElemsSingle(ranges[0]);
    }

    /** The new numbers continue the last range. */
    method StretchTail(loc: int, seqno2: int, ghost a: int, ghost b: int)
      requires Linked() && ranges != [] && loc == tail && seqno2 == Wire(b) && a <= b
      requires ranges[|ranges| - 1].hi + 1 == a && b - ranges[0].lo < size
      modifies `ranges, data2
      ensures Linked() && Sum(ranges) == Sum(old(ranges)) + b - a + 1
      ensures Contents() == old(Contents()) + Interval(a, b)
    {
      hide Rep, Elems, Sum, Wire, Step, Sorted, InWindow, Priors, Ascending;
      ghost var m, k := Memory(), |ranges| - 1;
      NodeAt(m, size, head, ranges, slots, k);
      SortedIsAscending(ranges);
      StretchLast(ranges, a, b, size);
      data2[loc] := seqno2;
      assert data2[..] == m.data2[slots[k] := End(Range(ranges[k].lo, b))];
      RepAfterSetEnd(m, size, head, ranges, slots, k, b, Memory());
      ranges := ranges[k := Range(ranges[k].lo, b)];
    }

    /** A new node at the end of the list. */
    method AppendNode(loc: int, seqno1: int, seqno2: int, ghost a: int, ghost b: int)
      requires Linked() && ranges != [] && seqno1 == Wire(a) && seqno2 == Wire(b) && a <= b
      requires loc == Step(head, a - ranges[0].lo, size)
      requires ranges[|ranges| - 1].hi < a && b - ranges[0].lo < size && b < a + size
      modifies `tail, `ranges, `slots, data1, data2, next, prior
      ensures Linked() && Sum(ranges) == Sum(old(ranges)) + b - a + 1
      ensures Contents() == old(Contents()) + Interval(a, b)
    {
      hide Rep, Elems, Sum, Wire, Step, Used, Sorted, InWindow, Priors, Ascending, LinkedIn, FitsAt, Distinct;
      ghost var m, n, r := Memory(), |ranges|, Range(a, b);
      ghost var rs, ss := ranges + [r], slots + [loc];
      WireInjective(a, b);
      SortedIsAscending(ranges);
      AppendFits(ranges, r, size);
      FreeSlot(m, size, head, ranges, slots, n, r);
      NodeAt(m, size, head, ranges, slots, n - 1);
      AppendMeaning(ranges, r);

      ghost var p := prior[..];
      data1[loc] := seqno1;
      if seqno2 != seqno1 {
        data2[loc] := seqno2;
      }
      next[tail] := loc;
      prior[loc] := tail;
      next[loc] := -1;

      assert data1[..] == m.data1[loc := Wire(a)];
      assert data2[..] == m.data2[loc := End(r)];
      assert next[..] == m.next[loc := -1][slots[n - 1] := loc];
      assert prior[..] == p[loc := slots[n - 1]];
      LinkedInAt(m, size, slots, n, loc, r, Memory());
      RepAfterInsert(m, size, head, ranges, slots, n, r, Memory(), rs, ss);
      PriorsAfterAppend(p, size, slots, loc);
      tail := loc;
      ranges, slots := rs, ss;
    }

    /** Remove the number `s`, the position of `seqno`, if it is in the list. */
    method Remove(seqno: int, ghost s: int) returns (found: bool)
      requires Valid() && seqno == Wire(s)
      requires forall x :: x in Contents() ==> Near(x, s) && s - x < size
      modifies this, data1, data2, next, prior
      ensures Valid()
      ensures found <==> s in old(Contents())
      ensures Contents() == old(Contents()) - {s}
    {
      hide Rep, Elems, Sum, Wire, Cmp, Inc, Dec, Off, Step, SortedBut, Sorted, InWindow, Priors, Near;
      EmptyIffZero(ranges);
      if length == 0 {
        return false;
      }
      assert Contents() == Elems(ranges);
      NearRanges(ranges, s);
      FirstWithin(ranges, s, size);
      NodeAt(Memory(), size, head, ranges, slots, 0);
      OffIsDistance(ranges[0].lo, s);
      var offset := Off(data1[head], seqno);
      if offset < 0 {
        BelowAll(ranges, s);
        return false;
      }
      var loc := (head + offset) % size;
      StepIsRemainder(head, offset, size);
      SortedForms(ranges, -1);
      ghost var k: int := NodeStarting(Memory(), size, head, ranges, slots, s, loc);
      if seqno == data1[loc] {
        RemoveStart(loc, k, s);
        length := length - 1;
        return true;
      }
      found := RemoveInside(loc, seqno, s);
      if found {
        length := length - 1;
      }
    }

    /** The number does not start a range; it may be inside one or end one. */
    method RemoveInside(loc: int, seqno: int, ghost s: int) returns (found: bool)
      requires Linked() && ranges != [] && seqno == Wire(s) && ranges[0].lo < s < ranges[0].lo + size
      requires loc == (head + (s - ranges[0].lo) + size) % size
      requires forall j :: 0 <= j < |ranges| ==> ranges[j].lo != s && Near(ranges[j].hi, s)
      modifies `tail, `ranges, `slots, data1, data2, next, prior
      ensures Linked() && Sum(ranges) == Sum(old(ranges)) - (if found then 1 else 0)
      ensures found <==> s in old(Contents())
      ensures Contents() == old(Contents()) - {s}
    {
      hide Rep, Elems, Sum, Wire, Cmp, Step, Sorted, InWindow, Priors;
      NodeAt(Memory(), size, head, ranges, slots, 0);
      StepIsRemainder(head, s - ranges[0].lo, size);
      var i;
      ghost var k;
      i, k := FindBefore(loc, s);
      NodeAt(Memory(), size, head, ranges, slots, k);
      CmpIsOrder(s, ranges[k].hi);
      assert data2[i] == End(ranges[k]);
      if data2[i] == -1 || Cmp(seqno, data2[i]) > 0 {
        BetweenRanges(ranges, k, s);
        return false;
      }
      RangeHolds(ranges, k, s);
      NearIsInjective(s, ranges[k].hi);
      if seqno == data2[i] {
        RemoveEnd(i, seqno, k, s);
      } else {
        NextSlot(head, ranges, k, s, loc, size);
        SplitNode(i, (loc + 1) % size, seqno, k, s);
      }
      return true;
    }

    /** Walk back from the slot computed for `s` to the node that could contain it. */
    method FindBefore(loc: int, ghost s: int) returns (i: int, ghost k: nat)
      requires Linked() && ranges != [] && ranges[0].lo < s < ranges[0].lo + size
      requires loc == Step(head, s - ranges[0].lo, size)
      requires forall j :: 0 <= j < |ranges| ==> ranges[j].lo != s
      ensures k < |ranges| && i == slots[k] && ranges[k].lo < s
      ensures forall j :: k < j < |ranges| ==> s < ranges[j].lo
    {
      hide Rep, Elems, Wire, Sorted, InWindow, Priors;
      ghost var m := Memory();
      NodeAt(m, size, head, ranges, slots, 0);
      ghost var d := s - ranges[0].lo - 1;
      StepIsRemainder(loc, -1, size);
      i := (loc - 1 + size) % size;
      while data1[i] == -1
        invariant 0 <= d < size && i == Step(head, d, size)
        invariant forall j :: 0 <= j < |ranges| ==> ranges[j].lo - ranges[0].lo <= d || s < ranges[j].lo
        decreases d
      {
        EmptySlot(m, size, head, ranges, slots, d);
        StepIsRemainder(i, -1, size);
        i := (i - 1 + size) % size;
        d := d - 1;
      }
      k := NodeAtDistance(m, size, head, ranges, slots, d);
      SortedIsAscending(ranges);
    }

    /** The number starts range `k`, in slot `loc`. */
    method RemoveStart(loc: int, ghost k: nat, ghost s: int)
      requires Linked() && k < |ranges| && loc == slots[k] && ranges[k].lo == s
      modifies `head, `tail, `ranges, `slots, data1, data2, next, prior
      ensures Linked() && Sum(ranges) == Sum(old(ranges)) - 1
      ensures s in old(Contents()) && Contents() == old(Contents()) - {s}
    {
      hide Rep, Elems, Sum, Wire, Step, Sorted, InWindow, Priors;
      NodeAt(Memory(), size, head, ranges, slots, k);
      NodeAt(Memory(), size, head, ranges, slots, 0);
      RangeHolds(ranges, k, s);
      assert data2[loc] == End(ranges[k]);
      if data2[loc] == -1 {
        if head == loc {
          HeadIsFirst(k);
          RemoveHead(loc, s);
        } else {
          RemoveNode(loc, k, s);
        }
      } else {
        ShiftNode(loc, k, s);
      }
    }

    /** The head is a single number. */
    method RemoveHead(loc: int, ghost s: int)
      requires Linked() && ranges != [] && loc == head && ranges[0] == Range(s, s)
      modifies `head, `ranges, `slots, data1, prior
      ensures Linked() && Sum(ranges) == Sum(old(ranges)) - 1
      ensures Contents() == old(Contents()) - {s}
    {
      hide Rep, Elems, Sum, Wire, Step, Sorted, InWindow, Priors, Used, Ascending, Distinct;
      ghost var m, p, h := Memory(), prior[..], head;
      NodeAt(m, size, h, ranges, slots, 0);
      SortedIsAscending(ranges);
      RepDistinct(m, size, h, ranges, slots);
      TakeOut(ranges, 0, s, size);
      head := next[head];
      if head != -1 {
        prior[head] := -1;
      }
      data1[loc] := -1;
      assert Memory() == Mem(m.data1[h := -1], m.data2, m.next);
      assert m.data2 == m.data2[h := -1];
      assert prior[..] == if |slots| > 1 then p[slots[1] := -1] else p;
      RepAfterDropFirst(m, size, h, ranges, slots, Memory());
      PriorsAfterDrop(p, size, slots);
      assert Without(ranges, 0) == ranges[1..];
      ranges, slots := ranges[1..], slots[1..];
    }

    /** Node `k` is a single number and not the head. */
    method RemoveNode(loc: int, ghost k: nat, ghost s: int)
      requires Linked() && 0 < k < |ranges| && loc == slots[k] && ranges[k] == Range(s, s)
      modifies `tail, `ranges, `slots, data1, next, prior
      ensures Linked() && Sum(ranges) == Sum(old(ranges)) - 1
      ensures Contents() == old(Contents()) - {s}
    {
      hide Rep, Elems, Sum, Wire, Step, Sorted, InWindow, Used, Ascending, Priors, Distinct, Removed;
      ghost var m, p := Memory(), prior[..];
      NodeAt(m, size, head, ranges, slots, k);
      NodeAt(m, size, head, ranges, slots, k - 1);
      SortedIsAscending(ranges);
      RepDistinct(m, size, head, ranges, slots);
      TakeOut(ranges, k, s, size);
      PriorAt(p, size, slots, k);
      next[prior[loc]] := next[loc];
      if next[loc] != -1 {
        prior[next[loc]] := prior[loc];
      } else {
        tail := prior[loc];
      }
      data1[loc] := -1;
      assert data1[..] == m.data1[slots[k] := -1];
      assert m.data2 == m.data2[slots[k] := -1];
      assert next[..] == m.next[slots[k - 1] := m.next[slots[k]]];
      assert prior[..] == if k + 1 < |slots| then p[slots[k + 1] := slots[k - 1]] else p;
      ghost var ss := Without(slots, k);
      WithoutIsRemoved(ranges, k);
      WithoutIsRemoved(slots, k);
      RepAfterUnlink(m, size, head, ranges, slots, k, Memory(), Without(ranges, k), ss);
      PriorsAfterRemove(p, size, slots, k);
      LastWithout(slots, k);
      ranges, slots := Without(ranges, k), ss;
    }

    /** Range `k` loses its first number and moves on to the next slot. */
    method ShiftNode(loc: int, ghost k: nat, ghost s: int)
      requires Linked() && k < |ranges| && loc == slots[k] && ranges[k].lo == s < ranges[k].hi
      modifies `head, `tail, `ranges, `slots, data1, data2, next, prior
      ensures Linked() && Sum(ranges) == Sum(old(ranges)) - 1
      ensures Contents() == old(Contents()) - {s}
    {
      hide Rep, Elems, Sum, Wire, Step, Sorted, SortedBut, InWindow, Used, Ascending, Priors, Distinct, Shifted;
      ghost var m, p, r := Memory(), prior[..], Range(s + 1, ranges[k].hi);
      NodeAt(m, size, head, ranges, slots, k);
      NodeAt(m, size, head, ranges, slots, 0);
      SortedIsAscending(ranges);
      RepDistinct(m, size, head, ranges, slots);
      SortedForms(ranges, -1);
      RoomToShift(ranges, size, k);
      ShiftTargetUnused(m, size, head, ranges, slots, k);
      ShiftMeaning(ranges, k, size);
      var i := (loc + 1) % size;
      StepIsRemainder(loc, 1, size);
      FreshTarget(m, size, head, ranges, slots, k);
      SlotsAround(slots, k, i);
      MoveData(loc, i, s, r.hi);
      MoveLinks(loc, i, k);
      ShiftedRep(m, p, size, old(head), ranges, slots, k, i, r, Memory(), prior[..]);
      ranges, slots := ranges[k := r], slots[k := i];
    }

    /** Copy the range in slot `loc`, less its first number, to the unused slot `i`. */
    method MoveData(loc: int, i: int, ghost s: int, ghost hi: int)
      requires Shape() && 0 <= loc < size && 0 <= i < size && i != loc && s < hi && Near(hi, s + 1)
      requires data1[loc] == Wire(s) && data2[loc] == Wire(hi) && data1[i] == -1 && data2[i] == -1
      modifies data1, data2
      ensures data1[..] == old(data1[..])[i := Wire(s + 1)][loc := -1]
      ensures data2[..] == old(data2[..])[i := End(Range(s + 1, hi))][loc := -1]
    {
      hide Wire, Cmp, Inc;
      IncIsSuccessor(s);
      CmpIsOrder(hi, s + 1);
      data1[i] := Inc(data1[loc]);
      if Cmp(data2[loc], Inc(data1[loc])) > 0 {
        data2[i] := data2[loc];
      }
      data1[loc] := -1;
      data2[loc] := -1;
    }

    /** Link slot `i` into the list in the place of slot `loc`. */
    method MoveLinks(loc: int, i: int, ghost k: nat)
      requires Shape() && k < |slots| && loc == slots[k] && 0 <= i < size && i !in Used(slots)
      requires forall j :: 0 <= j < |slots| ==> 0 <= slots[j] < size
      requires Distinct(slots) && Priors(prior[..], size, slots)
      requires next[loc] == Succ(slots, k) && head == slots[0] && tail == slots[|slots| - 1]
      modifies `head, `tail, next, prior
      ensures head == (if k == 0 then i else old(head)) && tail == slots[k := i][|slots| - 1]
      ensures var next1 := old(next[..])[i := old(next[loc])];
              next[..] == if k > 0 then next1[slots[k - 1] := i] else next1
      ensures var prior1 := old(prior[..])[i := Pred(slots, k)];
              prior[..] == if k + 1 < |slots| then prior1[slots[k + 1] := i] else prior1
    {
      hide Priors, Distinct, Used;
      PriorAt(prior[..], size, slots, k);
      assert prior[loc] == Pred(slots, k);
      SlotsAround(slots, k, i);
      next[i] := next[loc];
      prior[i] := prior[loc];
      if head == loc {
        head := i;
      } else {
        next[prior[i]] := i;
      }
      if tail == loc {
        tail := i;
      } else {
        prior[next[i]] := i;
      }
    }

    /** Range `k` loses its last number. */
    method RemoveEnd(i: int, seqno: int, ghost k: nat, ghost s: int)
      requires Linked() && k < |ranges| && i == slots[k] && seqno == Wire(s) && ranges[k].lo < s == ranges[k].hi
      modifies `ranges, data2
      ensures Linked() && Sum(ranges) == Sum(old(ranges)) - 1
      ensures Contents() == old(Contents()) - {s}
    {
      hide Rep, Elems, Sum, Wire, Step, Inc, Dec, Sorted, InWindow, Priors, Ascending;
      ghost var m := Memory();
      NodeAt(m, size, head, ranges, slots, k);
      SortedIsAscending(ranges);
      ShortenMeaning(ranges, k, size);
      ShortEnd(i, seqno, k, s);
      assert data2[..] == m.data2[slots[k] := End(Range(ranges[k].lo, s - 1))];
      RepAfterSetEnd(m, size, head, ranges, slots, k, s - 1, Memory());
      ranges := ranges[k := Range(ranges[k].lo, s - 1)];
    }

    /** Let the range in slot `i` end just before `s`. */
    method ShortEnd(i: int, seqno: int, ghost k: nat, ghost s: int)
      requires Shape() && 0 <= i < size && k < |ranges| && seqno == Wire(s)
      requires ranges[k].lo < s && data1[i] == Wire(ranges[k].lo) && s - ranges[k].lo < size
      modifies data2
      ensures data2[..] == old(data2[..])[i := End(Range(ranges[k].lo, s - 1))]
    {
      hide Wire, Inc, Dec;
      IncIsSuccessor(ranges[k].lo);
      DecIsPredecessor(s);
      WireInjective(s, ranges[k].lo + 1);
      if seqno == Inc(data1[i]) {
        data2[i] := -1;
      } else {
        data2[i] := Dec(seqno);
      }
    }

    /** Range `k` is cut in two around the number. */
    method SplitNode(i: int, loc: int, seqno: int, ghost k: nat, ghost s: int)
      requires Linked() && k < |ranges| && i == slots[k] && seqno == Wire(s) && ranges[k].lo < s < ranges[k].hi
      requires loc == Step(head, s + 1 - ranges[0].lo, size)
      modifies `tail, `ranges, `slots, data1, data2, next, prior
      ensures Linked() && Sum(ranges) == Sum(old(ranges)) - 1
      ensures Contents() == old(Contents()) - {s}
    {
      hide Rep, Elems, Sum, Wire, Cmp, Inc, Step, Sorted, InWindow, Used, Ascending, Priors, Distinct, LinkedIn,
        FitsAt, Ranges.Insert, Spliced;
      ghost var m, p, r := Memory(), prior[..], Range(s + 1, ranges[k].hi);
      ghost var cut := ranges[k := Range(ranges[k].lo, s - 1)];
      ghost var rs, ss := Ranges.Insert(cut, k + 1, r), Spliced(slots, k + 1, loc);
      NodeAt(m, size, head, ranges, slots, k);
      NodeAt(m, size, head, ranges, slots, 0);
      SortedIsAscending(ranges);
      RepDistinct(m, size, head, ranges, slots);
      SplitOutMeaning(ranges, k, s, size, cut, r, rs);
      FreeSlotFor(m, size, head, ranges, slots, cut, k, r);
      IncIsSuccessor(s);
      CmpIsOrder(r.hi, s + 1);

      data1[loc] := Inc(seqno);
      if Cmp(data2[i], data1[loc]) > 0 {
        data2[loc] := data2[i];
      }
      ShortEnd(i, seqno, k, s);
      LinkBehind(i, loc, k);

      ghost var m1 := m.(data2 := m.data2[i := End(cut[k])]);
      RepAfterSetEnd(m, size, head, ranges, slots, k, s - 1, m1);
      assert data1[..] == m.data1[loc := Wire(s + 1)];
      assert data2[..] == m1.data2[loc := End(r)];
      SplicedIsInserted(slots, k + 1, loc);
      LinkedInAt(m1, size, slots, k + 1, loc, r, Memory());
      RepAfterInsert(m1, size, head, cut, slots, k + 1, r, Memory(), rs, ss);
      PriorsAfterSplice(p, size, slots, k, loc, ss);
      LastSpliced(slots, k + 1, loc);
      ranges, slots := rs, ss;
    }

    /** Link slot `loc` into the list behind slot `i`. */
    method LinkBehind(i: int, loc: int, ghost k: nat)
      requires Shape() && k < |slots| && i == slots[k] && 0 <= loc < size && loc !in Used(slots)
      requires forall j :: 0 <= j < |slots| ==> 0 <= slots[j] < size
      requires Distinct(slots) && next[i] == Succ(slots, k) && tail == slots[|slots| - 1]
      modifies `tail, next, prior
      ensures tail == if k + 1 == |slots| then loc else old(tail)
      ensures next[..] == old(next[..])[loc := Succ(slots, k)][i := loc]
      ensures prior[..] == if k + 1 < |slots| then old(prior[..])[loc := i][slots[k + 1] := loc]
        else old(prior[..])[loc := i]
    {
      SlotsAround(slots, k, loc);
      next[loc] := next[i];
      next[i] := loc;
      prior[loc] := i;
      if tail == i {
        tail := loc;
      } else {
        prior[next[loc]] := loc;
      }
    }

    lemma HeadIsFirst(k: nat)
      requires Linked() && k < |ranges| && slots[k] == head
      ensures k == 0
    {
      SortedIsAscending(ranges);
      RepDistinct(Memory(), size, head, ranges, slots);
    }
  }

  // ----- appending to a sorted sequence of ranges

  lemma SortedIsAscending(rs: seq<Range>)
    requires Sorted(rs)
    ensures Ascending(rs)
  {
  }

  lemma LastBelow(rs: seq<Range>, a: int, b: int, size: int)
    requires Sorted(rs) && rs != [] && a <= b && size < SEQ_NO_TH
    requires forall x :: x in Elems(rs) ==> x < a
    requires forall x :: x in Elems(rs) ==> b - x < size
    ensures rs[0].lo < a && b - rs[0].lo < size && Near(rs[0].lo, a)
    ensures rs[|rs| - 1].hi < a && -SEQ_SPACE < rs[|rs| - 1].hi + 1 - a < SEQ_SPACE
  {
    ElemIn(rs, 0);
    ElemIn(rs, |rs| - 1);
    assert rs[0].lo in Elems(rs) && rs[|rs| - 1].hi in Elems(rs);
  }

  lemma StretchLast(rs: seq<Range>, a: int, b: int, size: int)
    requires Sorted(rs) && InWindow(rs, size) && rs != [] && rs[|rs| - 1].hi + 1 == a <= b && b - rs[0].lo < size
    ensures var k := |rs| - 1;
            var rs' := rs[k := Range(rs[k].lo, b)];
            && rs[k].lo < b && Elems(rs') == Elems(rs) + Interval(a, b) && Sum(rs') == Sum(rs) + b - a + 1
            && Sorted(rs') && InWindow(rs', size)
  {
    StretchElems(rs, |rs| - 1, a, b);
  }

  lemma AppendFits(rs: seq<Range>, r: Range, size: int)
    requires Sorted(rs) && InWindow(rs, size) && rs != []
    requires rs[|rs| - 1].hi < r.lo <= r.hi && r.hi - rs[0].lo < size
    ensures FitsAt(size, rs, |rs|, r) && Inserted(rs, |rs|, r, rs + [r])
    ensures Sorted(rs + [r]) && InWindow(rs + [r], size)
  {
    forall i | 0 <= i < |rs| ensures rs[0].lo <= rs[i].lo <= rs[i].hi < r.lo {
      assert i < |rs| - 1 ==> rs[i].hi < rs[|rs| - 1].lo;
      assert i > 0 ==> rs[0].hi < rs[i].lo;
    }
  }

  lemma AppendMeaning(rs: seq<Range>, r: Range)
    ensures Elems(rs + [r]) == Elems(rs) + Interval(r.lo, r.hi)
    ensures Sum(rs + [r]) == Sum(rs) + Count(r)
  {
    ElemsAppend(rs, [r]);
    ElemsSingle(r);
    SumAppend(rs, [r]);
    SumSingle(r);
  }

  lemma EmptyReport()
    ensures ItemsOf([]) == [] && Encode([]) == []
  {
  }

  /** What the report of the first `j` nodes says about the whole list. */
  lemma ReportedPart(rs: seq<Range>, j: nat)
    requires Sorted(rs) && j <= |rs|
    ensures var part := Reported(ItemsOf(rs[..j]));
            && part <= Elems(rs)
            && (forall x, y :: x in part && y in Elems(rs) && y !in part ==> x < y)
            && (j == |rs| ==> part == Elems(rs))
  {
    hide Elems, Reported, ItemsOf;
    ReportedIsElems(rs[..j]);
    assert rs == rs[..j] + rs[j..];
    ElemsAppend(rs[..j], rs[j..]);
    if j == |rs| {
      assert rs[..j] == rs;
    } else {
      forall i | 0 <= i < j ensures rs[i].hi <= rs[j].lo - 1 {
      }
      ElemsBelow(rs[..j], rs[j].lo - 1);
      ElemsAbove(rs[j..], rs[j].lo - 1);
    }
  }

  // ----- taking one number out of sorted ranges

  lemma NearIsInjective(x: int, y: int)
    requires Near(x, y)
    ensures Wire(x) == Wire(y) <==> x == y
  {
    WireInjective(x, y);
  }

  lemma FirstWithin(rs: seq<Range>, s: int, size: int)
    requires Sorted(rs) && rs != [] && forall x :: x in Elems(rs) ==> Near(x, s) && s - x < size
    ensures s - rs[0].lo < size && Near(rs[0].lo, s)
  {
    ElemIn(rs, 0);
    assert rs[0].lo in Elems(rs);
  }

  lemma BelowAll(rs: seq<Range>, s: int)
    requires Sorted(rs) && rs != [] && s < rs[0].lo
    ensures s !in Elems(rs) && Elems(rs) - {s} == Elems(rs)
  {
    ElemsAbove(rs, s);
  }

  lemma BetweenRanges(rs: seq<Range>, k: nat, s: int)
    requires Sorted(rs) && k < |rs| && rs[k].hi < s && forall j :: k < j < |rs| ==> s < rs[j].lo
    ensures s !in Elems(rs) && Elems(rs) - {s} == Elems(rs)
  {
    SplitAt(rs, k);
    ElemsBelow(rs[..k], rs[k].lo - 1);
    ElemsAbove(rs[k + 1..], s);
  }

  lemma RangeHolds(rs: seq<Range>, k: nat, s: int)
    requires k < |rs| && rs[k].lo <= s
    requires Sorted(rs)
    ensures rs[k].lo <= rs[k].hi && (s <= rs[k].hi ==> s in Elems(rs))
  {
    ElemIn(rs, k);
  }

  /** No other range holds the number. */
  lemma OnlyIn(rs: seq<Range>, k: nat, s: int)
    requires Sorted(rs) && k < |rs| && rs[k].lo <= s <= rs[k].hi
    ensures s !in Elems(rs[..k]) && s !in Elems(rs[k + 1..])
  {
    ElemsBelow(rs[..k], rs[k].lo - 1);
    ElemsAbove(rs[k + 1..], rs[k].hi);
  }

  function Without<T>(s: seq<T>, k: nat): seq<T>
    requires k < |s|
  {
    s[..k] + s[k + 1..]
  }

  lemma WithoutIsRemoved<T>(s: seq<T>, k: nat)
    requires k < |s|
    ensures Removed(s, k, Without(s, k))
  {
  }

  lemma LastWithout(slots: seq<int>, k: nat)
    requires 0 < k < |slots|
    ensures |Without(slots, k)| == |slots| - 1
    ensures Without(slots, k)[|slots| - 2] == if k + 1 < |slots| then slots[|slots| - 1] else slots[k - 1]
  {
  }

  lemma LastSpliced(slots: seq<int>, k: nat, x: int)
    requires 0 < k <= |slots|
    ensures |Spliced(slots, k, x)| == |slots| + 1
    ensures Spliced(slots, k, x)[|slots|] == if k == |slots| then x else slots[|slots| - 1]
  {
  }

  lemma TakeOut(rs: seq<Range>, k: nat, s: int, size: int)
    requires Sorted(rs) && InWindow(rs, size) && k < |rs| && rs[k] == Range(s, s)
    ensures var rs' := Without(rs, k);
            && Elems(rs') == Elems(rs) - {s} && Sum(rs') == Sum(rs) - 1
            && Sorted(rs') && InWindow(rs', size) && |rs'| == |rs| - 1
  {
    hide Elems, Sum, Sorted, InWindow;
    OnlyIn(rs, k, s);
    SplitAt(rs, k);
    ElemsAppend(rs[..k], rs[k + 1..]);
    SumAppend(rs[..k], rs[k + 1..]);
    WithoutSorted(rs, k, size);
    assert Interval(s, s) == {s};
  }

  lemma WithoutSorted(rs: seq<Range>, k: nat, size: int)
    requires Sorted(rs) && InWindow(rs, size) && k < |rs|
    ensures Sorted(Without(rs, k)) && InWindow(Without(rs, k), size)
  {
    var rs' := Without(rs, k);
    assert Removed(rs, k, rs');
    if k == 0 && |rs| > 1 {
      assert rs[0].hi < rs[1].lo;
    }
  }

  lemma ReplaceElems(rs: seq<Range>, k: nat, r: Range, s: int)
    requires Sorted(rs) && k < |rs| && rs[k].lo <= s <= rs[k].hi
    requires Interval(r.lo, r.hi) == Interval(rs[k].lo, rs[k].hi) - {s} && Count(r) == Count(rs[k]) - 1
    ensures Elems(rs[k := r]) == Elems(rs) - {s} && Sum(rs[k := r]) == Sum(rs) - 1
  {
    hide Elems, Sum, Sorted;
    OnlyIn(rs, k, s);
    SplitAt(rs, k);
    ReplaceMeaning(rs, k, r);
  }

  lemma ShiftMeaning(rs: seq<Range>, k: nat, size: int)
    requires Sorted(rs) && InWindow(rs, size) && k < |rs| && rs[k].lo < rs[k].hi
    ensures var rs' := rs[k := Range(rs[k].lo + 1, rs[k].hi)];
            && Elems(rs') == Elems(rs) - {rs[k].lo} && Sum(rs') == Sum(rs) - 1
            && Sorted(rs') && InWindow(rs', size)
  {
    ReplaceElems(rs, k, Range(rs[k].lo + 1, rs[k].hi), rs[k].lo);
  }

  lemma ShortenMeaning(rs: seq<Range>, k: nat, size: int)
    requires Sorted(rs) && InWindow(rs, size) && k < |rs| && rs[k].lo < rs[k].hi
    ensures var rs' := rs[k := Range(rs[k].lo, rs[k].hi - 1)];
            && Elems(rs') == Elems(rs) - {rs[k].hi} && Sum(rs') == Sum(rs) - 1
            && Sorted(rs') && InWindow(rs', size) && rs[k].hi - rs[k].lo < size
  {
    ReplaceElems(rs, k, Range(rs[k].lo, rs[k].hi - 1), rs[k].hi);
    assert k > 0 ==> rs[0].hi < rs[k].lo;
  }

  lemma SplitOutMeaning(rs: seq<Range>, k: nat, s: int, size: int, cut: seq<Range>, r: Range, rs': seq<Range>)
    requires Sorted(rs) && InWindow(rs, size) && k < |rs| && rs[k].lo < s < rs[k].hi && size < SEQ_NO_TH
    requires cut == rs[k := Range(rs[k].lo, s - 1)] && r == Range(s + 1, rs[k].hi)
    requires rs' == Ranges.Insert(cut, k + 1, r)
    ensures Elems(rs') == Elems(rs) - {s} && Sum(rs') == Sum(rs) - 1
    ensures Ascending(cut) && FitsAt(size, cut, k + 1, r) && Inserted(cut, k + 1, r, rs')
    ensures Sorted(rs') && InWindow(rs', size)
    ensures Near(r.hi, s + 1) && s - rs[k].lo < size
  {
    hide Sorted, InWindow, Elems, Sum, Ascending, FitsAt, Inserted, Ranges.Insert;
    SplitOutElems(rs, k, s, cut, r);
    InsertIsInserted(cut, k + 1, r);
    SplitOutFits(rs, k, s, size, cut, r);
    SplitOutSorted(rs, k, s, size, cut, r, rs');
  }

  lemma SplitOutElems(rs: seq<Range>, k: nat, s: int, cut: seq<Range>, r: Range)
    requires Sorted(rs) && k < |rs| && rs[k].lo < s < rs[k].hi
    requires cut == rs[k := Range(rs[k].lo, s - 1)] && r == Range(s + 1, rs[k].hi)
    ensures Elems(Ranges.Insert(cut, k + 1, r)) == Elems(rs) - {s} && Sum(Ranges.Insert(cut, k + 1, r)) == Sum(rs) - 1
  {
    hide Elems, Sum, Sorted;
    OnlyIn(rs, k, s);
    SplitAt(rs, k);
    ReplaceMeaning(rs, k, cut[k]);
    InsertMeaning(cut, k + 1, r);
    assert Interval(rs[k].lo, rs[k].hi) - {s} == Interval(rs[k].lo, s - 1) + Interval(s + 1, rs[k].hi);
  }

  lemma SplitOutFits(rs: seq<Range>, k: nat, s: int, size: int, cut: seq<Range>, r: Range)
    requires Sorted(rs) && InWindow(rs, size) && k < |rs| && rs[k].lo < s < rs[k].hi && size < SEQ_NO_TH
    requires cut == rs[k := Range(rs[k].lo, s - 1)] && r == Range(s + 1, rs[k].hi)
    ensures Ascending(cut) && FitsAt(size, cut, k + 1, r) && Near(r.hi, s + 1) && s - rs[k].lo < size
  {
    assert k > 0 ==> rs[0].hi < rs[k].lo;
    forall i | 0 <= i < |rs| ensures -size < rs[i].lo - r.lo < size {
      assert i > 0 ==> rs[0].hi < rs[i].lo;
      assert rs[i].lo <= rs[i].hi;
    }
  }

  lemma SplitOutSorted(rs: seq<Range>, k: nat, s: int, size: int, cut: seq<Range>, r: Range, rs': seq<Range>)
    requires Sorted(rs) && InWindow(rs, size) && k < |rs| && rs[k].lo < s < rs[k].hi
    requires cut == rs[k := Range(rs[k].lo, s - 1)] && r == Range(s + 1, rs[k].hi)
    requires Inserted(cut, k + 1, r, rs')
    ensures Sorted(rs') && InWindow(rs', size)
  {
    forall i, j | 0 <= i < j < |rs'| ensures rs'[i].hi < rs'[j].lo {
      SplitOutAt(rs, k, s, cut, r, rs', i);
      SplitOutAt(rs, k, s, cut, r, rs', j);
    }
    forall i | 0 <= i < |rs'| ensures rs'[i].lo <= rs'[i].hi && rs'[i].hi - rs'[0].lo < size {
      SplitOutAt(rs, k, s, cut, r, rs', i);
      SplitOutAt(rs, k, s, cut, r, rs', 0);
    }
  }

  lemma SplitOutAt(rs: seq<Range>, k: nat, s: int, cut: seq<Range>, r: Range, rs': seq<Range>, i: nat)
    requires k < |rs| && cut == rs[k := Range(rs[k].lo, s - 1)] && r == Range(s + 1, rs[k].hi)
    requires Inserted(cut, k + 1, r, rs') && i < |rs'|
    ensures |rs'| == |rs| + 1
    ensures rs'[i] == if i < k then rs[i] else if i == k then Range(rs[k].lo, s - 1) else if i == k + 1 then r
      else rs[i - 1]
  {
  }

  // ----- searching backwards through the slots

  lemma EmptySlot(m: Mem, n: int, head: int, rs: seq<Range>, slots: seq<int>, d: int)
    requires Rep(m, n, head, rs, slots) && rs != [] && 0 <= d < n && m.data1[Step(head, d, n)] == -1
    ensures d > 0 && forall j :: 0 <= j < |rs| ==> rs[j].lo - rs[0].lo != d
    ensures Step(Step(head, d, n), -1, n) == Step(head, d - 1, n)
  {
    hide Rep, Wire;
    NodeAt(m, n, head, rs, slots, 0);
    forall j | 0 <= j < |rs| ensures rs[j].lo - rs[0].lo != d {
      NodeAt(m, n, head, rs, slots, j);
    }
    assert rs[0].lo - rs[0].lo != d;
  }

  lemma NodeAtDistance(m: Mem, n: int, head: int, rs: seq<Range>, slots: seq<int>, d: int) returns (k: nat)
    requires Rep(m, n, head, rs, slots) && rs != [] && 0 <= d < n && m.data1[Step(head, d, n)] != -1
    ensures k < |rs| && slots[k] == Step(head, d, n) && rs[k].lo - rs[0].lo == d
  {
    hide Rep;
    NodeAt(m, n, head, rs, slots, 0);
    var p := Step(head, d, n);
    if p !in Used(slots) {
      OutsideIsUnused(m, n, head, rs, slots, p);
    }
    k := NodeIn(slots, p);
    NodeAt(m, n, head, rs, slots, k);
    SameDistance(head, rs[k].lo - rs[0].lo, d, n);
  }

  // ----- backward links

  lemma PriorsAfterAppend(prior: seq<int>, n: int, slots: seq<int>, p: int)
    requires Priors(prior, n, slots) && slots != [] && 0 <= p < n && p !in Used(slots)
    ensures Priors(prior[p := slots[|slots| - 1]], n, slots + [p])
  {
  }

  lemma PriorAt(prior: seq<int>, n: int, slots: seq<int>, k: int)
    requires Priors(prior, n, slots) && 0 <= k < |slots|
    ensures |prior| == n && 0 <= slots[k] < n && prior[slots[k]] == Pred(slots, k)
    ensures k + 1 < |slots| ==> 0 <= slots[k + 1] < n
  {
  }

  lemma PriorsAfterDrop(prior: seq<int>, n: int, slots: seq<int>)
    requires Priors(prior, n, slots) && Distinct(slots) && slots != []
    ensures |slots| > 1 ==> 0 <= slots[1] < n
    ensures Priors(if |slots| > 1 then prior[slots[1] := -1] else prior, n, slots[1..])
  {
  }

  lemma PriorsAfterRemove(prior: seq<int>, n: int, slots: seq<int>, k: nat)
    requires Priors(prior, n, slots) && Distinct(slots) && 0 < k < |slots|
    ensures k + 1 < |slots| ==> 0 <= slots[k + 1] < n
    ensures Priors(if k + 1 < |slots| then prior[slots[k + 1] := slots[k - 1]] else prior, n, Without(slots, k))
  {
    var slots' := Without(slots, k);
    var prior' := if k + 1 < |slots| then prior[slots[k + 1] := slots[k - 1]] else prior;
    forall i | 0 <= i < |slots'| ensures 0 <= slots'[i] < n && prior'[slots'[i]] == Pred(slots', i) {
      var j := if i < k then i else i + 1;
      assert slots'[i] == slots[j] && prior[slots[j]] == Pred(slots, j);
      if j != k + 1 && k + 1 < |slots| {
        assert slots[j] != slots[k + 1];
      }
    }
  }

  lemma PriorsAfterShift(prior: seq<int>, n: int, slots: seq<int>, k: nat, p: int)
    requires Priors(prior, n, slots) && Distinct(slots) && k < |slots| && 0 <= p < n && p !in Used(slots)
    ensures k + 1 < |slots| ==> 0 <= slots[k + 1] < n
    ensures var prior1 := prior[p := Pred(slots, k)];
            Priors(if k + 1 < |slots| then prior1[slots[k + 1] := p] else prior1, n, slots[k := p])
  {
    var slots' := slots[k := p];
    var prior1 := prior[p := Pred(slots, k)];
    var prior' := if k + 1 < |slots| then prior1[slots[k + 1] := p] else prior1;
    forall i | 0 <= i < |slots'| ensures 0 <= slots'[i] < n && prior'[slots'[i]] == Pred(slots', i) {
      assert prior[slots[i]] == Pred(slots, i);
      UsedHas(slots, i);
      if k + 1 < |slots| {
        UsedHas(slots, k + 1);
        assert i != k + 1 ==> slots[i] != slots[k + 1];
      }
    }
  }

  lemma PriorsAfterSplice(prior: seq<int>, n: int, slots: seq<int>, k: nat, p: int, slots': seq<int>)
    requires Priors(prior, n, slots) && Distinct(slots) && k < |slots| && 0 <= p < n && p !in Used(slots)
    requires Inserted(slots, k + 1, p, slots')
    ensures k + 1 < |slots| ==> 0 <= slots[k + 1] < n
    ensures var prior1 := prior[p := slots[k]];
            Priors(if k + 1 < |slots| then prior1[slots[k + 1] := p] else prior1, n, slots')
  {
    var prior1 := prior[p := slots[k]];
    var prior' := if k + 1 < |slots| then prior1[slots[k + 1] := p] else prior1;
    hide Distinct, Used;
    if k + 1 < |slots| {
      UsedHas(slots, k + 1);
    }
    forall i | 0 <= i < |slots'| ensures 0 <= slots'[i] < n && prior'[slots'[i]] == Pred(slots', i) {
      if i != k + 1 {
        var j := if i <= k then i else i - 1;
        assert slots'[i] == slots[j] && prior[slots[j]] == Pred(slots, j);
        UsedHas(slots, j);
        if k + 1 < |slots| {
          DistinctAt(slots, j, k + 1);
        }
      }
    }
  }

  lemma SlotsAround(slots: seq<int>, k: nat, p: int)
    requires Distinct(slots) && k < |slots| && p !in Used(slots)
    ensures slots[k] != p && (k > 0 ==> slots[k - 1] != p && slots[k - 1] != slots[k])
    ensures k + 1 < |slots| ==> slots[k + 1] != p && slots[k + 1] != slots[k]
    ensures slots[0] == slots[k] <==> k == 0
    ensures slots[|slots| - 1] == slots[k] <==> k == |slots| - 1
  {
    UsedHas(slots, k);
    if k > 0 {
      UsedHas(slots, k - 1);
    }
    if k + 1 < |slots| {
      UsedHas(slots, k + 1);
    }
  }

  /** The arrays after range `k` has been moved to slot `p` hold the shifted list. */
  lemma ShiftedRep(m: Mem, prior: seq<int>, n: int, head: int, rs: seq<Range>, slots: seq<int>, k: nat, p: int,
                   r: Range, m': Mem, prior': seq<int>)
    requires Rep(m, n, head, rs, slots) && Ascending(rs) && Priors(prior, n, slots) && Distinct(slots)
    requires k < |rs| == |slots|
    requires forall j :: 0 <= j < |slots| ==> 0 <= slots[j] < n
    requires rs[k].lo + 1 - rs[0].lo < n && forall i :: k < i < |rs| ==> rs[k].lo + 1 < rs[i].lo
    requires r == Range(rs[k].lo + 1, rs[k].hi) && p == Step(slots[k], 1, n) && 0 <= p < n && p !in Used(slots)
    requires Sized(m, n) && |prior| == n
    requires m'.data1 == m.data1[p := Wire(r.lo)][slots[k] := -1]
    requires m'.data2 == m.data2[p := End(r)][slots[k] := -1]
    requires var next1 := m.next[p := m.next[slots[k]]];
             m'.next == if k > 0 then next1[slots[k - 1] := p] else next1
    requires var prior1 := prior[p := Pred(slots, k)];
             prior' == if k + 1 < |slots| then prior1[slots[k + 1] := p] else prior1
    ensures Rep(m', n, if k == 0 then p else head, rs[k := r], slots[k := p])
    ensures Priors(prior', n, slots[k := p])
  {
    hide Rep, Ascending, Priors, Distinct, Used, Shifted, Wire, Step;
    SlotsAround(slots, k, p);
    ShiftedAt(m, n, slots, k, p, r, m');
    RepAfterShift(m, n, head, rs, slots, k, m');
    PriorsAfterShift(prior, n, slots, k, p);
  }

  lemma FreshTarget(m: Mem, n: int, head: int, rs: seq<Range>, slots: seq<int>, k: nat)
    requires Rep(m, n, head, rs, slots) && Ascending(rs) && k < |rs|
    requires rs[k].lo + 1 - rs[0].lo < n
    requires forall i :: k < i < |rs| ==> rs[k].lo + 1 < rs[i].lo
    ensures Step(slots[k], 1, n) !in Used(slots)
  {
    PlacedAfterShift(n, head, rs, slots, k, rs[k].hi);
  }
}
