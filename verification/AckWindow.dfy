/** The history of acknowledgements the receiver has sent (udt4/src/window.cpp:48-143): a bounded
    queue in circular arrays. */
module AckWindows {
  import opened ReceiverSpec
  import opened Ring

  /** What the cast of the time difference to `int` leaves of it. */
  function ToInt32(x: int): (r: int)
    ensures -0x8000_0000 <= r < 0x8000_0000
    ensures -0x8000_0000 <= x < 0x8000_0000 ==> r == x
  {
    (x + 0x8000_0000) % 0x1_0000_0000 - 0x8000_0000
  }

  function NextPos(p: int, n: int): (next: int)
    requires n > 0
    ensures 0 <= next < n
  {
    (p + 1) % n
  }

  /** The three arrays hold the entries, oldest first, from position `tail` on. */
  ghost predicate Holds(nos: seq<int>, acks: seq<int>, times: seq<int>, tail: int,
                        entries: seq<AckRecord>, stamps: seq<int>)
  {
    && |nos| == |acks| == |times| && 0 <= tail < |nos|
    && |entries| == |stamps| <= |nos|
    && forall i :: 0 <= i < |entries| ==> HoldsAt(nos, acks, times, Step(tail, i, |nos|), entries[i], stamps[i])
  }

  predicate HoldsAt(nos: seq<int>, acks: seq<int>, times: seq<int>, p: int, e: AckRecord, stamp: int) {
    0 <= p < |nos| == |acks| == |times| && nos[p] == e.ackNo && acks[p] == e.ack && times[p] == stamp
  }

  class AckWindow {
    const size: nat
    const ackNos: array<int>
    const acks: array<int>
    const times: array<int>
    var head: nat
    var tail: nat

    ghost var entries: seq<AckRecord>   // oldest first
    ghost var stamps: seq<int>

    ghost predicate Valid()
      reads this, ackNos, acks, times
    {
      && ackNos.Length == acks.Length == times.Length == size
      && ackNos != acks && ackNos != times && acks != times
      && head < size && tail < size
      && |entries| == |stamps| < size
      && head == Step(tail, |entries|, size)
      && Holds(ackNos[..], acks[..], times[..], tail, entries, stamps)
    }

    constructor (size: nat)
      requires size > 0
      ensures Valid() && fresh(ackNos) && fresh(acks) && fresh(times)
      ensures this.size == size && entries == []
    {
      this.size := size;
      ackNos, acks, times := new int[size], new int[size], new int[size];
      head, tail := 0, 0;
      entries, stamps := [], [];
      new;
      ackNos[0] := -1;
    }

    /** Append an acknowledgement; the oldest one is forgotten when the window is full. */
    method Store(no: int, ack: int, now: int)
      requires Valid()
      modifies this, ackNos, acks, times
      ensures Valid()
      ensures entries == LastOf(old(entries) + [AckRecord(no, ack)], size - 1)
      ensures stamps == LastOf(old(stamps) + [now], size - 1)
    {
      hide Holds, Step, LastOf, NextPos;
      ghost var was := (ackNos[..], acks[..], times[..]);
      NextStep(tail, |entries|, size);
      Appended(was.0, was.1, was.2, tail, entries, stamps, no, ack, now);
      ackNos[head], acks[head], times[head] := no, ack, now;
      assert ackNos[..] == was.0[head := no] && acks[..] == was.1[head := ack] && times[..] == was.2[head := now];
      head := NextPos(head, size);
      entries, stamps := entries + [AckRecord(no, ack)], stamps + [now];
      FullOrNot(tail, |entries|, size);
      if head == tail {
        Dropped(ackNos[..], acks[..], times[..], tail, entries, stamps, 1);
        tail := NextPos(tail, size);
        entries, stamps := entries[1..], stamps[1..];
      }
      LastFits(old(entries) + [AckRecord(no, ack)], size - 1);
      LastFits(old(stamps) + [now], size - 1);
    }

    /** Find an acknowledgement by its number, and forget it and everything older. */
    method Acknowledge(no: int, now: int) returns (rtt: int, ack: int)
      requires Valid()
      modifies this, ackNos
      ensures Valid()
      ensures var i := FindAck(old(entries), no);
              if i == |old(entries)| then rtt == -1 && entries == old(entries) && stamps == old(stamps)
              else
                && ack == old(entries)[i].ack && rtt == ToInt32(now - old(stamps)[i])
                && entries == old(entries)[i + 1..] && stamps == old(stamps)[i + 1..]
    {
      hide Holds, ToInt32, NextPos;
      if head >= tail {
        rtt, ack := SearchStraight(no, now);
      } else {
        rtt, ack := SearchAround(no, now);
      }
    }

    /** The entries lie between tail and head. */
    method SearchStraight(no: int, now: int) returns (rtt: int, ack: int)
      requires Valid() && head >= tail
      modifies this, ackNos
      ensures Valid()
      ensures var i := FindAck(old(entries), no);
              if i == |old(entries)| then rtt == -1 && entries == old(entries) && stamps == old(stamps)
              else
                && ack == old(entries)[i].ack && rtt == ToInt32(now - old(stamps)[i])
                && entries == old(entries)[i + 1..] && stamps == old(stamps)[i + 1..]
    {
      hide Holds, ToInt32, NextPos;
      ack := 0;
      var i := tail;
      while i < head
        invariant tail <= i <= head && Valid()
        invariant entries == old(entries) && stamps == old(stamps) && head == old(head) && tail == old(tail)
        invariant forall k :: 0 <= k < i - tail ==> entries[k].ackNo != no
      {
        EntryAt(ackNos[..], acks[..], times[..], tail, entries, stamps, i - tail);
        if no == ackNos[i] {
          rtt, ack := TakeEntry(i, i - tail, no, now);
          if i + 1 == head {
            tail, head := 0, 0;
            ackNos[0] := -1;
            NothingHeld(ackNos[..], acks[..], times[..]);
          } else {
            tail := NextPos(i, size);
          }
          return;
        }
        i := i + 1;
      }
      NotFound(entries, no);
      rtt := -1;
    }

    /** The entries run past the end of the arrays. */
    method SearchAround(no: int, now: int) returns (rtt: int, ack: int)
      requires Valid() && head < tail
      modifies this, ackNos
      ensures Valid()
      ensures var i := FindAck(old(entries), no);
              if i == |old(entries)| then rtt == -1 && entries == old(entries) && stamps == old(stamps)
              else
                && ack == old(entries)[i].ack && rtt == ToInt32(now - old(stamps)[i])
                && entries == old(entries)[i + 1..] && stamps == old(stamps)[i + 1..]
    {
      hide Holds, ToInt32, NextPos;
      ack := 0;
      var j := tail;
      while j < head + size
        invariant tail <= j <= head + size && Valid()
        invariant entries == old(entries) && stamps == old(stamps) && head == old(head) && tail == old(tail)
        invariant forall k :: 0 <= k < j - tail ==> entries[k].ackNo != no
      {
        EntryAt(ackNos[..], acks[..], times[..], tail, entries, stamps, j - tail);
        var p := Wrapped(j, tail);
        if no == ackNos[p] {
          // the source tests here whether the entry lies at the head, which it never does
          assert p != head;
          rtt, ack := TakeEntry(p, j - tail, no, now);
          tail := NextPos(p, size);
          return;
        }
        j := j + 1;
      }
      NotFound(entries, no);
      rtt := -1;
    }

    method Wrapped(j: int, ghost from: int) returns (p: int)
      requires 0 <= from < size && from <= j < from + size
      ensures p == Step(from, j - from, size)
    {
      StepIsRemainder(from, j - from, size);
      p := j % size;
    }

    /** Read entry `i`, which lies at position `p`; it and all before it leave the window. */
    method TakeEntry(p: nat, ghost i: nat, ghost no: int, now: int) returns (rtt: int, ack: int)
      requires Valid() && i < |entries| && p == Step(tail, i, size)
      requires entries[i].ackNo == no && forall k :: 0 <= k < i ==> entries[k].ackNo != no
      modifies `entries, `stamps
      ensures FindAck(old(entries), no) == i
      ensures ack == old(entries)[i].ack && rtt == ToInt32(now - old(stamps)[i])
      ensures entries == old(entries)[i + 1..] && stamps == old(stamps)[i + 1..]
      ensures NextPos(p, size) < size && head == Step(NextPos(p, size), |entries|, size)
      ensures Holds(ackNos[..], acks[..], times[..], NextPos(p, size), entries, stamps)
    {
      hide Holds, ToInt32, Step, NextPos;
      EntryAt(ackNos[..], acks[..], times[..], tail, entries, stamps, i);
      FindAckIs(entries, no, i);
      ack := acks[p];
      rtt := ToInt32(now - times[p]);
      NextStep(tail, i, size);
      Dropped(ackNos[..], acks[..], times[..], tail, entries, stamps, i + 1);
      StepTwice(tail, i + 1, |entries| - i - 1, size);
      entries, stamps := entries[i + 1..], stamps[i + 1..];
    }
  }

  lemma LastFits<T>(s: seq<T>, k: nat)
    requires |s| <= k + 1
    ensures LastOf(s, k) == if |s| <= k then s else s[1..]
  {
  }

  lemma NextStep(h: int, d: int, n: int)
    requires 0 <= h < n && 0 <= d < n
    ensures 0 <= Step(h, d, n) < n
    ensures NextPos(Step(h, d, n), n) == if d + 1 < n then Step(h, d + 1, n) else h
  {
    var p := Step(h, d, n);
    if p + 1 == n {
      RemainderIs(p + 1, n, 1, 0);
    } else {
      RemainderIs(p + 1, n, 0, p + 1);
    }
  }

  lemma FullOrNot(tail: int, k: int, n: int)
    requires 0 <= tail < n && 0 < k <= n
    ensures k < n ==> Step(tail, k, n) != tail
    ensures 0 <= NextPos(tail, n) < n && Step(NextPos(tail, n), n - 1, n) == tail
    ensures Step(tail, 0, n) == tail
  {
    NextStep(tail, 0, n);
  }

  lemma Appended(nos: seq<int>, acks: seq<int>, times: seq<int>, tail: int, entries: seq<AckRecord>, stamps: seq<int>,
                 no: int, ack: int, now: int)
    requires Holds(nos, acks, times, tail, entries, stamps) && |entries| < |nos|
    ensures var p := Step(tail, |entries|, |nos|);
            && 0 <= p < |nos| && |nos| == |acks| == |times|
            && Holds(nos[p := no], acks[p := ack], times[p := now], tail, entries + [AckRecord(no, ack)],
               stamps + [now])
  {
  }

  lemma Dropped(nos: seq<int>, acks: seq<int>, times: seq<int>, tail: int, entries: seq<AckRecord>,
                stamps: seq<int>, k: nat)
    requires Holds(nos, acks, times, tail, entries, stamps) && 0 < k <= |entries|
    ensures var t := NextPos(Step(tail, k - 1, |nos|), |nos|);
            Holds(nos, acks, times, t, entries[k..], stamps[k..])
  {
    var n := |nos|;
    NextStep(tail, k - 1, n);
    var t := NextPos(Step(tail, k - 1, n), n);
    forall i | 0 <= i < |entries| - k
      ensures HoldsAt(nos, acks, times, Step(t, i, n), entries[k..][i], stamps[k..][i])
    {
      StepTwice(tail, k, i, n);
      assert HoldsAt(nos, acks, times, Step(tail, k + i, n), entries[k + i], stamps[k + i]);
    }
  }

  lemma EntryAt(nos: seq<int>, acks: seq<int>, times: seq<int>, tail: int, entries: seq<AckRecord>,
                stamps: seq<int>, i: nat)
    requires Holds(nos, acks, times, tail, entries, stamps) && i < |entries|
    ensures |stamps| == |entries|
    ensures HoldsAt(nos, acks, times, Step(tail, i, |nos|), entries[i], stamps[i])
  {
  }

  lemma NothingHeld(nos: seq<int>, acks: seq<int>, times: seq<int>)
    requires 0 < |nos| == |acks| == |times|
    ensures Holds(nos, acks, times, 0, [], [])
  {
  }

  lemma {:induction false} FindAckIs(acks: seq<AckRecord>, no: int, i: nat)
    requires i < |acks| && acks[i].ackNo == no
    requires forall k :: 0 <= k < i ==> acks[k].ackNo != no
    ensures FindAck(acks, no) == i
  {
  }

  lemma NotFound(acks: seq<AckRecord>, no: int)
    requires forall k :: 0 <= k < |acks| ==> acks[k].ackNo != no
    ensures FindAck(acks, no) == |acks|
  {
  }
}
