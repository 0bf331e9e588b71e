/** The receiving half of a connection as the program keeps it (udt4/src/core.cpp): wrapped sequence
    numbers, the loss list, the receive buffer and the history of acknowledgements.  Every method is
    proved to take the step that `ReceiverSpec` describes on unbounded numbers counted from the
    initial sequence number. */
module Receivers {
  import opened SeqNo
  import opened Packets
  import opened NakCoding
  import opened RcvLossLists
  import opened RcvBuffers
  import opened AckWindows
  import Spec = ReceiverSpec
  import opened ReceiverSpec
  import opened SenderSpec
  import opened Senders
  import Protocol
  import Effects

  function AckOnWire(e: AckRecord, isn: int): AckRecord {
    AckRecord(e.ackNo, Wire(isn + e.ack))
  }

  function AcksOnWire(acks: seq<AckRecord>, isn: int): seq<AckRecord> {
    seq(|acks|, i requires 0 <= i < |acks| => AckOnWire(acks[i], isn))
  }

  lemma NoAcks(isn: int)
    ensures AcksOnWire([], isn) == []
  {
  }

  lemma StoreOnWire(acks: seq<AckRecord>, isn: int, e: AckRecord)
    ensures AcksOnWire(StoreAck(acks, e), isn) ==
      LastOf(AcksOnWire(acks, isn) + [AckOnWire(e, isn)], ACK_WINDOW_SIZE - 1)
  {
  }

  lemma {:induction false} FindOnWire(acks: seq<AckRecord>, isn: int, no: int)
    ensures FindAck(AcksOnWire(acks, isn), no) == FindAck(acks, no)
    ensures var i := FindAck(acks, no);
            i < |acks| ==> AcksOnWire(acks, isn)[i + 1..] == AcksOnWire(acks[i + 1..], isn)
  {
    if acks != [] {
      assert AcksOnWire(acks, isn)[1..] == AcksOnWire(acks[1..], isn);
      FindOnWire(acks[1..], isn, no);
    }
  }

  /** What every method relies on: the receiver's part of the protocol's invariant, and that the sender has
      acknowledged an acknowledgement less than half the sequence space ago. */
  ghost predicate Steady(r: Rcv) {
    Protocol.ReceiverInv(r) && Ack2Lag(r) < SEQ_NO_TH
  }

  /** How far the receiver is ahead of the last acknowledgement the sender has acknowledged. */
  function Ack2Lag(r: Rcv): int {
    r.curr + 1 - r.lastAckAck
  }

  class Receiver {
    const isn: int
    const size: int
    const lossList: RcvLossList
    const buffer: RcvBuffer
    const ackWindow: AckWindow
    var lastAck: int
    var lastAckAck: int
    var currSeqNo: int
    var ackSeqNo: int

    ghost var r: Rcv

    ghost function Lists(): set<object> {
      {lossList, lossList.data1, lossList.data2, lossList.next, lossList.prior}
    }

    ghost function Acks(): set<object> {
      {ackWindow, ackWindow.ackNos, ackWindow.acks, ackWindow.times}
    }

    ghost function Slots(): (os: set<object>)
      reads buffer.units
      ensures buffer in os && buffer.units in os
    {
      {buffer, buffer.units} + buffer.Units()
    }

    ghost predicate Numbers()
      reads this
    {
      && lastAck == Wire(isn + r.lastAck)
      && lastAckAck == Wire(isn + r.lastAckAck)
      && currSeqNo == CurrWire(isn + r.curr)
      && ackSeqNo == r.ackNo
    }

    ghost predicate Buffered()
      reads this, buffer
    {
      && buffer.size == size == r.size
      && buffer.stored == r.stored && buffer.taken == r.taken
      && buffer.base == r.start && buffer.acked == r.lastAck && buffer.notch == r.notch
    }

    ghost predicate Apart()
      reads buffer.units
    {
      && Lists() !! Acks() && Lists() !! Slots() && Acks() !! Slots()
      && this !in Lists() + Acks() + Slots()
    }

    ghost function Repr(): set<object>
      reads buffer.units
    {
      {this} + Lists() + Acks() + Slots()
    }

    ghost predicate Valid()
      reads this, Lists(), Acks(), buffer.units, Slots()
      ensures Valid() ==> buffer.Valid() && buffer.base == r.start && buffer.acked == r.lastAck
    {
      && 0 <= isn <= MAX_SEQ_NO && 0 < size <= lossList.size < SEQ_NO_TH && ackWindow.size == ACK_WINDOW_SIZE
      && Apart()
      && lossList.Valid() && buffer.Valid() && ackWindow.Valid()
      && Shifted(lossList.Contents(), r.loss, isn)
      && ackWindow.entries == AcksOnWire(r.acks, isn)
      && Numbers() && Buffered()
    }

    /** The state after the handshake.  The loss list has a slot for every packet in flight, and the
        buffer is configured not to be larger. */
    constructor (isn: int, size: int, flightFlagSize: int, isStream: bool)
      requires 0 <= isn <= MAX_SEQ_NO && 0 < size <= flightFlagSize < SEQ_NO_TH
      ensures Valid() && fresh(Lists()) && fresh(Acks()) && fresh(Slots())
      ensures this.isn == isn && this.size == size && r == InitRcv(size, isStream)
    {
      hide RcvLossList.Valid, RcvBuffer.Valid, AckWindow.Valid, Shifted, RcvLossList.Contents, Wire,
        RcvBuffer.Units, AcksOnWire, CurrWire;
      this.isn, this.size := isn, size;
      lossList := new RcvLossList(flightFlagSize);
      buffer := new RcvBuffer(size);
      ackWindow := new AckWindow(ACK_WINDOW_SIZE);
      lastAck, lastAckAck := isn, isn;
      currSeqNo := isn - 1;
      ackSeqNo := 0;
      r := InitRcv(size, isStream);
      new;
      NothingShifted(isn);
      NoAcks(isn);
      SmallWire(isn);
      assert Apart();
    }

    /** A data packet has arrived; `nak` is the loss report it gives rise to, if any. */
    method OnData(unit: Unit, seqno: int, ghost n: int) returns (res: int, nak: seq<int>)
      requires Valid() && Protocol.ReceiverInv(r)
      requires unit.flag == 0 && this !in {unit as object} && unit !in Lists() + Acks()
      requires seqno == Wire(isn + n) && 0 <= n && Near(n, r.lastAck) && Near(n, r.curr) && Near(n, r.curr + 1)
      modifies this`r, this`currSeqNo, Lists(), buffer`maxPos, buffer`stored, buffer`cells, buffer.units, unit`flag
      ensures Valid() && Slots() <= old(Slots()) + {unit}
      ensures r == Spec.OnData(old(r), n, old(unit.frag)).0
      ensures NakSent(Spec.OnData(old(r), n, old(unit.frag)).1, nak, isn)
      ensures Effects.Stores(old(r), n, old(unit.frag), r) && Codes(nak, r.loss - old(r).loss, isn)
    {
      hide RcvLossList.Valid, RcvBuffer.Valid, AckWindow.Valid, Shifted, Wire, CurrWire, Off, Cmp, NakSent, Apart,
        RcvBuffer.Units, Spec.NoteArrival, Codes, Effects.Stores;
      GapIsCoded(r, n, unit.frag, isn);
      nak := [];
      OffIsDistance(isn + r.lastAck, isn + n);
      var offset := Off(lastAck, seqno);
      if offset < 0 || offset >= buffer.GetAvailBufSize() {
        NothingSent(isn);
        return -1, [];
      }
      var accepted := Accept(unit, offset, n);
      if !accepted {
        NothingSent(isn);
        return -1, [];
      }
      nak := NoteArrival(seqno, n);
      return 0, nak;
    }

    /** Put a packet into the receive buffer. */
    method Accept(unit: Unit, offset: int, ghost n: int) returns (accepted: bool)
      requires Valid() && unit.flag == 0 && unit !in Lists() + Acks() + {this}
      requires offset == n - r.lastAck && 0 <= offset < Avail(r)
      modifies this`r, buffer`maxPos, buffer`stored, buffer`cells, buffer.units, unit`flag
      ensures Valid() && Slots() <= old(Slots()) + {unit}
      ensures accepted == (n !in old(r).stored)
      ensures r == if accepted then old(r).(stored := old(r).stored[n := unit.frag]) else old(r)
    {
      hide RcvLossList.Valid, RcvBuffer.Valid, AckWindow.Valid, Shifted, Wire, CurrWire;
      var res := buffer.AddData(unit, offset);
      accepted := res >= 0;
      if accepted {
        r := r.(stored := r.stored[n := unit.frag]);
      }
    }

    /** The second half of `processData`. */
    method NoteArrival(seqno: int, ghost n: int) returns (nak: seq<int>)
      requires Valid() && seqno == Wire(isn + n) && 0 <= n && Near(n, r.curr) && Near(n, r.curr + 1)
      requires 0 <= r.lastAck <= n < r.lastAck + size && r.lastAck <= r.curr + 1
      requires forall x :: x in r.loss ==> r.lastAck <= x <= r.curr
      modifies this`r, this`currSeqNo, Lists()
      ensures Valid() && Slots() == old(Slots())
      ensures r == Spec.NoteArrival(old(r), n).0
      ensures NakSent(Spec.NoteArrival(old(r), n).1, nak, isn)
    {
      hide RcvLossList.Valid, RcvBuffer.Valid, AckWindow.Valid, Shifted, Wire, CurrWire, Cmp, Inc, NakSent;
      IncIsSuccessor(isn + r.curr);
      CmpIsOrder(isn + n, isn + r.curr + 1);
      CurrIsOrder(isn + r.curr, isn + n);
      CurrWireIsWire(isn + n);
      nak := [];
      if Cmp(seqno, Inc(currSeqNo)) > 0 {
        nak := ReportGap(seqno, n);
      } else {
        NothingSent(isn);
      }
      if Cmp(seqno, currSeqNo) > 0 {
        currSeqNo := seqno;
        r := r.(curr := n);
      } else {
        Found(seqno, n);
      }
    }

    method ReportGap(seqno: int, ghost n: int) returns (nak: seq<int>)
      requires Valid() && seqno == Wire(isn + n) && r.curr + 1 < n && Near(n, r.curr)
      requires 0 <= r.lastAck <= n < r.lastAck + size && r.lastAck <= r.curr + 1
      requires forall x :: x in r.loss ==> r.lastAck <= x <= r.curr
      modifies this`r, Lists()
      ensures Valid() && Slots() == old(Slots())
      ensures r == old(r).(loss := old(r).loss + Interval(old(r).curr + 1, n - 1))
      ensures NakSent([Nak([LossReport(old(r).curr + 1, n - 1)])], nak, isn)
    {
      hide RcvLossList.Valid, RcvBuffer.Valid, AckWindow.Valid, Shifted, Wire, CurrWire, Inc, Dec, NakSent;
      ghost var c := r.curr;
      IncIsSuccessor(isn + c);
      DecIsPredecessor(isn + n);
      var first, last := Inc(currSeqNo), Dec(seqno);
      GapFits(lossList.Contents(), r, isn, n, size);
      ShiftedUnion(lossList.Contents(), r.loss, isn, c + 1, n - 1);
      lossList.Insert(first, last, isn + c + 1, isn + n - 1);
      SameWire(isn + c + 1, isn + n - 1);
      nak := if first == last then [last] else [SetFlag(first), last];
      ReportWords(isn, c + 1, n - 1, nak);
      r := r.(loss := r.loss + Interval(c + 1, n - 1));
    }

    /** A retransmitted packet has arrived. */
    method Found(seqno: int, ghost n: int)
      requires Valid() && seqno == Wire(isn + n) && 0 <= n <= r.curr && Near(n, r.curr)
      requires 0 <= r.lastAck <= n < r.lastAck + size
      requires forall x :: x in r.loss ==> r.lastAck <= x <= r.curr
      modifies this`r, Lists()
      ensures Valid() && Slots() == old(Slots())
      ensures r == old(r).(loss := old(r).loss - {n})
    {
      hide RcvLossList.Valid, RcvBuffer.Valid, AckWindow.Valid, Shifted, Wire, CurrWire;
      LossNear(lossList.Contents(), r, isn, n, size);
      ShiftedWithout(lossList.Contents(), r.loss, isn, n);
      var found := lossList.Remove(seqno, isn + n);
      r := r.(loss := r.loss - {n});
    }

    /** The number to acknowledge. */
    method AckNumber() returns (ack: int)
      requires Valid() && 0 <= r.lastAck <= r.curr + 1
      ensures ack == Wire(isn + AckValue(r))
    {
      hide RcvLossList.Valid, RcvBuffer.Valid, AckWindow.Valid, Shifted, Wire, CurrWire, Inc, Min;
      ShiftedMin(lossList.Contents(), r.loss, isn);
      NoElements(lossList.Contents());
      IncIsSuccessor(isn + r.curr);
      var n := lossList.GetLossLength();
      if n == 0 {
        ack := Inc(currSeqNo);
      } else {
        ack := lossList.GetFirstLostSeq();
      }
    }

    /** A light acknowledgement, or -1 when there is nothing to say. */
    method SendLightAck() returns (ack: int)
      requires Valid() && Steady(r)
      ensures if ack == -1 then Spec.SendLightAck(r) == []
              else ack == Wire(isn + AckValue(r)) && Spec.SendLightAck(r) == [LightAck(AckValue(r))]
    {
      hide RcvLossList.Valid, RcvBuffer.Valid, AckWindow.Valid, Shifted, Wire, CurrWire, AckValue;
      AckIsNear(r);
      ack := AckNumber();
      WireInjective(isn + AckValue(r), isn + r.lastAckAck);
      if ack == lastAckAck {
        ack := -1;
      }
    }

    /** The acknowledgement timer; `due` says that enough time has passed to repeat the last
        acknowledgement.  A full acknowledgement carries its own number, the acknowledged number and
        the window. */
    method SendAck(due: bool, now: int) returns (sent: bool, ackNo: int, ack: int, window: int, moved: bool)
      requires Valid() && Steady(r)
      modifies this`r, this`lastAck, this`ackSeqNo, buffer`lastAckPos, buffer`maxPos, buffer`acked, Acks()
      ensures Valid() && Slots() == old(Slots())
      ensures r == Spec.SendAck(old(r), due).0
      ensures Spec.SendAck(old(r), due).1 == if sent then [Ack(ackNo, r.lastAck, window)] else []
      ensures sent ==> ack == Wire(isn + r.lastAck)
      ensures moved == (r.lastAck > old(r).lastAck) && Effects.IsFirstMissing(r, r.lastAck)
      ensures sent == Effects.AckIsDue(old(r), due, r)
      ensures sent ==> ackNo == IncAck(old(r).ackNo) && window == Effects.Larger(2, Effects.RoomLeft(r))
    {
      hide RcvLossList.Valid, RcvBuffer.Valid, AckWindow.Valid, Shifted, Wire, CurrWire, AckValue, Off, Cmp, IncAck,
        StoreAck, AcksOnWire, Protocol.ReceiverInv, Effects.IsFirstMissing;
      Effects.FirstMissingIsAcked(r, due);
      sent, ackNo, window, moved := false, 0, 0, false;
      ghost var a := AckValue(r);
      AckIsNear(r);
      ack := AckNumber();
      WireInjective(isn + a, isn + r.lastAckAck);
      WireInjective(isn + a, isn + r.lastAck);
      CmpIsOrder(isn + a, isn + r.lastAck);
      CmpIsOrder(isn + a, isn + r.lastAckAck);
      OffIsDistance(isn + r.lastAck, isn + a);
      if ack == lastAckAck {
        return;
      }
      if Cmp(ack, lastAck) > 0 {
        var acksize := Off(lastAck, ack);
        lastAck := ack;
        moved := true;
        buffer.AckData(acksize);
        r := r.(lastAck := a);
      } else if ack == lastAck {
        if !due {
          return;
        }
      } else {
        return;
      }
      if Cmp(lastAck, lastAckAck) > 0 {
        ackNo, window := Announce(now);
        sent := true;
      }
    }

    /** Number an acknowledgement, work out the window it announces and remember it. */
    method Announce(now: int) returns (ackNo: int, window: int)
      requires Valid()
      modifies this`r, this`ackSeqNo, Acks()
      ensures Valid() && Slots() == old(Slots())
      ensures ackNo == IncAck(old(r).ackNo) && window == AdvertisedWindow(old(r))
      ensures r == old(r).(ackNo := ackNo, acks := StoreAck(old(r).acks, AckRecord(ackNo, old(r).lastAck)))
    {
      hide RcvLossList.Valid, RcvBuffer.Valid, AckWindow.Valid, Shifted, Wire, CurrWire, IncAck, StoreAck,
        AcksOnWire, RcvLossList.Contents, LastOf;
      ackSeqNo := IncAck(ackSeqNo);
      window := buffer.GetAvailBufSize();
      if window < 2 {
        window := 2;
      }
      ackNo := ackSeqNo;
      StoreOnWire(r.acks, isn, AckRecord(ackSeqNo, r.lastAck));
      ackWindow.Store(ackSeqNo, lastAck, now);
      r := r.(ackNo := ackSeqNo, acks := StoreAck(r.acks, AckRecord(ackSeqNo, r.lastAck)));
    }

    /** An acknowledgement has been acknowledged. */
    method OnAck2(ackNo: int, now: int) returns (rtt: int)
      requires Valid() && Steady(r)
      modifies this`r, this`lastAckAck, Acks()
      ensures Valid() && Slots() == old(Slots())
      ensures r == Spec.OnAck2(old(r), ackNo, rtt > 0)
    {
      hide RcvLossList.Valid, RcvBuffer.Valid, AckWindow.Valid, Shifted, Wire, CurrWire, Cmp, FindAck;
      FindOnWire(r.acks, isn, ackNo);
      ghost var i := FindAck(r.acks, ackNo);
      ghost var was := r;
      var ack;
      rtt, ack := ackWindow.Acknowledge(ackNo, now);
      r := Spec.OnAck2(r, ackNo, rtt > 0);
      if rtt <= 0 {
        return;
      }
      CmpIsOrder(isn + was.acks[i].ack, isn + was.lastAckAck);
      if Cmp(ack, lastAckAck) > 0 {
        lastAckAck := ack;
      }
    }

    /** `recv`: read a stream. */
    method Recv(data: array<Byte>, len: nat) returns (n: nat)
      requires Valid() && len <= data.Length && data !in Lists() + Acks() + Slots()
      requires Readable(r.stored, r.start, r.lastAck, r.notch) && r.taken == {}
      modifies this`r, buffer`startPos, buffer`notch, buffer`base, buffer`cells, buffer.units, buffer.Units()`flag, data
      ensures Valid() && Slots() <= old(Slots())
      ensures r == Spec.Recv(old(r), len)
      ensures n <= len && r.out == old(r).out + data[..n] && data[n..] == old(data[n..])
    {
      hide RcvLossList.Valid, RcvBuffer.Valid, AckWindow.Valid, Shifted, Wire, CurrWire, ReadFrom, Readable,
        RcvBuffer.Units;
      n := buffer.ReadBuffer(data, len);
      r := Spec.Recv(r, len);
    }

    /** `recvmsg`: read a message. */
    method RecvMsg(data: array<Byte>, len: nat) returns (n: nat)
      requires Valid() && len <= data.Length && data !in Lists() + Acks() + Slots()
      requires MessagesInOrder(r)
      modifies this`r, buffer`startPos, buffer`base, buffer`taken, buffer`cells, buffer.units, buffer.Units()`flag, data
      ensures Valid() && Slots() <= old(Slots()) && buffer.Units() <= old(buffer.Units())
      ensures Spec.RecvMsg(old(r), len, r)
      ensures n <= len && (Delivers(old(r).got, r.got, data[..n]) || (n == 0 && r.got == old(r).got))
    {
      hide RcvLossList.Valid, RcvBuffer.Valid, AckWindow.Valid, Shifted, Wire, CurrWire, RcvBuffer.Units,
        MessagesInOrder, AfterSkip, SkipTaken, Deliverable, FirstDeliverable, LooksEmpty, WellFramed, Truncated,
        Slice, Bytes;
      ghost var v := buffer.AsRcv();
      SameLooks(r, v);
      OrderIsFramed(r);
      SkipIsSkipTaken(r);
      ghost var some, np, nq;
      n, some, np, nq := buffer.ReadMsg(data, len);
      ghost var r0 := SkipTaken(r);
      SkipTakenMeaning(r);
      SameSkip(r, v);
      SameDeliverable(r0, AfterSkip(v));
      r := if some then Take(r0, np, nq, len) else r0;
    }

    /** What `recvmsg` asks after reading: is there another message? */
    method HasMessage() returns (has: bool)
      requires Valid() && MessagesInOrder(r)
      modifies this`r, buffer`startPos, buffer`base, buffer`taken, buffer`cells, buffer.units, buffer.Units()`flag
      ensures Valid() && Slots() <= old(Slots())
      ensures r == SkipTaken(old(r))
      ensures has <==> !LooksEmpty(old(r)) && (FillsBuffer(r) || exists p, q :: Deliverable(r, p, q))
    {
      hide RcvLossList.Valid, RcvBuffer.Valid, AckWindow.Valid, Shifted, Wire, CurrWire, RcvBuffer.Units,
        MessagesInOrder, AfterSkip, SkipTaken, Deliverable, FirstDeliverable, LooksEmpty, WellFramed, FillsBuffer;
      ghost var v := buffer.AsRcv();
      SameLooks(r, v);
      OrderIsFramed(r);
      SkipIsSkipTaken(r);
      var n := buffer.GetRcvMsgNum();
      has := n > 0;
      SameSkip(r, v);
      SkipTakenMeaning(r);
      r := SkipTaken(r);
      SameDeliverable(r, AfterSkip(v));
      SameFill(r, AfterSkip(v));
    }
  }

  /** The words of the loss report sent, if one was sent. */
  ghost predicate NakSent(out: seq<Msg>, nak: seq<int>, isn: int) {
    if out == [] then nak == []
    else |out| == 1 && out[0].Nak? && nak == NakCoding.Encode(AllAbsolute(out[0].items, isn))
  }

  /** The words code a report of exactly these numbers, and nothing is reported when there are none. */
  ghost predicate Codes(nak: seq<int>, missing: set<int>, isn: int) {
    if missing == {} then nak == []
    else exists items :: NakCoding.Reported(items) == missing && nak == NakCoding.Encode(AllAbsolute(items, isn))
  }

  lemma GapIsCoded(r: Rcv, n: int, f: Frag, isn: int)
    requires Protocol.ReceiverInv(r)
    ensures var (r', out) := Spec.OnData(r, n, f);
            Effects.Stores(r, n, f, r') && forall nak :: NakSent(out, nak, isn) ==> Codes(nak, r'.loss - r.loss, isn)
  {
    hide NakCoding.Reported, NakCoding.Encode, Spec.NoteArrival, Effects.Stores;
    var (r', out) := Spec.OnData(r, n, f);
    Effects.ArrivalIsStored(r, n, f);
    Effects.GapIsReported(r, n, f);
    forall nak | NakSent(out, nak, isn) ensures Codes(nak, r'.loss - r.loss, isn) {
    }
  }

  /** The number to acknowledge lies between the last one acknowledged and the next one expected. */
  lemma AckIsNear(r: Rcv)
    requires Steady(r) && 0 < r.size < SEQ_NO_TH
    ensures 0 <= r.lastAck <= AckValue(r) <= r.curr + 1 && r.lastAckAck <= r.lastAck
    ensures Near(AckValue(r), r.lastAckAck) && Near(AckValue(r), r.lastAck)
    ensures AckValue(r) < r.start + r.size
  {
    Protocol.AckIsFirstMissing(r);
  }

  /** Two states that agree about what is stored and read. */
  predicate SameView(r: Rcv, v: Rcv) {
    r.stored == v.stored && r.lastAck == v.lastAck && r.start == v.start && r.taken == v.taken
  }

  lemma SameLooks(r: Rcv, v: Rcv)
    requires SameView(r, v)
    ensures LooksEmpty(r) == LooksEmpty(v)
  {
  }

  lemma SameSkip(r: Rcv, v: Rcv)
    requires SameView(r, v)
    ensures AfterSkip(v) == v.(start := AfterSkip(r).start, taken := AfterSkip(r).taken)
  {
  }

  lemma SameDeliverable(r: Rcv, v: Rcv)
    requires SameView(r, v)
    ensures forall p, q :: Deliverable(r, p, q) == Deliverable(v, p, q)
    ensures forall p, q :: FirstDeliverable(r, p, q) == FirstDeliverable(v, p, q)
    ensures forall p, q :: FirstDeliverable(r, p, q) ==> Deliverable(r, p, q)
  {
    forall p, q ensures Deliverable(r, p, q) == Deliverable(v, p, q) {
      SameWhole(r, v, p, q);
    }
  }

  lemma SameFill(r: Rcv, v: Rcv)
    requires SameView(r, v) && r.size == v.size
    ensures FillsBuffer(r) == FillsBuffer(v)
  {
  }

  lemma SameWhole(r: Rcv, v: Rcv, p: int, q: int)
    requires SameView(r, v)
    ensures Whole(r, p, q) == Whole(v, p, q)
  {
  }

  lemma OrderIsFramed(r: Rcv)
    requires MessagesInOrder(r)
    ensures WellFramed(r.stored, r.start)
  {
  }

  lemma GapFits(c: set<int>, r: Rcv, isn: int, n: int, size: int)
    requires Shifted(c, r.loss, isn) && r.lastAck <= n < r.lastAck + size && r.lastAck <= r.curr + 1
    requires forall x :: x in r.loss ==> r.lastAck <= x <= r.curr
    ensures forall x :: x in c ==> x < isn + r.curr + 1 && isn + n - 1 - x < size
  {
  }

  lemma LossNear(c: set<int>, r: Rcv, isn: int, n: int, size: int)
    requires Shifted(c, r.loss, isn) && r.lastAck <= n <= r.curr && Near(n, r.curr)
    requires n < r.lastAck + size < r.lastAck + SEQ_NO_TH
    requires forall x :: x in r.loss ==> r.lastAck <= x <= r.curr
    ensures forall x :: x in c ==> Near(x, isn + n) && isn + n - x < size
  {
  }

  /** The one or two words of an immediate loss report. */
  lemma ReportWords(isn: int, a: int, b: int, nak: seq<int>)
    requires nak == if a == b then [Wire(isn + b)] else [SetFlag(Wire(isn + a)), Wire(isn + b)]
    ensures NakSent([Nak([LossReport(a, b)])], nak, isn)
  {
    var items := [LossReport(a, b)];
    var abs := AllAbsolute(items, isn);
    assert abs == [] + [Absolute(items[0], isn)];
    EncodeAppend([], abs[0]);
  }

  /** One more delivery, of these bytes. */
  predicate Delivers(before: seq<Delivery>, after: seq<Delivery>, bytes: seq<Byte>) {
    |after| == |before| + 1 && after[|before|].data == bytes
  }

  lemma NothingSent(isn: int)
    ensures NakSent([], [], isn)
  {
  }
}
