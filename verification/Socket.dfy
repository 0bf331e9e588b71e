/** A connected socket (udt4/src/core.cpp): a sender, a receiver and the polls that watch it.  Its
    methods keep the ready sets of the polls in agreement with the buffers. */
module Sockets {
  import opened SeqNo
  import opened Ring
  import opened Packets
  import opened SenderSpec
  import opened ReceiverSpec
  import opened SndBuffers
  import opened RcvBuffers
  import opened Senders
  import opened Receivers
  import opened Epolls
  import opened Readiness
  import Protocol
  import Effects
  import Recovery

  class Socket {
    const id: SocketId
    const isStream: bool
    const sndBufSize: int     // in packets
    const sender: Sender
    const receiver: Receiver
    const epoll: EPoll
    var pollIds: set<int>

    ghost function Offers(): Offer
      reads sender, receiver
    {
      Offer(isStream, |sender.s.frags| - sender.s.dataAck < sndBufSize,
            receiver.r.start < receiver.r.lastAck, AckedMessage(receiver.r))
    }

    ghost predicate Apart()
      reads sender.buffer, receiver.buffer.units
    {
      && sender.Repr() !! receiver.Repr() && epoll !in sender.Repr() + receiver.Repr()
      && this !in sender.Repr() + receiver.Repr() + {epoll}
    }

    ghost function Repr(): set<object>
      reads sender.buffer, receiver.buffer.units
    {
      {this, epoll} + sender.Repr() + receiver.Repr()
    }

    /** Everything but the polls. */
    ghost predicate Built()
      reads sender, sender.Lists(), sender.buffer, sender.Areas()
      reads receiver, receiver.Lists(), receiver.Acks(), receiver.buffer.units, receiver.Slots()
    {
      && Apart() && sender.Valid() && receiver.Valid()
      && receiver.r.isStream == isStream
      && |sender.s.frags| - sender.s.dataAck <= sndBufSize
    }

    ghost predicate Valid()
      reads this, epoll, sender, sender.Lists(), sender.buffer, sender.Areas()
      reads receiver, receiver.Lists(), receiver.Acks(), receiver.buffer.units, receiver.Slots()
    {
      Built() && Agree(epoll.polls, pollIds, id, Offers())
    }

    /** A socket that has just been connected and is in no poll yet. */
    constructor (id: SocketId, isStream: bool, sndBufSize: int, sender: Sender, receiver: Receiver, epoll: EPoll)
      requires sender.Valid() && receiver.Valid() && sender.Repr() !! receiver.Repr()
      requires epoll !in sender.Repr() + receiver.Repr()
      requires sender.s == InitSnd(sender.s.mss, sender.size, sender.isn) && sndBufSize > 0
      requires receiver.size > 0 && receiver.r == InitRcv(receiver.size, isStream)
      requires forall e :: e in epoll.polls ==> NotInPoll(epoll.polls[e], id)
      ensures Valid() && pollIds == {}
      ensures this.id == id && this.isStream == isStream && this.sndBufSize == sndBufSize
      ensures this.sender == sender && this.receiver == receiver && this.epoll == epoll
    {
      hide Sender.Valid, Receiver.Valid, AckedMessage, Agree, RcvBuffer.Units, Blocks, Buffers;
      this.id, this.isStream, this.sndBufSize := id, isStream, sndBufSize;
      this.sender, this.receiver, this.epoll := sender, receiver, epoll;
      pollIds := {};
      new;
      NoMessageYet(receiver.r);
      NotYetWatched(epoll.polls, id, Offers());
    }

    /** The polls watch the socket as before, and it knows the same polls, except for those that are gone. */
    twostate predicate SameInterest()
      reads this, epoll
    {
      && SameWatch(old(epoll.polls), epoll.polls)
      && (pollIds == old(pollIds) || pollIds == old(pollIds) * old(epoll.polls).Keys)
    }

    /** `send`: as much of the data as there is room for. */
    method Send(data: seq<Byte>) returns (res: SendResult, n: nat)
      requires Valid() && Ordered(sender.s, sender.size)
      modifies sender`s, sender.Areas(), epoll`polls, this`pollIds
      ensures Valid() && (res == WrongType <==> !isStream) && (res == Accepted <==> n > 0)
      ensures isStream ==> (res == NothingToSend <==> data == []) && res != TooLarge
      ensures var room := Room(old(sender.s), sndBufSize);
              n == if !isStream then 0 else if |data| <= room then |data| else room
      ensures sender.s == if n == 0 then old(sender.s) else UserSend(old(sender.s), data[..n], false)
      ensures SameButFor(old(epoll.polls), epoll.polls, id) && SameInterest()
      ensures fresh(Repr() - old(Repr()))
      ensures receiver.r == old(receiver.r)
    {
      hide Sender.Valid, Receiver.Valid, Agree, UserSend, AckedMessage, PacketCount, SameButFor, Room;
      SameForAll(epoll.polls, id);
      RoomInBytes(sender.s, sndBufSize);
      if !isStream {
        return WrongType, 0;
      }
      if |data| == 0 {
        return NothingToSend, 0;
      }
      if sndBufSize <= sender.buffer.GetCurrBufSize() {
        return NoRoom, 0;
      }
      var size := (sndBufSize - sender.buffer.GetCurrBufSize()) * sender.buffer.mss;
      if size > |data| {
        size := |data|;
      }
      res, n := Accepted, size;
      CountFits(n, sender.buffer.mss, sndBufSize - sender.buffer.GetCurrBufSize());
      AddToBuffer(data[..n], false);
    }

    /** `sendmsg`: the whole message or nothing.  The results are those of the calls that do not wait. */
    method SendMsg(data: seq<Byte>, inOrder: bool) returns (res: SendResult)
      requires Valid() && Ordered(sender.s, sender.size)
      modifies sender`s, sender.Areas(), epoll`polls, this`pollIds
      ensures Valid() && (res == WrongType <==> isStream)
      ensures !isStream ==> (res == Accepted <==> 0 < |data| <= Room(old(sender.s), sndBufSize))
      ensures sender.s == if res == Accepted then UserSend(old(sender.s), data, inOrder) else old(sender.s)
      ensures !isStream ==> (res == TooLarge <==> |data| > sndBufSize * sender.s.mss)
      ensures !isStream ==> (res == NothingToSend <==> data == [])
      ensures SameButFor(old(epoll.polls), epoll.polls, id) && SameInterest()
      ensures fresh(sender.Areas() - old(sender.Areas())) && fresh(Repr() - old(Repr()))
      ensures receiver.r == old(receiver.r)
    {
      hide Sender.Valid, Receiver.Valid, Agree, UserSend, AckedMessage, PacketCount, SameButFor;
      SameForAll(epoll.polls, id);
      if isStream {
        return WrongType;
      }
      if |data| == 0 {
        return NothingToSend;
      }
      RoomBound(sndBufSize, sender.buffer.GetCurrBufSize(), sender.buffer.mss);
      if |data| > sndBufSize * sender.buffer.mss {
        return TooLarge;
      }
      if (sndBufSize - sender.buffer.GetCurrBufSize()) * sender.buffer.mss < |data| {
        return NoRoom;
      }
      CountFits(|data|, sender.buffer.mss, sndBufSize - sender.buffer.GetCurrBufSize());
      AddToBuffer(data, inOrder);
      return Accepted;
    }

    /** `addBuffer`, and no more write readiness when the buffer is full. */
    method AddToBuffer(data: seq<Byte>, inOrder: bool)
      requires Valid() && Ordered(sender.s, sender.size)
      requires PacketCount(|data|, sender.buffer.mss) <= sndBufSize - sender.buffer.count
      modifies sender`s, sender.Areas(), epoll`polls, this`pollIds
      ensures Valid() && sender.s == UserSend(old(sender.s), data, inOrder)
      ensures SameButFor(old(epoll.polls), epoll.polls, id) && SameInterest()
      ensures fresh(sender.Areas() - old(sender.Areas())) && fresh(Repr() - old(Repr()))
      ensures receiver.r == old(receiver.r)
    {
      hide Built, Agree, AckedMessage, PacketCount, Fragments, Repr, Sender.Areas, Changed, SameButFor;
      SameForAll(epoll.polls, id);
      ghost var o := Offers();
      var full := PassData(data, inOrder);
      assert Offers() == o.(room := !full);
      if full {
        AfterDisableWrite(epoll.polls, pollIds, id, o);
        ReportsKeepWatch(epoll.polls, pollIds, WriteOff, id);
        Tell(WriteOff);
      }
    }

    // The calls into the poll layer; they touch neither the sender nor the receiver.

    method Tell(c: Change)
      requires Built()
      modifies epoll`polls, this`pollIds
      ensures Built() && pollIds == old(pollIds) * old(epoll.polls).Keys
      ensures epoll.polls == Changed(old(epoll.polls), old(pollIds), c, id)
      ensures SameButFor(old(epoll.polls), epoll.polls, id) && epoll.polls.Keys == old(epoll.polls).Keys
    {
      hide Sender.Valid, Receiver.Valid, Changed, SameButFor;
      ChangedOnlyFor(epoll.polls, pollIds, c, id);
      var left := epoll.Report(id, pollIds, c);
      assert Built();
      pollIds := left;
    }

    /** `add_usock` and the first line of `addEPoll`. */
    method AddUsock(eid: int, ev: Events) returns (ok: bool)
      requires Built()
      modifies epoll`polls, this`pollIds
      ensures Built() && ok == (eid in old(epoll.polls))
      ensures epoll.polls == if ok then old(epoll.polls)[eid := Watched(old(epoll.polls)[eid], id, ev)]
                             else old(epoll.polls)
      ensures pollIds == if ok then old(pollIds) + {eid} else old(pollIds)
    {
      hide Sender.Valid, Receiver.Valid;
      ok := epoll.AddUsock(eid, id, ev);
      assert Built();
      if ok {
        pollIds := pollIds + {eid};
      }
    }

    /** The first line of `removeEPoll`. */
    method ForgetPoll(eid: int)
      requires Built()
      modifies this`pollIds
      ensures Built() && pollIds == old(pollIds) - {eid}
    {
      hide Sender.Valid, Receiver.Valid;
      pollIds := pollIds - {eid};
    }

    method RemoveUsock(eid: int)
      requires Built()
      modifies epoll`polls
      ensures Built()
      ensures var before := old(epoll.polls);
              epoll.polls == if eid in before then before[eid := Forgotten(before[eid], id)] else before
    {
      hide Sender.Valid, Receiver.Valid;
      var ok := epoll.RemoveUsock(eid, id);
    }

    method PassData(data: seq<Byte>, inOrder: bool) returns (full: bool)
      requires Built() && Ordered(sender.s, sender.size)
      requires PacketCount(|data|, sender.buffer.mss) <= sndBufSize - sender.buffer.count
      modifies sender`s, sender.Areas()
      ensures Built() && sender.s == UserSend(old(sender.s), data, inOrder)
      ensures full == (|sender.s.frags| - sender.s.dataAck >= sndBufSize)
      ensures fresh(sender.Areas() - old(sender.Areas())) && fresh(Repr() - old(Repr()))
      ensures |sender.s.frags| >= |old(sender.s).frags| && receiver.r == old(receiver.r)
      ensures epoll.polls == old(epoll.polls) && pollIds == old(pollIds)
    {
      hide Sender.Valid, Receiver.Valid, PacketCount, Fragments, Sender.Lists, Sender.Areas;
      FragmentCount(Message(data, sender.s.nextNo, inOrder), sender.s.mss);
      sender.Send(data, inOrder);
      full := sndBufSize <= sender.buffer.GetCurrBufSize();
    }

    /** A full acknowledgement arrives. */
    method OnAck(ackNo: int, ack: int, window: int, due: bool, ghost a: int) returns (ack2: Option<int>)
      requires Valid() && Ordered(sender.s, sender.size) && ack == Wire(sender.isn + a) && NearSent(sender.s, a)
      modifies sender, sender.Lists(), sender.buffer, epoll`polls, this`pollIds
      ensures Valid() && SameButFor(old(epoll.polls), epoll.polls, id) && Repr() == old(Repr()) && SameInterest()
      ensures (sender.s, if ack2.Some? then [Ack2(ack2.value)] else []) ==
              SenderSpec.OnAck(old(sender.s), ackNo, a, window, due)
      ensures ack2 == if Effects.MustAnswer(old(sender.s), ackNo, due) then Some(ackNo) else None
      ensures receiver.r == old(receiver.r)
    {
      hide Built, Agree, AckedMessage, NearSent, SenderSpec.OnAck, SameButFor, Repr, Effects.MustAnswer;
      SameForAll(epoll.polls, id);
      ghost var o := Offers();
      var acked;
      ack2, acked := PassAck(ackNo, ack, window, due, a);
      assert Offers() == if acked then o.(room := true) else o;
      if acked {
        AfterEnableWrite(epoll.polls, pollIds, id, o);
        ReportsKeepWatch(epoll.polls, pollIds, WriteOn, id);
        Tell(WriteOn);
      }
    }

    method PassAck(ackNo: int, ack: int, window: int, due: bool, ghost a: int) returns (ack2: Option<int>, acked: bool)
      requires Built() && Ordered(sender.s, sender.size) && ack == Wire(sender.isn + a) && NearSent(sender.s, a)
      modifies sender, sender.Lists(), sender.buffer
      ensures Built() && receiver.r == old(receiver.r) && Repr() == old(Repr())
      ensures (sender.s, if ack2.Some? then [Ack2(ack2.value)] else []) ==
              SenderSpec.OnAck(old(sender.s), ackNo, a, window, due)
      ensures ack2 == if Effects.MustAnswer(old(sender.s), ackNo, due) then Some(ackNo) else None
      ensures sender.s.frags == old(sender.s.frags)
      ensures if acked then |sender.s.frags| - sender.s.dataAck < sndBufSize
              else sender.s.dataAck == old(sender.s.dataAck)
    {
      hide Sender.Valid, Receiver.Valid, NearSent, SenderSpec.OnAck, Sender.Lists, Sender.Areas, Effects.MustAnswer,
        Effects.TakesOver;
      AckMovesOnly(sender.s, ackNo, a, window, due);
      ack2, acked := sender.OnAck(ackNo, ack, window, due, a);
    }

    /** A data packet arrives.  Nothing becomes readable before it is acknowledged. */
    method OnData(unit: Unit, seqno: int, ghost n: int) returns (nak: seq<int>)
      requires Valid() && Protocol.ReceiverInv(receiver.r) && unit.flag == 0
      requires unit !in sender.Repr() + {receiver} + receiver.Lists() + receiver.Acks()
      requires seqno == Wire(receiver.isn + n) && 0 <= n
      requires Near(n, receiver.r.lastAck) && Near(n, receiver.r.curr) && Near(n, receiver.r.curr + 1)
      modifies receiver`r, receiver`currSeqNo, receiver.Lists(), receiver.buffer`maxPos
      modifies receiver.buffer`stored, receiver.buffer`cells
      modifies receiver.buffer.units, unit`flag
      ensures Valid() && Repr() <= old(Repr()) + {unit}
      ensures receiver.r == ReceiverSpec.OnData(old(receiver.r), n, old(unit.frag)).0
      ensures NakSent(ReceiverSpec.OnData(old(receiver.r), n, old(unit.frag)).1, nak, receiver.isn)
      ensures Codes(nak, receiver.r.loss - old(receiver.r).loss, receiver.isn)
      ensures sender.s == old(sender.s) && SameInterest()
    {
      hide Built, Agree, AckedMessage, NakSent, Codes, Protocol.ReceiverInv, Near, Wire, ReceiverSpec.OnData, Repr;
      ghost var o := Offers();
      ArrivalIsNotReadable(receiver.r, n, unit.frag);
      nak := PassPacket(unit, seqno, n);
      NothingToTell(epoll.polls, pollIds, id, o, Offers());
    }

    method PassPacket(unit: Unit, seqno: int, ghost n: int) returns (nak: seq<int>)
      requires Built() && Protocol.ReceiverInv(receiver.r) && unit.flag == 0
      requires unit !in sender.Repr() + {receiver} + receiver.Lists() + receiver.Acks()
      requires seqno == Wire(receiver.isn + n) && 0 <= n
      requires Near(n, receiver.r.lastAck) && Near(n, receiver.r.curr) && Near(n, receiver.r.curr + 1)
      modifies receiver`r, receiver`currSeqNo, receiver.Lists(), receiver.buffer`maxPos
      modifies receiver.buffer`stored, receiver.buffer`cells
      modifies receiver.buffer.units, unit`flag
      ensures Built() && sender.s == old(sender.s) && Repr() <= old(Repr()) + {unit}
      ensures receiver.r == ReceiverSpec.OnData(old(receiver.r), n, old(unit.frag)).0
      ensures NakSent(ReceiverSpec.OnData(old(receiver.r), n, old(unit.frag)).1, nak, receiver.isn)
      ensures Codes(nak, receiver.r.loss - old(receiver.r).loss, receiver.isn)
    {
      hide Sender.Valid, Receiver.Valid, NakSent, Codes, Protocol.ReceiverInv, Near, Wire, ReceiverSpec.OnData,
        AckedMessage, RcvBuffer.Units, Receiver.Slots, Effects.Stores;
      ArrivalIsNotReadable(receiver.r, n, unit.frag);
      var res;
      res, nak := receiver.OnData(unit, seqno, n);
    }

    /** The acknowledgement timer: what is acknowledged becomes readable. */
    method SendAck(due: bool, now: int) returns (sent: bool, ackNo: int, ack: int, window: int)
      requires Valid() && Steady(receiver.r)
      modifies receiver`r, receiver`lastAck, receiver`ackSeqNo, receiver.Acks()
      modifies receiver.buffer`lastAckPos, receiver.buffer`maxPos, receiver.buffer`acked, epoll`polls, this`pollIds
      ensures Valid() && SameButFor(old(epoll.polls), epoll.polls, id) && Repr() == old(Repr())
      ensures receiver.r == ReceiverSpec.SendAck(old(receiver.r), due).0
      ensures ReceiverSpec.SendAck(old(receiver.r), due).1 ==
              if sent then [Ack(ackNo, receiver.r.lastAck, window)] else []
      ensures sent ==> ack == Wire(receiver.isn + receiver.r.lastAck)
      ensures Effects.AckIsDue(old(receiver.r), due, receiver.r) == sent
      ensures sent ==>
                ackNo == IncAck(old(receiver.r).ackNo) && window == Effects.Larger(2, Effects.RoomLeft(receiver.r))
      ensures sender.s == old(sender.s)
    {
      hide Built, Agree, AckedMessage, ReceiverSpec.SendAck, Wire, Steady, SameButFor, Repr, Effects.AckIsDue,
        Effects.Larger, Effects.RoomLeft, IncAck;
      SameForAll(epoll.polls, id);
      ghost var o, r := Offers(), receiver.r;
      var moved;
      sent, ackNo, ack, window, moved := PassAckTimer(due, now);
      if moved {
        AfterEnableRead(epoll.polls, pollIds, id, o, AckedMessage(receiver.r));
        Tell(ReadOn);
      } else {
        SameMessages(r, receiver.r);
      }
    }

    method PassAckTimer(due: bool, now: int) returns (sent: bool, ackNo: int, ack: int, window: int, moved: bool)
      requires Built() && Steady(receiver.r)
      modifies receiver`r, receiver`lastAck, receiver`ackSeqNo, receiver.Acks()
      modifies receiver.buffer`lastAckPos, receiver.buffer`maxPos, receiver.buffer`acked
      ensures Built() && sender.s == old(sender.s) && Repr() == old(Repr())
      ensures receiver.r == ReceiverSpec.SendAck(old(receiver.r), due).0
      ensures ReceiverSpec.SendAck(old(receiver.r), due).1 ==
              if sent then [Ack(ackNo, receiver.r.lastAck, window)] else []
      ensures sent ==> ack == Wire(receiver.isn + receiver.r.lastAck)
      ensures Effects.AckIsDue(old(receiver.r), due, receiver.r) == sent
      ensures sent ==>
                ackNo == IncAck(old(receiver.r).ackNo) && window == Effects.Larger(2, Effects.RoomLeft(receiver.r))
      ensures if moved then receiver.r.start < receiver.r.lastAck else SameReading(receiver.r, old(receiver.r))
    {
      hide Sender.Valid, Receiver.Valid, ReceiverSpec.SendAck, Wire, AckValue, Receiver.Lists, Receiver.Acks,
        Receiver.Slots, Steady, Effects.AckIsDue, Effects.Larger, Effects.RoomLeft, IncAck;
      AckTimerMoves(receiver.r, due);
      sent, ackNo, ack, window, moved := receiver.SendAck(due, now);
    }

    /** `recv`: read a stream, and no more read readiness when nothing is left.  `ok` says that the socket is of
        the right type. */
    method Recv(data: array<Byte>, len: nat) returns (ok: bool, n: nat)
      requires Valid() && len <= data.Length && data !in sender.Repr() + receiver.Repr()
      requires isStream ==> Readable(receiver.r.stored, receiver.r.start, receiver.r.lastAck, receiver.r.notch)
      requires isStream ==> receiver.r.taken == {}
      modifies receiver`r, receiver.buffer`startPos, receiver.buffer`notch, receiver.buffer`base, receiver.buffer`cells
      modifies receiver.buffer.units, receiver.buffer.Units()`flag, data, epoll`polls, this`pollIds
      ensures Valid() && SameButFor(old(epoll.polls), epoll.polls, id) && Repr() <= old(Repr()) && ok == isStream
      ensures receiver.r == if ok then ReceiverSpec.Recv(old(receiver.r), len) else old(receiver.r)
      ensures n <= len && receiver.r.out == old(receiver.r).out + data[..n]
      ensures sender.s == old(sender.s)
    {
      hide Valid, Readable, ReceiverSpec.Recv, SameButFor, Repr;
      ok := isStream;
      if !ok {
        SameForAll(epoll.polls, id);
        return ok, 0;
      }
      n := RecvStream(data, len);
    }

    method RecvStream(data: array<Byte>, len: nat) returns (n: nat)
      requires Valid() && isStream && len <= data.Length && data !in sender.Repr() + receiver.Repr()
      requires Readable(receiver.r.stored, receiver.r.start, receiver.r.lastAck, receiver.r.notch)
      requires receiver.r.taken == {}
      modifies receiver`r, receiver.buffer`startPos, receiver.buffer`notch, receiver.buffer`base, receiver.buffer`cells
      modifies receiver.buffer.units, receiver.buffer.Units()`flag, data, epoll`polls, this`pollIds
      ensures Valid() && SameButFor(old(epoll.polls), epoll.polls, id) && Repr() <= old(Repr())
      ensures receiver.r == ReceiverSpec.Recv(old(receiver.r), len) && sender.s == old(sender.s)
      ensures n <= len && receiver.r.out == old(receiver.r).out + data[..n]
    {
      hide Built, Agree, AckedMessage, Readable, ReadFrom, ReceiverSpec.Recv, SameButFor, Repr;
      ghost var o := Offers();
      ReadMovesForward(receiver.r, len);
      var empty;
      n, empty := PassRead(data, len);
      Settle(empty, o);
    }

    /** After a read: no more read readiness when nothing is left. */
    method Settle(empty: bool, ghost o: Offer)
      requires Built() && Agree(epoll.polls, pollIds, id, o)
      requires SameOffer(if empty then o.(data := false, msg := false) else o, Offers())
      modifies epoll`polls, this`pollIds
      ensures Valid() && SameButFor(old(epoll.polls), epoll.polls, id) && Repr() == old(Repr())
    {
      hide Built, Agree, AckedMessage, SameButFor, Repr;
      SameForAll(epoll.polls, id);
      ghost var now := Offers();
      if empty {
        AfterDisableRead(epoll.polls, pollIds, id, o);
        Tell(ReadOff);
        NothingToTell(epoll.polls, pollIds, id, o.(data := false, msg := false), now);
      } else {
        NothingToTell(epoll.polls, pollIds, id, o, now);
      }
    }

    method PassRead(data: array<Byte>, len: nat) returns (n: nat, empty: bool)
      requires Built() && len <= data.Length && data !in sender.Repr() + receiver.Repr()
      requires Readable(receiver.r.stored, receiver.r.start, receiver.r.lastAck, receiver.r.notch)
      requires receiver.r.taken == {}
      modifies receiver`r, receiver.buffer`startPos, receiver.buffer`notch, receiver.buffer`base, receiver.buffer`cells
      modifies receiver.buffer.units, receiver.buffer.Units()`flag, data
      ensures Built() && sender.s == old(sender.s) && Repr() <= old(Repr())
      ensures receiver.r == ReceiverSpec.Recv(old(receiver.r), len)
      ensures n <= len && receiver.r.out == old(receiver.r).out + data[..n]
      ensures empty == (receiver.r.start >= receiver.r.lastAck)
      ensures !empty ==> old(receiver.r).start < old(receiver.r).lastAck
    {
      hide Sender.Valid, Receiver.Valid, Readable, ReadFrom, ReceiverSpec.Recv, Receiver.Slots, Receiver.Lists,
        Receiver.Acks;
      ReadMovesForward(receiver.r, len);
      n := receiver.Recv(data, len);
      empty := receiver.buffer.GetRcvDataSize() <= 0;
    }

    /** `recvmsg` without waiting: read a message, then ask whether another is there and, if not, stop
        being read-ready.  This is one step: the question is asked again after every message. */
    method RecvMsg(data: array<Byte>, len: nat) returns (ok: bool, n: nat, more: bool)
      requires Valid() && len <= data.Length && data !in sender.Repr() + receiver.Repr()
      requires !isStream ==> MessagesInOrder(receiver.r)
      modifies receiver`r, receiver.buffer`startPos, receiver.buffer`base, receiver.buffer`taken, receiver.buffer`cells
      modifies receiver.buffer.units, receiver.buffer.Units()`flag, data, epoll`polls, this`pollIds
      ensures Valid() && SameButFor(old(epoll.polls), epoll.polls, id) && Repr() <= old(Repr()) && ok == !isStream
      ensures !ok || len == 0 ==> n == 0 && !more && receiver.r == old(receiver.r)
      ensures ok && len > 0 ==> ReadsOne(old(receiver.r), len, receiver.r, more)
      ensures n <= len && Returned(old(receiver.r).got, receiver.r.got, data[..n])
      ensures ok && len > 0 && !more ==> !AckedMessage(receiver.r)
      ensures sender.s == old(sender.s)
    {
      hide Valid, AckedMessage, MessagesInOrder, SameButFor, Repr, ReadsOne, Returned;
      ok := !isStream;
      if !ok || len == 0 {
        SameForAll(epoll.polls, id);
        NothingReturned(receiver.r.got, data[..0]);
        return ok, 0, false;
      }
      n, more := RecvOne(data, len);
    }

    method RecvOne(data: array<Byte>, len: nat) returns (n: nat, more: bool)
      requires Valid() && !isStream && len <= data.Length && data !in sender.Repr() + receiver.Repr()
      requires MessagesInOrder(receiver.r)
      modifies receiver`r, receiver.buffer`startPos, receiver.buffer`base, receiver.buffer`taken, receiver.buffer`cells
      modifies receiver.buffer.units, receiver.buffer.Units()`flag, data, epoll`polls, this`pollIds
      ensures Valid() && SameButFor(old(epoll.polls), epoll.polls, id) && Repr() <= old(Repr())
      ensures ReadsOne(old(receiver.r), len, receiver.r, more) && sender.s == old(sender.s)
      ensures n <= len && Returned(old(receiver.r).got, receiver.r.got, data[..n])
      ensures !more ==> !AckedMessage(receiver.r)
    {
      hide Built, Agree, AckedMessage, MessagesInOrder, SkipTaken, ReceiverSpec.RecvMsg, SameButFor, Repr, ReadsOne,
        Returned;
      ghost var o := Offers();
      n, more := ReadAndAsk(data, len);
      Settle(!more, o);
    }

    method ReadAndAsk(data: array<Byte>, len: nat) returns (n: nat, more: bool)
      requires Built() && !isStream && len <= data.Length && data !in sender.Repr() + receiver.Repr()
      requires MessagesInOrder(receiver.r)
      modifies receiver`r, receiver.buffer`startPos, receiver.buffer`base, receiver.buffer`taken, receiver.buffer`cells
      modifies receiver.buffer.units, receiver.buffer.Units()`flag, data
      ensures Built() && sender.s == old(sender.s) && Repr() <= old(Repr())
      ensures ReadsOne(old(receiver.r), len, receiver.r, more)
      ensures n <= len && Returned(old(receiver.r).got, receiver.r.got, data[..n])
      ensures AckedMessage(receiver.r) ==> AckedMessage(old(receiver.r)) && more
    {
      hide Built, AckedMessage, MessagesInOrder, SkipTaken, ReceiverSpec.RecvMsg, Repr, HasMore, Returned;
      n := PassMessage(data, len);
      ghost var r1 := receiver.r;
      SkipTakenMeaning(r1);
      more := AskForMore();
      assert ReadsOneVia(old(receiver.r), len, r1, receiver.r, more);
    }

    method PassMessage(data: array<Byte>, len: nat) returns (n: nat)
      requires Built() && len <= data.Length && data !in sender.Repr() + receiver.Repr()
      requires MessagesInOrder(receiver.r)
      modifies receiver`r, receiver.buffer`startPos, receiver.buffer`base, receiver.buffer`taken, receiver.buffer`cells
      modifies receiver.buffer.units, receiver.buffer.Units()`flag, data
      ensures Built() && sender.s == old(sender.s) && Repr() <= old(Repr())
      ensures n <= len && Returned(old(receiver.r).got, receiver.r.got, data[..n])
      ensures ReceiverSpec.RecvMsg(old(receiver.r), len, receiver.r) && MessagesInOrder(receiver.r)
      ensures receiver.buffer.Units() <= old(receiver.buffer.Units())
      ensures AckedMessage(receiver.r) ==> AckedMessage(old(receiver.r))
    {
      hide Sender.Valid, Receiver.Valid, AckedMessage, MessagesInOrder, ReceiverSpec.RecvMsg, Receiver.Slots,
        Receiver.Lists, Receiver.Acks, RcvBuffer.Units;
      ghost var r := receiver.r;
      n := receiver.RecvMsg(data, len);
      MessageTaken(r, len, receiver.r);
    }

    method AskForMore() returns (more: bool)
      requires Built() && MessagesInOrder(receiver.r)
      modifies receiver`r, receiver.buffer`startPos, receiver.buffer`base, receiver.buffer`taken, receiver.buffer`cells
      modifies receiver.buffer.units, receiver.buffer.Units()`flag
      ensures Built() && sender.s == old(sender.s) && Repr() <= old(Repr())
      ensures receiver.r == SkipTaken(old(receiver.r))
      ensures more <==> HasMore(old(receiver.r), receiver.r)
      ensures AckedMessage(receiver.r) ==> AckedMessage(old(receiver.r))
      ensures !more ==> !AckedMessage(receiver.r)
    {
      hide Sender.Valid, Receiver.Valid, AckedMessage, MessagesInOrder, SkipTaken, LooksEmpty, Deliverable,
        FillsBuffer, Receiver.Slots, Receiver.Lists, Receiver.Acks;
      ghost var r := receiver.r;
      more := receiver.HasMessage();
      SkipMovesForward(r);
      if !more {
        NoneLeft(r);
      }
    }

    /** `epoll_add_usock`: watch the socket in a poll and report at once what it has to offer. */
    method Watch(eid: int, ev: Events) returns (ok: bool)
      requires Valid() && (!isStream ==> MessagesInOrder(receiver.r))
      modifies receiver`r, receiver.buffer`startPos, receiver.buffer`base, receiver.buffer`taken, receiver.buffer`cells
      modifies receiver.buffer.units, receiver.buffer.Units()`flag, epoll`polls, this`pollIds
      ensures Valid() && ok == (eid in old(epoll.polls)) && Repr() <= old(Repr())
      ensures SameButFor(old(epoll.polls), epoll.polls, id)
      ensures receiver.r == if ok && !isStream then SkipTaken(old(receiver.r)) else old(receiver.r)
      ensures ok ==> eid in pollIds && pollIds <= old(pollIds) + {eid}
      ensures ok ==> SameWatch(old(epoll.polls)[eid := Watched(old(epoll.polls)[eid], id, ev)], epoll.polls)
      ensures sender.s == old(sender.s)
    {
      hide Built, Agree, AgreeBut, AckedMessage, MessagesInOrder, SkipTaken, Changed, SameButFor, Repr;
      ghost var o := Offers();
      SameForAll(epoll.polls, id);
      if eid in epoll.polls {
        EditedOnlyFor(epoll.polls, eid, id, ev);
      }
      ok := AddInterest(eid, ev, o);
      if ok {
        var read := HasSomething();
        NothingToTellBut(epoll.polls, pollIds, eid, id, o, Offers());
        ghost var polls := epoll.polls;
        Report(eid, read, Offers());
        SameTwice(old(epoll.polls), polls, epoll.polls, id);
      }
    }

    /** The two calls that register the socket and the poll with each other. */
    method AddInterest(eid: int, ev: Events, ghost o: Offer) returns (ok: bool)
      requires Built() && Agree(epoll.polls, pollIds, id, o)
      modifies epoll`polls, this`pollIds
      ensures Built() && ok == (eid in old(epoll.polls))
      ensures ok ==> pollIds == old(pollIds) + {eid} && AgreeBut(epoll.polls, pollIds, eid, id, o)
      ensures ok ==> epoll.polls == old(epoll.polls)[eid := Watched(old(epoll.polls)[eid], id, ev)]
      ensures !ok ==> pollIds == old(pollIds) && epoll.polls == old(epoll.polls)
    {
      hide Built, Agree, AgreeBut;
      if eid in epoll.polls {
        AfterWatch(epoll.polls, pollIds, id, o, eid, ev);
      }
      ok := AddUsock(eid, ev);
    }

    /** Has the receive buffer anything for the user? */
    method HasSomething() returns (some: bool)
      requires Built() && (!isStream ==> MessagesInOrder(receiver.r))
      modifies receiver`r, receiver.buffer`startPos, receiver.buffer`base, receiver.buffer`taken, receiver.buffer`cells
      modifies receiver.buffer.units, receiver.buffer.Units()`flag
      ensures Built() && sender.s == old(sender.s) && Repr() <= old(Repr())
      ensures if isStream then some == (receiver.r.start < receiver.r.lastAck) && receiver.r == old(receiver.r)
              else receiver.r == SkipTaken(old(receiver.r))
      ensures !isStream ==> (AckedMessage(receiver.r) ==> some && AckedMessage(old(receiver.r)))
    {
      hide AckedMessage, MessagesInOrder, SkipTaken, Receiver.Valid, Sender.Valid, Apart;
      if isStream {
        some := receiver.buffer.GetRcvDataSize() > 0;
      } else {
        some := AskForMore();
      }
    }

    method Report(eid: int, read: bool, ghost o: Offer)
      requires Built() && AgreeBut(epoll.polls, pollIds, eid, id, o) && eid in pollIds && eid in epoll.polls
      requires if o.isStream then read == o.data else o.msg ==> read
      requires o.room == (|sender.s.frags| - sender.s.dataAck < sndBufSize)
      modifies epoll`polls, this`pollIds
      ensures Built() && Agree(epoll.polls, pollIds, id, o)
      ensures eid in pollIds && pollIds <= old(pollIds) && SameWatch(old(epoll.polls), epoll.polls)
      ensures SameButFor(old(epoll.polls), epoll.polls, id)
    {
      hide Built, Agree, AgreeBut, Changed, SameButFor;
      SameForAll(epoll.polls, id);
      AfterAdd(epoll.polls, pollIds, eid, id, o, read);
      ReportsKeepWatch(epoll.polls, pollIds, ReadOn, id);
      var room := HasRoom();
      if read {
        Tell(ReadOn);
      }
      ghost var polls := epoll.polls;
      SameForAll(polls, id);
      ReportsKeepWatch(epoll.polls, pollIds, WriteOn, id);
      if room {
        Tell(WriteOn);
      }
      SameTwice(old(epoll.polls), polls, epoll.polls, id);
    }

    method HasRoom() returns (room: bool)
      requires Built()
      ensures Built() && room == (|sender.s.frags| - sender.s.dataAck < sndBufSize)
    {
      hide Sender.Valid, Receiver.Valid;
      room := sndBufSize > sender.buffer.GetCurrBufSize();
    }

    /** `epoll_remove_usock`.  The polls the socket stays in agree with its buffers afterwards if and only if
        none of them should report it. */
    method Unwatch(eid: int)
      requires Valid()
      modifies epoll`polls, this`pollIds
      ensures Built() && pollIds == (old(pollIds) - {eid}) * old(epoll.polls).Keys
      ensures epoll.polls == AfterLeaving(old(epoll.polls), old(pollIds), eid, id)
      ensures SameButFor(old(epoll.polls), epoll.polls, id)
      ensures Valid() <==> forall e :: e in old(epoll.polls) && e in old(pollIds) && e != eid ==>
                                         !ShouldReport(old(epoll.polls)[e], id, Offers())
    {
      hide Built, Agree, AckedMessage, Changed, SameButFor, ShouldReport;
      ghost var o := Offers();
      AfterRemove(epoll.polls, pollIds, id, o, eid);
      LeavingConcernsOnly(epoll.polls, pollIds, eid, id);
      ForgetPoll(eid);
      Tell(ReadOff);
      Tell(WriteOff);
      RemoveUsock(eid);
      assert Offers() == o;
    }

    // The other events of a connection.  They change nothing a poll reports.

    /** A light acknowledgement arrives. */
    method OnLightAck(ack: int, ghost a: int)
      requires Valid() && ack == Wire(sender.isn + a) && Near(a, sender.s.lastAck)
      modifies sender`s, sender`lastAck, sender`flowWindow
      ensures Valid() && Repr() == old(Repr()) && sender.s == SenderSpec.OnLightAck(old(sender.s), a)
      ensures receiver.r == old(receiver.r) && SameInterest()
    {
      hide Sender.Valid, Receiver.Valid, Near, Wire, AckedMessage, Agree, Sender.Lists, Sender.Areas;
      sender.OnLightAck(ack, a);
    }

    /** A loss report arrives. */
    method OnNak(words: seq<int>, ghost items: seq<LossItem>)
      requires Valid() && Ordered(sender.s, sender.size) && words == NakCoding.Encode(AllAbsolute(items, sender.isn))
      requires forall i :: 0 <= i < |items| ==> NearItem(sender.s, items[i])
      modifies sender`s, sender`broken, sender.Lists()
      ensures Valid() && Repr() == old(Repr()) && sender.s == SenderSpec.OnNak(old(sender.s), items)
      ensures receiver.r == old(receiver.r) && SameInterest()
    {
      hide Sender.Valid, Receiver.Valid, NearItem, AckedMessage, Agree, NakCoding.Encode, AllAbsolute, Ordered,
        SenderSpec.OnNak, Sender.Lists, Sender.Areas;
      ReportMovesNothing(sender.s, items);
      sender.OnNak(words, items);
    }

    /** The expiration timer. */
    method OnExpire()
      requires Valid() && Ordered(sender.s, sender.size)
      modifies sender`s, sender.Lists()
      ensures Valid() && Repr() == old(Repr()) && sender.s == SenderSpec.OnExpire(old(sender.s))
      ensures receiver.r == old(receiver.r) && SameInterest()
    {
      hide Sender.Valid, Receiver.Valid, AckedMessage, Agree, Ordered, SenderSpec.OnExpire, Sender.Lists,
        Sender.Areas;
      ExpiryMovesNothing(sender.s);
      sender.OnExpire();
    }

    /** `packData`, first half. */
    method TakeLost() returns (seqno: int)
      requires Valid() && Ordered(sender.s, sender.size) && sender.s.picked.None?
      modifies sender`s, sender.Lists()
      ensures Valid() && Repr() == old(Repr())
      ensures if old(sender.s).loss == {} then seqno == -1 && sender.s == old(sender.s)
              else sender.s == Pick(old(sender.s)) && seqno == Wire(sender.isn + sender.s.picked.value)
      ensures receiver.r == old(receiver.r) && SameInterest()
    {
      hide Sender.Valid, Receiver.Valid, AckedMessage, Agree, Ordered, Wire, Min, IsMin, Sender.Lists, Sender.Areas;
      seqno := sender.TakeLost();
    }

    /** `packData`, second half. */
    method PackLost(seqno: int) returns (payload: nat, f: Frag)
      requires Valid() && Ordered(sender.s, sender.size) && sender.s.picked.Some?
      requires seqno == Wire(sender.isn + sender.s.picked.value) && Near(sender.s.dataAck, sender.s.picked.value)
      modifies sender`s
      ensures Valid() && Repr() == old(Repr())
      ensures (sender.s, if payload == 0 then [] else [Data(old(sender.s).picked.value, f)]) ==
              PackPicked(old(sender.s))
      ensures receiver.r == old(receiver.r) && SameInterest()
    {
      hide Sender.Valid, Receiver.Valid, AckedMessage, Agree, Ordered, Wire, Near, Sender.Lists, Sender.Areas;
      payload, f := sender.PackLost(seqno);
    }

    /** `packData` when nothing is lost. */
    method PackNew(congestionWindow: int) returns (payload: nat, seqno: int, f: Frag)
      requires Valid() && Ordered(sender.s, sender.size)
      modifies sender`s, sender`currSeqNo, sender.buffer`currBlock, sender.buffer`curr
      ensures Valid() && Repr() == old(Repr())
      ensures (sender.s, if payload == 0 then [] else [Data(sender.s.curr, f)])
              == SenderSpec.PackNew(old(sender.s), congestionWindow)
      ensures payload != 0 <==> Effects.MaySendNext(old(sender.s), congestionWindow)
      ensures payload != 0 ==> var s, n := old(sender.s), old(sender.s).curr + 1;
              0 <= n < |s.frags| && f == s.frags[n] && sender.s.curr == n && seqno == Wire(sender.isn + n)
      ensures receiver.r == old(receiver.r) && SameInterest()
    {
      hide Sender.Valid, Receiver.Valid, AckedMessage, Agree, Ordered, Wire, SenderSpec.PackNew, Sender.Lists,
        Sender.Areas;
      PackNewMovesOn(sender.s, congestionWindow);
      payload, seqno, f := sender.PackNew(congestionWindow);
    }

    /** An acknowledgement has been acknowledged. */
    method OnAck2(ackNo: int, now: int) returns (rtt: int)
      requires Valid() && Steady(receiver.r)
      modifies receiver`r, receiver`lastAckAck, receiver.Acks()
      ensures Valid() && Repr() == old(Repr()) && receiver.r == ReceiverSpec.OnAck2(old(receiver.r), ackNo, rtt > 0)
      ensures sender.s == old(sender.s) && SameInterest()
    {
      hide Sender.Valid, Receiver.Valid, AckedMessage, Agree, Steady, ReceiverSpec.OnAck2, Receiver.Lists,
        Receiver.Acks, Receiver.Slots;
      Ack2MovesNothing(receiver.r, ackNo);
      rtt := receiver.OnAck2(ackNo, now);
    }

    lemma ReprIsThere()
      ensures forall o: object? :: o in Repr() ==> o != null && allocated(o)
    {
    }

    lemma NotMine(o: object)
      requires o !in Repr()
      ensures o !in sender.Repr() + receiver.Repr()
    {
    }

    lemma SenderParts()
      ensures this in Repr() && epoll in Repr() && sender in Repr() && sender.buffer in Repr()
      ensures sender.Lists() <= Repr() && sender.Areas() <= Repr()
    {
    }

    lemma ReceiverParts()
      ensures this in Repr() && epoll in Repr() && receiver in Repr()
      ensures receiver.Lists() <= Repr() && receiver.Acks() <= Repr()
      ensures receiver.buffer in Repr() && receiver.buffer.units in Repr() && receiver.buffer.Units() <= Repr()
    {
    }

    /** A step of another socket `u` does not concern this one in the same polls: if it leaves the objects of
        this one alone and tells the polls nothing about it, they still agree with its buffers. */
    twostate lemma StaysValid(u: SocketId)
      requires id != u && SameButFor(old(epoll.polls), epoll.polls, u)
      requires unchanged(old(Repr()) - {epoll}) && old(Valid())
      ensures Valid() && Repr() == old(Repr()) && pollIds == old(pollIds)
      ensures sender.s == old(sender.s) && receiver.r == old(receiver.r)
    {
      hide Agree, Sender.Valid, Receiver.Valid, AckedMessage, SameButFor;
      var own := old(Repr()) - {epoll};
      assert this in own && sender in own && receiver in own;
      assert sender.buffer in own && receiver.buffer in own && receiver.buffer.units in own;
      OthersStillAgree(old(epoll.polls), epoll.polls, u, old(pollIds), id, old(Offers()));
    }

    /** The step leaves all objects of this socket alone. */
    twostate predicate LeftAlone()
      reads *
    {
      unchanged(old(Repr()))
    }

    /** Such a step does not concern the socket. */
    twostate lemma Unaffected()
      requires LeftAlone() && old(Valid())
      ensures Valid() && Repr() == old(Repr()) && SameInterest()
      ensures sender.s == old(sender.s) && receiver.r == old(receiver.r)
    {
      hide Agree, Sender.Valid, Receiver.Valid, AckedMessage;
      var own := old(Repr());
      assert this in own && epoll in own && sender in own && receiver in own;
      assert sender.buffer in own && receiver.buffer in own && receiver.buffer.units in own;
    }

    /** A light acknowledgement, or -1 when there is nothing to say. */
    method SendLightAck() returns (ack: int)
      requires Valid() && Steady(receiver.r)
      ensures if ack == -1 then ReceiverSpec.SendLightAck(receiver.r) == []
              else && ack == Wire(receiver.isn + AckValue(receiver.r))
                   && ReceiverSpec.SendLightAck(receiver.r) == [LightAck(AckValue(receiver.r))]
    {
      hide Sender.Valid, Receiver.Valid, AckedMessage, Agree, Steady, Wire, AckValue;
      ack := receiver.SendLightAck();
    }
  }

  lemma ExpiryMovesNothing(s: Snd)
    ensures SenderSpec.OnExpire(s).frags == s.frags && SenderSpec.OnExpire(s).dataAck == s.dataAck
  {
  }

  lemma PackNewMovesOn(s: Snd, cwnd: int)
    ensures var s' := SenderSpec.PackNew(s, cwnd).0; s'.frags == s.frags && s'.dataAck == s.dataAck
  {
  }

  lemma Ack2MovesNothing(r: Rcv, ackNo: int)
    ensures forall positive :: var r' := ReceiverSpec.OnAck2(r, ackNo, positive);
                               SameReading(r', r) && r'.isStream == r.isStream && AckedMessage(r') == AckedMessage(r)
  {
    hide AckedMessage;
    forall positive ensures AckedMessage(ReceiverSpec.OnAck2(r, ackNo, positive)) == AckedMessage(r) {
      SameMessages(r, ReceiverSpec.OnAck2(r, ackNo, positive));
    }
  }

  /** `recvmsg` reads a message, if there is one, releases what has been read at the front and tells whether
      there is more. */
  ghost predicate ReadsOne(r: Rcv, len: nat, r': Rcv, more: bool) {
    exists r1 :: ReadsOneVia(r, len, r1, r', more)
  }

  ghost predicate ReadsOneVia(r: Rcv, len: nat, r1: Rcv, r': Rcv, more: bool) {
    ReceiverSpec.RecvMsg(r, len, r1) && r' == SkipTaken(r1) && (more <==> HasMore(r1, r'))
  }

  /** What `recvmsg` tells of the messages that are left, in state `r` before the front has been released
      and `r'` after. */
  ghost predicate HasMore(r: Rcv, r': Rcv) {
    !LooksEmpty(r) && (FillsBuffer(r') || exists p, q :: Deliverable(r', p, q))
  }

  lemma NothingReturned(got: seq<Delivery>, bytes: seq<Byte>)
    ensures bytes == [] ==> Returned(got, got, bytes)
  {
  }

  /** What `recvmsg` returned: the bytes of one more delivery, or nothing. */
  predicate Returned(before: seq<Delivery>, after: seq<Delivery>, bytes: seq<Byte>) {
    Delivers(before, after, bytes) || (bytes == [] && after == before)
  }

  lemma {:induction false} ReportMovesNothing(s: Snd, items: seq<LossItem>)
    ensures SenderSpec.OnNak(s, items).frags == s.frags && SenderSpec.OnNak(s, items).dataAck == s.dataAck
    decreases |items|
  {
    if items != [] {
      ReportMovesNothing(OnLossItem(s, items[0]), items[1..]);
    }
  }

  lemma ReadMovesForward(r: Rcv, len: nat)
    ensures var r' := ReceiverSpec.Recv(r, len);
            r.start <= r'.start && r'.lastAck == r.lastAck && r'.isStream == r.isStream
  {
  }

  /** Reading takes messages away and brings none. */
  lemma FewerMessages(r: Rcv, r': Rcv)
    requires r'.stored == r.stored && r'.lastAck == r.lastAck && r.start <= r'.start
    requires forall n :: r'.start <= n && n in r.taken ==> n in r'.taken
    ensures AckedMessage(r') ==> AckedMessage(r)
  {
    forall p, q | Whole(r', p, q) ensures Whole(r, p, q) {
    }
  }

  lemma SkipMovesForward(r: Rcv)
    ensures var r' := SkipTaken(r);
            && r'.stored == r.stored && r'.lastAck == r.lastAck && r'.isStream == r.isStream
            && (AckedMessage(r') ==> AckedMessage(r))
  {
    SkipTakenMeaning(r);
    FewerMessages(r, SkipTaken(r));
  }

  /** When the buffer looks empty or holds no deliverable message, no acknowledged message is left. */
  lemma NoneLeft(r: Rcv)
    requires LooksEmpty(r) || forall p, q :: !Deliverable(SkipTaken(r), p, q)
    ensures !AckedMessage(SkipTaken(r))
  {
    SkipTakenMeaning(r);
    var r' := SkipTaken(r);
    forall p, q ensures !(Whole(r', p, q) && q < r'.lastAck) {
      assert Whole(r', p, q) && q < r'.lastAck ==> Deliverable(r', p, q);
    }
  }

  /** The first deliverable message within the acknowledged part is at its front. */
  lemma FirstIsAtFront(r: Rcv, p: int, q: int)
    requires MessagesInOrder(r) && FirstDeliverable(r, p, q) && q < r.lastAck
    requires r.start < r.lastAck ==> r.start !in r.taken
    ensures p == r.start
  {
    if r.start < r.lastAck {
      assert r.start in r.stored;
      UnreadIsGood(r, r.start);
    }
    AckedIsAtFront(r, p, q);
  }

  lemma MessageTaken(r: Rcv, len: nat, r': Rcv)
    requires MessagesInOrder(r) && ReceiverSpec.RecvMsg(r, len, r')
    ensures MessagesInOrder(r') && r'.isStream == r.isStream && (AckedMessage(r') ==> AckedMessage(r))
  {
    hide MessagesInOrder, AckedMessage, SkipTaken, Deliverable, LooksEmpty;
    var r0 := SkipTaken(r);
    SkipKeepsMessages(r);
    SkipMovesForward(r);
    SkipTakenMeaning(r);
    if r' != r0 {
      var p, q :| FirstDeliverable(r0, p, q) && r' == Take(r0, p, q, len);
      if q < r0.lastAck {
        FirstIsAtFront(r0, p, q);
      }
      TakeKeepsMessages(r0, p, q, len);
      TakeMovesForward(r0, p, q, len);
    }
  }

  lemma TakeMovesForward(r: Rcv, p: int, q: int, len: nat)
    requires Deliverable(r, p, q)
    ensures var r' := Take(r, p, q, len);
            r'.isStream == r.isStream && (AckedMessage(r') ==> AckedMessage(r))
  {
    hide Slice, Bytes, Truncated, AckedMessage;
    FewerMessages(r, Take(r, p, q, len));
  }

  /** What reading depends on. */
  predicate SameReading(r: Rcv, r': Rcv) {
    r'.stored == r.stored && r'.lastAck == r.lastAck && r'.start == r.start && r'.taken == r.taken
  }

  lemma SameMessages(r: Rcv, r': Rcv)
    requires SameReading(r', r)
    ensures AckedMessage(r') == AckedMessage(r)
  {
    forall p, q ensures Whole(r, p, q) == Whole(r', p, q) {
      SameWhole(r, r', p, q);
    }
  }

  lemma AckTimerMoves(r: Rcv, due: bool)
    requires Steady(r)
    ensures var r' := ReceiverSpec.SendAck(r, due).0;
            && r'.stored == r.stored && r'.start == r.start && r'.taken == r.taken && r'.isStream == r.isStream
            && r.start <= r.lastAck <= r'.lastAck
  {
  }

  /** A packet that arrives lies beyond what has been acknowledged. */
  lemma ArrivalIsNotReadable(r: Rcv, n: int, f: Frag)
    requires Protocol.ReceiverInv(r)
    ensures var r' := ReceiverSpec.OnData(r, n, f).0;
            && r'.start == r.start && r'.lastAck == r.lastAck && r'.isStream == r.isStream
            && (AckedMessage(r') ==> AckedMessage(r))
  {
    var r' := ReceiverSpec.OnData(r, n, f).0;
    forall p, q | Whole(r', p, q) && q < r'.lastAck ensures Whole(r, p, q) {
      forall m | p <= m <= q ensures m in r.stored && r.stored[m] == r'.stored[m] && m !in r.taken {
        assert m in r'.stored;
      }
    }
  }

  lemma NoMessageYet(r: Rcv)
    requires r.stored == map[]
    ensures !AckedMessage(r)
  {
    forall p, q ensures !Whole(r, p, q) {
      assert p !in r.stored;
    }
  }

  /** How many bytes a sender has room for. */
  function Room(s: Snd, sndBufSize: int): int {
    (sndBufSize - (|s.frags| - s.dataAck)) * s.mss
  }

  lemma RoomInBytes(s: Snd, sndBufSize: int)
    requires s.mss > 0 && |s.frags| - s.dataAck <= sndBufSize
    ensures Room(s, sndBufSize) == (sndBufSize - (|s.frags| - s.dataAck)) * s.mss
    ensures if |s.frags| - s.dataAck < sndBufSize then Room(s, sndBufSize) > 0 else Room(s, sndBufSize) == 0
  {
    if |s.frags| - s.dataAck < sndBufSize {
      Positive(sndBufSize - (|s.frags| - s.dataAck), s.mss);
    }
  }

  /** The packets of a message fit into the buffer if and only if there is room for its bytes. */
  lemma RoomIsExact(s: Snd, sndBufSize: int, data: seq<Byte>, inOrder: bool)
    requires s.mss > 0 && |s.frags| - s.dataAck <= sndBufSize
    ensures |UserSend(s, data, inOrder).frags| - s.dataAck <= sndBufSize <==> |data| <= Room(s, sndBufSize)
  {
    hide Chop;
    Recovery.ChopCount(data, s.nextNo, inOrder, true, s.mss, sndBufSize - (|s.frags| - s.dataAck));
  }

  datatype SendResult = Accepted | NothingToSend | TooLarge | NoRoom | WrongType

  lemma Positive(a: int, b: int)
    requires a > 0 && b > 0
    ensures a * b > 0
  {
  }

  lemma RoomBound(size: int, count: nat, mss: nat)
    ensures (size - count) * mss <= size * mss
  {
  }

  lemma CountFits(len: nat, mss: nat, k: int)
    requires mss > 0 && len <= k * mss && k >= 0
    ensures PacketCount(len, mss) <= k
  {
    NumberOfPackets(len, mss, PacketCount(len, mss));
    if PacketCount(len, mss) > k {
      MulMonotone(k, PacketCount(len, mss) - 1, mss);
      assert false;
    }
  }

  lemma FragmentCount(m: Message, mss: nat)
    requires mss > 0
    ensures |Fragments(m, mss)| == PacketCount(|m.data|, mss)
  {
    NumberOfPackets(|m.data|, mss, PacketCount(|m.data|, mss));
    ChopAt(m.data, m.no, m.inOrder, true, mss, PacketCount(|m.data|, mss));
  }

  lemma AckMovesOnly(s: Snd, ackNo: int, a: int, window: int, due: bool)
    ensures var s' := SenderSpec.OnAck(s, ackNo, a, window, due).0;
            s'.frags == s.frags && s'.dataAck >= s.dataAck
  {
  }
}
