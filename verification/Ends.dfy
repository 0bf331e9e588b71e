/** The protocol's invariant gives the two ends of a connection what their methods rely on. */
module Ends {
  import opened SeqNo
  import opened Packets
  import opened SenderSpec
  import opened ReceiverSpec
  import opened RcvBuffers
  import opened Protocol
  import Senders
  import Receivers

  /** Of two neighbouring packets of a stream, one ends a message exactly when the other begins one,
      and if neither they belong to the same message. */
  lemma Neighbours(s: Snd, n: nat) returns (k: nat)
    requires s.mss > 0 && GoodLog(s.log) && s.frags == Stream(s.log, s.mss) && n + 1 < |s.frags|
    ensures IsLast(s.frags[n]) <==> IsFirst(s.frags[n + 1])
    ensures k < |s.log| && InMessage(s, k, n) && (!IsLast(s.frags[n]) ==> InMessage(s, k, n + 1))
  {
    hide Stream, MsgStart, GoodLog;
    k := MsgOf(s.log, s.mss, n);
    StreamFlags(s.log, s.mss, k, n);
    var j := MsgOf(s.log, s.mss, n + 1);
    StreamFlags(s.log, s.mss, j, n + 1);
    if j < k {
      MsgStartMonotone(s.log, s.mss, j + 1, k);
    } else if k < j {
      MsgStartMonotone(s.log, s.mss, k + 1, j);
    }
  }

  /** In message mode the packets a receiver holds are framed and read a whole message at a time,
      which is what `recvmsg` relies on. */
  lemma ReceiverReadsMessages(w: World)
    requires Inv(w) && !w.rcv.isStream
    ensures MessagesInOrder(w.rcv)
  {
    hide Stream, MsgStart, GoodLog, StreamInv, MsgInv, InOrderComeLast, IsMessageRun;
    var s, r := w.snd, w.rcv;
    forall n, m | r.start <= n && m == n + 1 && n in r.stored && m in r.stored
      ensures IsLast(r.stored[n]) <==> IsFirst(r.stored[m])
      ensures !IsLast(r.stored[n]) ==> (n in r.taken <==> m in r.taken)
    {
      TakenTogether(s, r, n);
    }
    if r.start in r.stored && r.start !in r.taken {
      var k := StartIsHead(s, r);
      StreamFlags(s.log, s.mss, k, r.start);
    }
  }

  lemma TakenTogether(s: Snd, r: Rcv, n: int)
    requires SenderInv(s, r.size) && ReceiverInv(r) && AgreeInv(s, r) && MessageInv(s, r) && !r.isStream
    requires r.start <= n && n in r.stored && n + 1 in r.stored
    ensures IsLast(r.stored[n]) <==> IsFirst(r.stored[n + 1])
    ensures !IsLast(r.stored[n]) ==> (n in r.taken <==> n + 1 in r.taken)
  {
    hide Stream, MsgStart, GoodLog, MessageInv;
    var k := Neighbours(s, n);
    if !IsLast(s.frags[n]) {
      if n in r.taken {
        ReadAsAWhole(s, r, k, n, n + 1);
      } else if n + 1 in r.taken {
        ReadAsAWhole(s, r, k, n + 1, n);
      }
    }
  }

  /** In stream mode everything acknowledged and unread can be read, which is what `recv` relies on. */
  lemma ReceiverReadsStream(w: World)
    requires Inv(w) && w.rcv.isStream
    ensures Readable(w.rcv.stored, w.rcv.start, w.rcv.lastAck, w.rcv.notch) && w.rcv.taken == {}
  {
    AckedIsReadable(w.snd, w.rcv);
  }

  /** A packet number is recent when it is less than half the sequence space behind the newest number `curr`
      of the end that handles it.  This is all that is assumed of the network. */
  predicate Recent(n: int, curr: int) {
    curr + 1 - n < SEQ_NO_TH
  }

  /** Everything recent on the network meets the preconditions of the methods that handle it at the sender. */
  lemma SenderMayHandle(w: World, m: Msg)
    requires Inv(w) && m in w.net && w.rcv.size < SEQ_NO_TH
    ensures Senders.Ordered(w.snd, w.rcv.size)
    ensures m.Ack? && Recent(m.ack, w.snd.curr) ==> Senders.NearSent(w.snd, m.ack)
    ensures m.LightAck? && Recent(m.lightAck, w.snd.curr) ==> Near(m.lightAck, w.snd.lastAck)
    ensures m.Nak? ==> forall i :: 0 <= i < |m.items| && Recent(Senders.LowOf(m.items[i]), w.snd.curr) ==>
                         Senders.NearItem(w.snd, m.items[i])
  {
    assert MsgInv(m, w.snd, w.rcv);
    Senders.InvIsOrdered(w.snd, w.rcv.size);
    if m.Nak? {
      forall i | 0 <= i < |m.items| ensures ItemInv(m.items[i], w.rcv) {
      }
    }
  }

  /** A lost number that was taken while it was recent can be packed. */
  lemma SenderMayPack(w: World)
    requires Inv(w) && w.rcv.size < SEQ_NO_TH
    ensures Senders.Ordered(w.snd, w.rcv.size)
    ensures w.snd.picked.Some? && Recent(w.snd.picked.value, w.snd.curr) ==> Near(w.snd.dataAck, w.snd.picked.value)
  {
    Senders.InvIsOrdered(w.snd, w.rcv.size);
  }

  /** The same at the receiver.  For acknowledgements, besides, they must not stay unacknowledged for half the
      sequence space. */
  lemma ReceiverMayHandle(w: World, m: Msg)
    requires Inv(w) && m in w.net && w.rcv.size < SEQ_NO_TH
    ensures Receivers.Ack2Lag(w.rcv) < SEQ_NO_TH ==> Receivers.Steady(w.rcv)
    ensures m.Data? && Recent(m.n, w.rcv.curr) ==>
              0 <= m.n && Near(m.n, w.rcv.lastAck) && Near(m.n, w.rcv.curr) && Near(m.n, w.rcv.curr + 1)
  {
    assert MsgInv(m, w.snd, w.rcv);
  }
}
